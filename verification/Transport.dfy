/** What the CAN transport guarantees end to end, over runs of any length. */
module Transport {
  import opened Bytes
  import opened FlexCan
  import opened Fragmentation
  import opened Reassembly
  import opened Sequences

  // ----- Putting a message back together ------------------------------------------------------------

  predicate Distinct(ps: seq<Packet>) {
    forall i, j :: 0 <= i < j < |ps| ==> ps[i].packetSN != ps[j].packetSN
  }

  predicate Ascending(ps: seq<Packet>) {
    forall i, j :: 0 <= i < j < |ps| ==> ps[i].packetSN < ps[j].packetSN
  }

  lemma AscendingCons(p: Packet, ps: seq<Packet>)
    requires Ascending(ps) && forall q :: q in ps ==> p.packetSN < q.packetSN
    ensures Ascending([p] + ps)
  {
    assert forall j :: 0 <= j < |ps| ==> ps[j] in ps;
  }

  lemma InsertMembers(p: Packet, sorted: seq<Packet>)
    ensures forall q :: q in Insert(p, sorted) ==> q == p || q in sorted
  {
    InsertElements(p, sorted);
    forall q | q in Insert(p, sorted) ensures q == p || q in sorted {
      assert q in multiset(Insert(p, sorted));
    }
  }

  lemma {:induction false} InsertAscending(p: Packet, sorted: seq<Packet>)
    requires Ascending(sorted) && forall q :: q in sorted ==> q.packetSN != p.packetSN
    ensures Ascending(Insert(p, sorted))
  {
    if sorted == [] || p.packetSN < sorted[0].packetSN {
      AscendingCons(p, sorted);
    } else {
      var first, rest := sorted[0], sorted[1..];
      assert first in sorted && forall q :: q in rest ==> q in sorted;
      assert forall q :: q in rest ==> first.packetSN < q.packetSN;
      InsertAscending(p, rest);
      InsertMembers(p, rest);
      AscendingCons(first, Insert(p, rest));
    }
  }

  lemma {:induction false} SortAscending(ps: seq<Packet>)
    requires Distinct(ps)
    ensures Ascending(SortBySN(ps))
  {
    if ps != [] {
      var n := |ps| - 1;
      SortAscending(ps[..n]);
      SortElements(ps[..n]);
      forall q | q in SortBySN(ps[..n]) ensures q.packetSN != ps[n].packetSN {
        assert q in multiset(ps[..n]);
      }
      InsertAscending(ps[n], SortBySN(ps[..n]));
    }
  }

  lemma {:induction false} AscendingFrom(ps: seq<Packet>, i: nat)
    requires Ascending(ps) && i < |ps|
    ensures ps[i].packetSN >= i
  {
    if i > 0 {
      AscendingFrom(ps, i - 1);
    }
  }

  lemma {:induction false} AscendingTo(ps: seq<Packet>, i: nat)
    requires Ascending(ps) && i < |ps|
    requires forall p :: p in ps ==> p.packetSN < |ps|
    ensures ps[i].packetSN <= i
    decreases |ps| - i
  {
    if i + 1 < |ps| {
      AscendingTo(ps, i + 1);
    } else {
      assert ps[i] in ps;
    }
  }

  predicate PartOf(ps: seq<Packet>, msg: Message, id: byte) {
    Fragmented(msg)
    && forall p :: p in ps ==> p.packetSN < FragmentCount(|msg.data|) && p == Fragment(msg, id, p.packetSN)
  }

  /** As many distinct fragments of a message as it has make exactly that message, in whatever order they came. */
  lemma AssembleAll(ps: seq<Packet>, msg: Message, id: byte)
    requires PartOf(ps, msg, id) && Distinct(ps) && |ps| == FragmentCount(|msg.data|)
    ensures ps != [] && Assemble(ps) == msg
  {
    var sorted := SortBySN(ps);
    SortAscending(ps);
    SortElements(ps);
    forall p | p in sorted ensures p in ps {
      assert p in multiset(ps);
    }
    forall i | 0 <= i < |sorted| ensures sorted[i] == Fragment(msg, id, i) {
      AscendingFrom(sorted, i);
      AscendingTo(sorted, i);
      assert sorted[i] in sorted;
    }
    assert sorted == Fragments(msg, id);
    FragmentsCarryMessage(msg, id);
  }

  /** A message of at most eight bytes is queued by its one frame, unchanged, and nothing else happens. */
  lemma ShortDelivery(locals: set<byte>, st: State, msg: Message, id: byte)
    requires 1 <= |msg.data| <= 8 && msg.priority < 8 && msg.dstId in locals
    ensures Receive(locals, st, WireImage(msg, id)) == State(st.live, st.queue + [Single(msg)])
  {
    var p := Packet(msg.priority, msg.srcId, msg.dstId, 0, 0, 0, msg.data);
    hide *;
    ShortImage(msg, id);
    SendRecv(p);
    ReceiveOne(locals, st, Send(p).value);
    SingleArrives(locals, st, Send(p).value, msg);
  }

  lemma ReceiveOne(locals: set<byte>, st: State, f: Frame)
    ensures Receive(locals, st, [f]) == StepFrame(locals, st, f)
  {
    hide StepFrame;
    assert [f][..0] == [];
  }

  lemma SingleArrives(locals: set<byte>, st: State, f: Frame, msg: Message)
    requires msg.dstId in locals && msg.priority < 8
    requires Recv(f) == Ok(Normalized(Packet(msg.priority, msg.srcId, msg.dstId, 0, 0, 0, msg.data)))
    ensures StepFrame(locals, st, f) == State(st.live, st.queue + [Single(msg)])
  {
    hide Recv;
  }

  lemma ShortImage(msg: Message, id: byte)
    requires 1 <= |msg.data| <= 8
    ensures var p := Packet(msg.priority, msg.srcId, msg.dstId, 0, 0, 0, msg.data);
            Send(p).Ok? && WireImage(msg, id) == [Send(p).value]
  {
    var p := Packet(msg.priority, msg.srcId, msg.dstId, 0, 0, 0, msg.data);
    hide Identifier;
    assert PacketsOf(msg, id) == [p];
    assert [p][..0] == [];
  }

  // ----- Conservation of fragments -----------------------------------------------------------------

  /** Why an entry left the table, with all the fragments it held. */
  datatype Closing = Delivered(fragments: seq<Packet>) | Evicted(fragments: seq<Packet>)

  function Live(st: State, key: Key): seq<Packet> { if key in st.live then st.live[key] else [] }

  /** The collected fragments for one table key, in order of arrival. */
  function Accepted(locals: set<byte>, fs: seq<Frame>, key: Key): seq<Packet> {
    if fs == [] then []
    else Accepted(locals, fs[..|fs| - 1], key) + AcceptedFrame(locals, fs[|fs| - 1], key)
  }

  function AcceptedFrame(locals: set<byte>, f: Frame, key: Key): (ps: seq<Packet>)
    ensures |ps| <= 1
  {
    match Recv(f)
    case Error => []
    case Ok(p) => if Collected(locals, p) && KeyOf(p) == key then [p] else []
  }

  function ClosedBy(locals: set<byte>, st: State, f: Frame, key: Key): (cs: seq<Closing>)
    ensures |cs| <= 1 && forall c :: c in cs && c.Delivered? ==> c.fragments != []
  {
    match Recv(f)
    case Error => []
    case Ok(p) =>
      if !Collected(locals, p) then []
      else if Completes(st, p) && KeyOf(p) == key then [Delivered(st.live[key] + [p])]
      else if KeyOf(p) !in st.live && StaleKey(KeyOf(p)) == key && key in st.live then [Evicted(st.live[key])]
      else []
  }

  function Closings(locals: set<byte>, st: State, fs: seq<Frame>, key: Key): (cs: seq<Closing>)
    ensures forall c :: c in cs && c.Delivered? ==> c.fragments != []
  {
    if fs == [] then [] else
      var prefix := fs[..|fs| - 1];
      Closings(locals, st, prefix, key) + ClosedBy(locals, Receive(locals, st, prefix), fs[|fs| - 1], key)
  }

  function FragmentsIn(cs: seq<Closing>): seq<Packet> {
    if cs == [] then [] else FragmentsIn(cs[..|cs| - 1]) + cs[|cs| - 1].fragments
  }

  function AssembledFrom(cs: seq<Closing>): seq<Message>
    requires forall c :: c in cs && c.Delivered? ==> c.fragments != []
  {
    if cs == [] then [] else
      var last := cs[|cs| - 1];
      AssembledFrom(cs[..|cs| - 1]) + if last.Delivered? then [Assemble(last.fragments)] else []
  }

  /** The messages queued from one table key. */
  function QueuedFrom(queue: seq<Output>, key: Key): seq<Message> {
    if queue == [] then []
    else QueuedFrom(queue[..|queue| - 1], key) + QueuedAs(queue[|queue| - 1], key)
  }

  function QueuedAs(o: Output, key: Key): seq<Message> {
    if o.Assembled? && o.key == key then [o.msg] else []
  }

  lemma StepConserves(locals: set<byte>, st: State, f: Frame, key: Key)
    ensures Live(st, key) + AcceptedFrame(locals, f, key)
         == FragmentsIn(ClosedBy(locals, st, f, key)) + Live(StepFrame(locals, st, f), key)
  {
    hide Recv, Assemble;
    var cs := ClosedBy(locals, st, f, key);
    if cs != [] {
      assert cs[..0] == [];
    }
  }

  lemma FragmentsInAppend(cs: seq<Closing>, ds: seq<Closing>)
    requires |ds| <= 1
    ensures FragmentsIn(cs + ds) == FragmentsIn(cs) + FragmentsIn(ds)
  {
    if ds == [] {
      assert cs + ds == cs;
    } else {
      assert (cs + ds)[..|cs|] == cs && ds[..0] == [];
    }
  }

  /**
   Every collected fragment is accounted for once and in order: in a delivered batch, in an evicted
   batch, or still in the table.
   */
  lemma {:induction false} Conservation(locals: set<byte>, st: State, fs: seq<Frame>, key: Key)
    ensures Live(st, key) + Accepted(locals, fs, key)
         == FragmentsIn(Closings(locals, st, fs, key)) + Live(Receive(locals, st, fs), key)
  {
    if fs != [] {
      hide StepFrame, ClosedBy, AcceptedFrame, Live;
      var prefix, f := fs[..|fs| - 1], fs[|fs| - 1];
      var mid := Receive(locals, st, prefix);
      var before, added := Closings(locals, st, prefix, key), ClosedBy(locals, mid, f, key);
      Conservation(locals, st, prefix, key);
      StepConserves(locals, mid, f, key);
      FragmentsInAppend(before, added);
      Regroup(Live(st, key), Accepted(locals, prefix, key), AcceptedFrame(locals, f, key),
              FragmentsIn(before), Live(mid, key), FragmentsIn(added), Live(StepFrame(locals, mid, f), key));
    }
  }

  lemma Associate<T>(a: seq<T>, b: seq<T>, c: seq<T>)
    ensures (a + b) + c == a + (b + c)
  {}

  lemma Regroup<T>(a: seq<T>, b: seq<T>, c: seq<T>, d: seq<T>, e: seq<T>, f: seq<T>, g: seq<T>)
    requires a + b == d + e && e + c == f + g
    ensures a + (b + c) == (d + f) + g
  {
    assert a + (b + c) == (a + b) + c == (d + e) + c == d + (e + c) == d + (f + g) == (d + f) + g;
  }

  lemma StepQueues(locals: set<byte>, st: State, f: Frame, key: Key)
    ensures QueuedFrom(StepFrame(locals, st, f).queue, key)
         == QueuedFrom(st.queue, key) + AssembledFrom(ClosedBy(locals, st, f, key))
  {
    hide Recv, Assemble;
    var cs, next := ClosedBy(locals, st, f, key), StepFrame(locals, st, f).queue;
    if cs != [] {
      assert cs[..0] == [];
    }
    if next != st.queue {
      assert next[..|next| - 1] == st.queue;
    }
  }

  lemma AssembledFromAppend(cs: seq<Closing>, ds: seq<Closing>)
    requires |ds| <= 1
    requires forall c :: c in cs + ds && c.Delivered? ==> c.fragments != []
    ensures (forall c :: c in cs && c.Delivered? ==> c.fragments != []) && forall c :: c in ds && c.Delivered? ==>
              c.fragments != []
    ensures AssembledFrom(cs + ds) == AssembledFrom(cs) + AssembledFrom(ds)
  {
    hide Assemble;
    forall c | c in cs || c in ds ensures c in cs + ds {}
    if ds == [] {
      assert cs + ds == cs;
    } else {
      assert (cs + ds)[..|cs|] == cs && ds[..0] == [];
    }
  }

  /** What is queued from a table key is what its delivered batches assemble to, and nothing else. */
  lemma {:induction false} QueueIsDeliveries(locals: set<byte>, st: State, fs: seq<Frame>, key: Key)
    ensures QueuedFrom(Receive(locals, st, fs).queue, key)
         == QueuedFrom(st.queue, key) + AssembledFrom(Closings(locals, st, fs, key))
  {
    if fs == [] {
      assert QueuedFrom(st.queue, key) + [] == QueuedFrom(st.queue, key);
    } else {
      hide StepFrame, ClosedBy, Assemble, AssembledFrom, QueuedFrom;
      var prefix, f := fs[..|fs| - 1], fs[|fs| - 1];
      var mid := Receive(locals, st, prefix);
      var before, added := Closings(locals, st, prefix, key), ClosedBy(locals, mid, f, key);
      QueueIsDeliveries(locals, st, prefix, key);
      StepQueues(locals, mid, f, key);
      AssembledFromAppend(before, added);
      Associate(QueuedFrom(st.queue, key), AssembledFrom(before), AssembledFrom(added));
    }
  }

  // ----- Delivery -------------------------------------------------------------------------------------

  /** The frames that carry collected fragments for one table key. */
  function Own(locals: set<byte>, fs: seq<Frame>, key: Key): seq<Frame> {
    if fs == [] then [] else
      var f := fs[|fs| - 1];
      Own(locals, fs[..|fs| - 1], key) + if AcceptedFrame(locals, f, key) != [] then [f] else []
  }

  /** No frame on the way starts the entry whose start evicts the given key. */
  predicate NeverEvicted(locals: set<byte>, st: State, fs: seq<Frame>, key: Key) {
    forall i :: 0 <= i < |fs| ==> !Evicts(locals, Receive(locals, st, fs[..i]), fs[i], key)
  }

  predicate Evicts(locals: set<byte>, st: State, f: Frame, key: Key) {
    match Recv(f)
    case Error => false
    case Ok(p) => Collected(locals, p) && KeyOf(p) !in st.live && StaleKey(KeyOf(p)) == key
  }

  lemma {:induction false} OwnAccepted(locals: set<byte>, fs: seq<Frame>, key: Key)
    ensures |Own(locals, fs, key)| == |Accepted(locals, fs, key)|
    ensures forall i :: 0 <= i < |Own(locals, fs, key)| ==>
              Recv(Own(locals, fs, key)[i]) == Ok(Accepted(locals, fs, key)[i])
  {
    hide Recv;
    if fs != [] {
      OwnAccepted(locals, fs[..|fs| - 1], key);
    }
  }

  lemma GatherStep(locals: set<byte>, st: State, f: Frame, key: Key, got: seq<Packet>, n: nat)
    requires 2 <= n <= 255 && |got| <= n && !Evicts(locals, st, f, key)
    requires key in st.live <==> 0 < |got| < n
    requires Live(st, key) == if |got| < n then got else []
    requires forall p :: p in AcceptedFrame(locals, f, key) ==> |got| < n && p.sum == n - 1
    ensures var next, closed, all := StepFrame(locals, st, f), ClosedBy(locals, st, f, key),
            got + AcceptedFrame(locals, f, key);
            && (key in next.live <==> 0 < |all| < n)
            && Live(next, key) == (if |all| < n then all else [])
            && AssembledFrom(closed) == (if |got| < n && |all| == n then [Assemble(all)] else [])
  {
    hide Recv, Assemble;
    var closed := ClosedBy(locals, st, f, key);
    if closed != [] {
      assert closed[..0] == [];
    }
  }

  /** While fragments of one message of n come in undisturbed, they gather; the n-th one closes the entry. */
  lemma {:induction false} Gathering(locals: set<byte>, st: State, fs: seq<Frame>, key: Key, n: nat)
    requires 2 <= n <= 255 && key !in st.live
    requires forall p :: p in Accepted(locals, fs, key) ==> p.sum == n - 1
    requires |Accepted(locals, fs, key)| <= n
    requires NeverEvicted(locals, st, fs, key)
    ensures var end, got := Receive(locals, st, fs), Accepted(locals, fs, key);
            && (key in end.live <==> 0 < |got| < n)
            && Live(end, key) == (if |got| < n then got else [])
            && QueuedFrom(end.queue, key) == QueuedFrom(st.queue, key) + (if |got| < n then [] else [Assemble(got)])
  {
    hide Recv, Assemble, StepFrame, ClosedBy, Evicts, AcceptedFrame, QueuedFrom, AssembledFrom;
    ghost var before := QueuedFrom(st.queue, key);
    assert before + [] == before;
    if fs != [] {
      var prefix, f := fs[..|fs| - 1], fs[|fs| - 1];
      var mid := Receive(locals, st, prefix);
      forall i | 0 <= i < |prefix| ensures !Evicts(locals, Receive(locals, st, prefix[..i]), prefix[i], key) {
        assert prefix[..i] == fs[..i];
        assert !Evicts(locals, Receive(locals, st, fs[..i]), fs[i], key);
      }
      Gathering(locals, st, prefix, key, n);
      assert !Evicts(locals, mid, f, key);
      GatherStep(locals, mid, f, key, Accepted(locals, prefix, key), n);
      StepQueues(locals, mid, f, key);
      var had, all := Accepted(locals, prefix, key), Accepted(locals, fs, key);
      var added := AssembledFrom(ClosedBy(locals, mid, f, key));
      if |had| < n {
        assert before + [] + added == before + added;
      } else {
        assert all == had && before + [Assemble(had)] + added == before + [Assemble(had)];
      }
    }
  }

  lemma NormalizedSame(p: Packet)
    requires p.priority < 8 && p.sum > 0
    ensures Normalized(p) == p
  {}

  lemma OwnFragment(msg: Message, id: byte, i: nat)
    requires Fragmented(msg) && msg.priority < 8 && i < FragmentCount(|msg.data|)
    ensures Recv(WireImage(msg, id)[i]) == Ok(Fragment(msg, id, i))
  {
    hide *;
    ImageAt(msg, id);
    FragmentNumber(msg, id, i);
    var p := Fragment(msg, id, i);
    NormalizedSame(p);
    SendRecv(p);
  }

  /** Frames that are a rearrangement of a message's frames carry all its fragments, each once. */
  lemma Rearranged(locals: set<byte>, fs: seq<Frame>, msg: Message, id: byte)
    requires Fragmented(msg) && msg.priority < 8
    requires multiset(Own(locals, fs, (msg.srcId, id))) == multiset(WireImage(msg, id))
    ensures var got := Accepted(locals, fs, (msg.srcId, id));
            PartOf(got, msg, id) && Distinct(got) && |got| == FragmentCount(|msg.data|)
  {
    hide Recv, WireImage, Fragment;
    var key := (msg.srcId, id);
    var own, got, image := Own(locals, fs, key), Accepted(locals, fs, key), WireImage(msg, id);
    OwnAccepted(locals, fs, key);
    ImageAt(msg, id);
    assert |multiset(own)| == |own| && |multiset(image)| == |image|;
    forall i | 0 <= i < |got| ensures got[i].packetSN < FragmentCount(|msg.data|)
      && got[i] == Fragment(msg, id, got[i].packetSN) && own[i] == image[got[i].packetSN]
    {
      assert own[i] in multiset(image);
      var k :| 0 <= k < |image| && image[k] == own[i];
      OwnFragment(msg, id, k);
      FragmentNumber(msg, id, k);
    }
    ImageDistinct(msg, id);
    forall i, j | 0 <= i < j < |got| ensures got[i].packetSN != got[j].packetSN {
      if own[i] == own[j] {
        var k, l := RepeatedInBoth(own, image, i, j);
      }
    }
  }

  lemma ImageDistinct(msg: Message, id: byte)
    requires Fragmented(msg) && msg.priority < 8
    ensures forall k, l :: 0 <= k < l < |WireImage(msg, id)| ==> WireImage(msg, id)[k] != WireImage(msg, id)[l]
  {
    ImageAt(msg, id);
    hide Recv, WireImage, Fragment, Send;
    forall k, l | 0 <= k < l < |WireImage(msg, id)| ensures WireImage(msg, id)[k] != WireImage(msg, id)[l] {
      OwnFragment(msg, id, k);
      FragmentNumber(msg, id, k);
      OwnFragment(msg, id, l);
      FragmentNumber(msg, id, l);
    }
  }

  lemma FragmentNumber(msg: Message, id: byte, i: nat)
    requires Fragmented(msg) && i < FragmentCount(|msg.data|)
    ensures var p := Fragment(msg, id, i);
            p.packetSN == i && p.sum == FragmentCount(|msg.data|) - 1 > 0 && p.priority == msg.priority
            && p.sId == msg.srcId && KeyOf(p) == (msg.srcId, id) && p.dId == msg.dstId
  {}

  /**
   Delivery: if the frames of a message arrive in any order, each once, among any other traffic that
   neither reuses its (source, id) nor evicts it, exactly one message is queued for them and it is the
   original: same priority, source, destination and bytes.
   */
  lemma Delivery(locals: set<byte>, st: State, fs: seq<Frame>, msg: Message, id: byte)
    requires Fragmented(msg) && msg.priority < 8 && (msg.srcId, id) !in st.live
    requires multiset(Own(locals, fs, (msg.srcId, id))) == multiset(WireImage(msg, id))
    requires NeverEvicted(locals, st, fs, (msg.srcId, id))
    ensures var key, end := (msg.srcId, id), Receive(locals, st, fs);
            QueuedFrom(end.queue, key) == QueuedFrom(st.queue, key) + [msg] && key !in end.live
  {
    var key := (msg.srcId, id);
    var got := Accepted(locals, fs, key);
    Rearranged(locals, fs, msg, id);
    forall p | p in got ensures p.sum == FragmentCount(|msg.data|) - 1 {
      FragmentNumber(msg, id, p.packetSN);
    }
    Gathering(locals, st, fs, key, FragmentCount(|msg.data|));
    AssembleAll(got, msg, id);
  }

  // ----- Sources do not influence each other ----------------------------------------------------------

  function OutputSource(o: Output): byte {
    match o
    case Single(msg) => msg.srcId
    case Assembled(key, _) => key.0
  }

  function QueueOf(queue: seq<Output>, s: byte): seq<Output> {
    if queue == [] then [] else
      var last := queue[|queue| - 1];
      QueueOf(queue[..|queue| - 1], s) + if OutputSource(last) == s then [last] else []
  }

  /** What the receiver holds for one source. */
  function ViewOf(st: State, s: byte): State {
    State(map k | k in st.live && k.0 == s :: st.live[k], QueueOf(st.queue, s))
  }

  function FramesFrom(fs: seq<Frame>, s: byte): seq<Frame> {
    if fs == [] then [] else
      var f := fs[|fs| - 1];
      FramesFrom(fs[..|fs| - 1], s) + if Recv(f).Ok? && Recv(f).value.sId == s then [f] else []
  }

  lemma QueueOfAppend(queue: seq<Output>, o: Output, s: byte)
    ensures QueueOf(queue + [o], s) == QueueOf(queue, s) + if OutputSource(o) == s then [o] else []
  {
    assert (queue + [o])[..|queue|] == queue;
  }

  lemma StepView(locals: set<byte>, st: State, f: Frame, s: byte)
    ensures ViewOf(StepFrame(locals, st, f), s)
         == if Recv(f).Ok? && Recv(f).value.sId == s then StepFrame(locals, ViewOf(st, s), f) else ViewOf(st, s)
  {
    hide Recv, Assemble, QueueOf;
    var next := StepFrame(locals, st, f);
    if next.queue != st.queue {
      QueueOfAppend(st.queue, next.queue[|next.queue| - 1], s);
    }
  }

  /** The table entries and queued messages of a source depend on the frames of that source alone. */
  lemma {:induction false} SourcesIndependent(locals: set<byte>, st: State, fs: seq<Frame>, s: byte)
    ensures ViewOf(Receive(locals, st, fs), s) == Receive(locals, ViewOf(st, s), FramesFrom(fs, s))
  {
    hide Recv, StepFrame, ViewOf;
    if fs != [] {
      var prefix, f := fs[..|fs| - 1], fs[|fs| - 1];
      SourcesIndependent(locals, st, prefix, s);
      StepView(locals, Receive(locals, st, prefix), f, s);
      var own := FramesFrom(prefix, s);
      assert (own + [f])[..|own|] == own;
      assert own + [] == own;
    }
  }
}
