/**
 The receiving half of the CAN transport. The specification keeps one table from (source, message id)
 to the fragments collected so far; the class below does the same on the code's nested maps.
 */
module Reassembly {
  import opened Bytes
  import opened FlexCan
  import opened Fragmentation

  const TIME_OUT_ID := 127

  type Key = (byte, byte)

  /** A queued message with the table entry it was assembled from, if any. */
  datatype Output = Single(msg: Message) | Assembled(key: Key, msg: Message)

  datatype State = State(live: map<Key, seq<Packet>>, queue: seq<Output>)

  const EMPTY := State(map[], [])

  // ----- Assembly -----------------------------------------------------------------------------------

  function Insert(p: Packet, sorted: seq<Packet>): (r: seq<Packet>)
    ensures |r| == |sorted| + 1
  {
    if sorted == [] || p.packetSN < sorted[0].packetSN then [p] + sorted
    else [sorted[0]] + Insert(p, sorted[1..])
  }

  /** The fragments in the order of their serial numbers. */
  function SortBySN(ps: seq<Packet>): (r: seq<Packet>)
    ensures |r| == |ps|
  {
    if ps == [] then [] else Insert(ps[|ps| - 1], SortBySN(ps[..|ps| - 1]))
  }

  /** The message made of the given fragments; its header is that of the first one. */
  function Assemble(ps: seq<Packet>): Message
    requires ps != []
  {
    var sorted := SortBySN(ps);
    Message(sorted[0].priority, sorted[0].sId, sorted[0].dId, Joined(sorted))
  }

  // ----- One step -----------------------------------------------------------------------------------

  function KeyOf(p: Packet): Key { (p.sId, p.packetId) }

  /** The entry that starting key k throws away: the id 127 ahead, that is 129 behind. */
  function StaleKey(k: Key): Key { (k.0, (k.1 + TIME_OUT_ID) % 256) }

  /** Whether a packet is a fragment this device collects. */
  predicate Collected(locals: set<byte>, p: Packet) { p.dId in locals && p.sum != 0 }

  predicate Completes(st: State, p: Packet) {
    KeyOf(p) in st.live && p.sum + 1 <= (|st.live[KeyOf(p)]| + 1) % 256
  }

  function Step(locals: set<byte>, st: State, p: Packet): State {
    var k := KeyOf(p);
    if p.dId !in locals then st
    else if p.sum == 0 then st.(queue := st.queue + [Single(Message(p.priority, p.sId, p.dId, p.data))])
    else if Completes(st, p) then State(st.live - {k}, st.queue + [Assembled(k, Assemble(st.live[k] + [p]))])
    else if k in st.live then st.(live := st.live[k := st.live[k] + [p]])
    else st.(live := (st.live - {StaleKey(k)})[k := [p]])
  }

  function StepFrame(locals: set<byte>, st: State, f: Frame): State {
    match Recv(f)
    case Error => st
    case Ok(p) => Step(locals, st, p)
  }

  /** The state after receiving frames one after the other. */
  function Receive(locals: set<byte>, st: State, fs: seq<Frame>): State {
    if fs == [] then st
    else StepFrame(locals, Receive(locals, st, fs[..|fs| - 1]), fs[|fs| - 1])
  }

  // ----- What every reachable state satisfies --------------------------------------------------------

  /** A table entry: at least one fragment, but not yet all, of one message. */
  predicate GoodEntry(k: Key, ps: seq<Packet>) {
    1 <= |ps| <= ps[0].sum < 255
    && forall p :: p in ps ==> KeyOf(p) == k && p.sum == ps[0].sum && |p.data| <= CAN_SUB_PACKET_SIZE
  }

  predicate Good(st: State) {
    forall k :: k in st.live ==> GoodEntry(k, st.live[k])
  }

  /** What the receiver relies on: counts below 255, and one count per message being collected. */
  predicate Consistent(locals: set<byte>, st: State, f: Frame) {
    Recv(f).Ok? && Collected(locals, Recv(f).value) ==>
      var p := Recv(f).value;
      p.sum < 255 && (KeyOf(p) in st.live && st.live[KeyOf(p)] != [] ==> st.live[KeyOf(p)][0].sum == p.sum)
  }

  lemma RecvSize(f: Frame)
    requires Recv(f).Ok? && Recv(f).value.sum != 0
    ensures |Recv(f).value.data| <= CAN_SUB_PACKET_SIZE
  {}

  lemma StepKeepsGood(locals: set<byte>, st: State, f: Frame)
    requires Good(st) && Consistent(locals, st, f)
    ensures Good(StepFrame(locals, st, f))
  {
    if Recv(f).Ok? && Collected(locals, Recv(f).value) {
      RecvSize(f);
      hide Recv;
      var p := Recv(f).value;
      var k := KeyOf(p);
      if k in st.live {
        assert GoodEntry(k, st.live[k]);
        assert !Completes(st, p) ==> GoodEntry(k, st.live[k] + [p]);
      } else {
        assert GoodEntry(k, [p]);
      }
    }
  }

  /** Every frame of a run meets the receiver's assumption in the state it arrives in. */
  predicate ConsistentRun(locals: set<byte>, fs: seq<Frame>) {
    forall i :: 0 <= i < |fs| ==> Consistent(locals, Receive(locals, EMPTY, fs[..i]), fs[i])
  }

  /** Every reachable state is good. */
  lemma {:induction false} ReachableGood(locals: set<byte>, fs: seq<Frame>)
    requires ConsistentRun(locals, fs)
    ensures Good(Receive(locals, EMPTY, fs))
  {
    if fs != [] {
      var n := |fs| - 1;
      assert ConsistentRun(locals, fs[..n]) by {
        forall i | 0 <= i < n ensures Consistent(locals, Receive(locals, EMPTY, fs[..n][..i]), fs[..n][i]) {
          assert fs[..n][..i] == fs[..i];
        }
      }
      ReachableGood(locals, fs[..n]);
      StepKeepsGood(locals, Receive(locals, EMPTY, fs[..n]), fs[n]);
    }
  }

  lemma {:induction false} InsertElements(p: Packet, sorted: seq<Packet>)
    ensures multiset(Insert(p, sorted)) == multiset(sorted) + multiset{p}
  {
    if sorted == [] || p.packetSN < sorted[0].packetSN {
    } else {
      InsertElements(p, sorted[1..]);
      assert sorted == [sorted[0]] + sorted[1..];
    }
  }

  /** Sorting neither loses nor invents a fragment. */
  lemma {:induction false} SortElements(ps: seq<Packet>)
    ensures multiset(SortBySN(ps)) == multiset(ps)
  {
    if ps != [] {
      SortElements(ps[..|ps| - 1]);
      InsertElements(ps[|ps| - 1], SortBySN(ps[..|ps| - 1]));
      assert ps == ps[..|ps| - 1] + [ps[|ps| - 1]];
    }
  }

  lemma {:induction false} JoinedSize(ps: seq<Packet>)
    requires forall p :: p in ps ==> |p.data| <= CAN_SUB_PACKET_SIZE
    ensures |Joined(ps)| <= CAN_SUB_PACKET_SIZE * |ps|
  {
    if ps != [] {
      JoinedSize(ps[..|ps| - 1]);
    }
  }

  lemma SortedSizes(ps: seq<Packet>)
    requires forall p :: p in ps ==> |p.data| <= CAN_SUB_PACKET_SIZE
    ensures forall p :: p in SortBySN(ps) ==> |p.data| <= CAN_SUB_PACKET_SIZE
  {
    SortElements(ps);
    forall p | p in SortBySN(ps) ensures |p.data| <= CAN_SUB_PACKET_SIZE {
      assert p in multiset(ps);
    }
  }

  /** A message is only ever assembled from all of its fragments, and they fit the 1536-byte buffer. */
  lemma AssemblyFits(locals: set<byte>, st: State, f: Frame)
    requires Good(st) && Consistent(locals, st, f) && Recv(f).Ok? && Collected(locals, Recv(f).value)
    requires KeyOf(Recv(f).value) in st.live
    ensures var p := Recv(f).value; var all := st.live[KeyOf(p)] + [p];
            |all| < 256 && (forall q :: q in all ==> |q.data| <= CAN_SUB_PACKET_SIZE)
            && (Completes(st, p) <==> |all| == p.sum + 1)
            && |Assemble(all).data| <= CAN_DATA_TOTAL_SIZE
  {
    RecvSize(f);
    hide Recv;
    var p := Recv(f).value;
    var k := KeyOf(p);
    assert GoodEntry(k, st.live[k]);
    SortedSizes(st.live[k] + [p]);
    JoinedSize(SortBySN(st.live[k] + [p]));
  }

  /** Whatever a packet completes fits the assembly buffer; beyond it the code writes outside. */
  predicate StepFits(st: State, p: Packet) {
    p.sum != 0 && Completes(st, p) ==> |Joined(SortBySN(st.live[KeyOf(p)] + [p]))| <= CAN_DATA_TOTAL_SIZE
  }

  /** In every reachable state of a consistent run it does. */
  lemma ReachableFits(locals: set<byte>, fs: seq<Frame>, f: Frame)
    requires ConsistentRun(locals, fs) && Consistent(locals, Receive(locals, EMPTY, fs), f)
    requires Recv(f).Ok? && Recv(f).value.dId in locals
    ensures StepFits(Receive(locals, EMPTY, fs), Recv(f).value)
  {
    var st, p := Receive(locals, EMPTY, fs), Recv(f).value;
    ReachableGood(locals, fs);
    hide Recv, Receive, Joined, SortBySN;
    if p.sum != 0 && KeyOf(p) in st.live {
      AssemblyFits(locals, st, f);
    }
  }

  lemma JoinedGrows(ps: seq<Packet>, i: nat)
    requires i < |ps|
    ensures Joined(ps[..i + 1]) == Joined(ps[..i]) + ps[i].data
    ensures |Joined(ps[..i + 1])| <= |Joined(ps)|
  {
    assert ps[..i + 1][..i] == ps[..i];
    JoinedPrefix(ps, i + 1);
  }

  lemma {:induction false} JoinedPrefix(ps: seq<Packet>, n: nat)
    requires n <= |ps|
    ensures |Joined(ps[..n])| <= |Joined(ps)|
  {
    if n == |ps| {
      assert ps[..n] == ps;
    } else {
      JoinedPrefix(ps[..|ps| - 1], n);
      assert ps[..|ps| - 1][..n] == ps[..n];
    }
  }

  // ----- The code -----------------------------------------------------------------------------------

  function Messages(outputs: seq<Output>): (ms: seq<Message>)
    ensures |ms| == |outputs|
    ensures forall i :: 0 <= i < |outputs| ==> ms[i] == outputs[i].msg
  {
    if outputs == [] then [] else Messages(outputs[..|outputs| - 1]) + [outputs[|outputs| - 1].msg]
  }

  type Nested = map<byte, map<byte, seq<Packet>>>

  /** The code's maps of maps as one table. */
  function Flatten(m: Nested): map<Key, seq<Packet>> {
    map s, k | s in m && k in m[s] :: (s, k) := m[s][k]
  }

  lemma FlattenLookup(m: Nested, key: Key)
    ensures key in Flatten(m) <==> key.0 in m && key.1 in m[key.0]
    ensures key in Flatten(m) ==> Flatten(m)[key] == m[key.0][key.1]
  {}

  lemma FlattenRemove(m: Nested, s: byte, k: byte)
    requires s in m
    ensures Flatten(m[s := m[s] - {k}]) == Flatten(m) - {(s, k)}
  {
    hide Flatten;
    var n := m[s := m[s] - {k}];
    var after, expected := Flatten(n), Flatten(m) - {(s, k)};
    forall key: Key ensures key in after <==> key in expected
      ensures key in after ==> after[key] == expected[key]
    {
      FlattenLookup(m, key);
      FlattenLookup(n, key);
    }
  }

  lemma FlattenStore(m: Nested, s: byte, entries: map<byte, seq<Packet>>, k: byte, packets: seq<Packet>)
    requires if s in m then entries == m[s][k := packets] else entries == map[k := packets]
    ensures Flatten(m[s := entries]) == Flatten(m)[(s, k) := packets]
  {
    hide Flatten;
    var n := m[s := entries];
    var after, expected := Flatten(n), Flatten(m)[(s, k) := packets];
    forall key: Key ensures key in after <==> key in expected
      ensures key in after ==> after[key] == expected[key]
    {
      FlattenLookup(m, key);
      FlattenLookup(n, key);
    }
  }

  /** What a fragment does, by the three branches of the code. */
  lemma FragmentStep(locals: set<byte>, table: map<Key, seq<Packet>>, p: Packet)
    requires Collected(locals, p)
    ensures KeyOf(p) == (p.sId, p.packetId)
    ensures var k := (p.sId, p.packetId);
            var next := Step(locals, State(table, []), p);
            var queued := Messages(next.queue);
            if k !in table then next.live == (table - {StaleKey(k)})[k := [p]] && queued == []
            else if p.sum + 1 <= (|table[k]| + 1) % 256 then
              next.live == table - {k} && queued == [Assemble(table[k] + [p])]
            else next.live == table[k := table[k] + [p]] && queued == []
  {}

  lemma AddStep(locals: set<byte>, m: Nested, p: Packet, packets: seq<Packet>)
    requires Collected(locals, p) && p.sId in m && p.packetId in m[p.sId] && packets == m[p.sId][p.packetId] + [p]
    requires StepFits(State(Flatten(m), []), p)
    ensures var k := (p.sId, p.packetId); var next := Step(locals, State(Flatten(m), []), p);
            if p.sum + 1 <= |packets| % 256 then
              next.live == Flatten(m) - {k} && Messages(next.queue) == [Assemble(packets)]
                  && |Joined(SortBySN(packets))| <= CAN_DATA_TOTAL_SIZE
            else next.live == Flatten(m)[k := packets] && Messages(next.queue) == []
  {
    EntryAt(m, p);
    FragmentStep(locals, Flatten(m), p);
    hide Flatten, Step, Assemble, Joined, SortBySN, Messages;
  }

  lemma StartStep(locals: set<byte>, m: Nested, p: Packet)
    requires Collected(locals, p) && !(p.sId in m && p.packetId in m[p.sId])
    ensures var next := Step(locals, State(Flatten(m), []), p);
            next.live == (Flatten(m) - {StaleKey((p.sId, p.packetId))})[(p.sId, p.packetId) := [p]]
                && Messages(next.queue) == []
  {
    EntryAt(m, p);
    FragmentStep(locals, Flatten(m), p);
    hide *;
  }

  /** The entry of a fragment in the maps of maps and in the flat table. */
  lemma EntryAt(m: Nested, p: Packet)
    ensures var k := (p.sId, p.packetId);
            && (k in Flatten(m) <==> p.sId in m && p.packetId in m[p.sId])
            && (k in Flatten(m) ==> Flatten(m)[k] == m[p.sId][p.packetId])
  {
    FlattenLookup(m, (p.sId, p.packetId));
  }

  lemma SingleStep(locals: set<byte>, table: map<Key, seq<Packet>>, p: Packet)
    requires p.dId in locals
    ensures p.sum != 0 <==> Collected(locals, p)
    ensures var next, msg := Step(locals, State(table, []), p), Message(p.priority, p.sId, p.dId, p.data);
            p.sum == 0 ==> next.live == table && Messages(next.queue) == [msg]
  {}

  class Receiver {
    const locals: set<byte>
    var incomplete: map<byte, map<byte, seq<Packet>>>
    var recvList: seq<Message>

    constructor (sysctrlId: byte, upgradeId: byte)
      ensures locals == {sysctrlId, upgradeId}
      ensures Table() == EMPTY.live && recvList == []
    {
      locals := {sysctrlId, upgradeId};
      incomplete, recvList := map[], [];
    }

    ghost function Table(): map<Key, seq<Packet>>
      reads this
    {
      Flatten(incomplete)
    }

    /** Joins sorted fragments; the caller sees to it that they fit the buffer. */
    method GetCanPacket(packets: seq<Packet>) returns (msg: Message)
      requires packets != [] && |Joined(SortBySN(packets))| <= CAN_DATA_TOTAL_SIZE
      ensures msg == Assemble(packets)
    {
      var sorted := SortBySN(packets);
      var data := [];
      for i := 0 to |sorted|
        invariant data == Joined(sorted[..i])
      {
        JoinedGrows(sorted, i);
        assert |data| + |sorted[i].data| <= CAN_DATA_TOTAL_SIZE; // the copy stays inside the buffer
        data := data + sorted[i].data;
      }
      assert sorted[..|sorted|] == sorted;
      msg := Message(sorted[0].priority, sorted[0].sId, sorted[0].dId, data);
    }

    method RemovePacketId(s: byte, k: byte)
      requires s in incomplete && k in incomplete[s]
      modifies this`incomplete
      ensures Table() == old(Table()) - {(s, k)}
      ensures incomplete == old(incomplete)[s := old(incomplete)[s] - {k}]
    {
      hide Flatten;
      FlattenRemove(incomplete, s, k);
      incomplete := incomplete[s := incomplete[s] - {k}];
    }

    method Store(s: byte, k: byte, packets: seq<Packet>)
      modifies this`incomplete
      ensures Table() == old(Table())[(s, k) := packets]
    {
      hide Flatten;
      var entries: map<byte, seq<Packet>> := map[];
      if s in incomplete {
        entries := incomplete[s];
      }
      entries := entries[k := packets];
      FlattenStore(incomplete, s, entries, k, packets);
      incomplete := incomplete[s := entries];
    }

    /** The map of maps takes the step of the flat table, wherever that step keeps inside the assembly buffer. */
    method RecvFromCan(f: Frame) returns (ok: bool)
      requires Recv(f).Ok? ==> StepFits(State(Table(), []), Recv(f).value)
      modifies this
      ensures ok == (Recv(f).Ok? && Recv(f).value.dId in locals)
      ensures var next := StepFrame(locals, State(old(Table()), []), f);
              Table() == next.live && recvList == old(recvList) + Messages(next.queue)
    {
      var r := Recv(f);
      ok := r.Ok? && r.value.dId in locals;
      if ok {
        hide *;
        RecvPacket(r.value);
      }
    }

    method RecvPacket(p: Packet)
      requires p.dId in locals && StepFits(State(Table(), []), p)
      modifies this
      ensures var next := Step(locals, State(old(Table()), []), p);
              Table() == next.live && recvList == old(recvList) + Messages(next.queue)
    {
      SingleStep(locals, Table(), p);
      hide *;
      if p.sum != 0 {
        RecvFragment(p);
      } else {
        recvList := recvList + [Message(p.priority, p.sId, p.dId, p.data)];
      }
    }

    method RecvFragment(p: Packet)
      requires Collected(locals, p) && StepFits(State(Table(), []), p)
      modifies this
      ensures var next := Step(locals, State(old(Table()), []), p);
              Table() == next.live && recvList == old(recvList) + Messages(next.queue)
    {
      if p.sId in incomplete && p.packetId in incomplete[p.sId] {
        AddFragment(p);
      } else {
        StartEntry(p);
      }
    }

    /** A fragment of an entry that is there: it completes the entry or is added to it. */
    method AddFragment(p: Packet)
      requires Collected(locals, p) && StepFits(State(Table(), []), p)
      requires p.sId in incomplete && p.packetId in incomplete[p.sId]
      modifies this
      ensures var next := Step(locals, State(old(Table()), []), p);
              Table() == next.live && recvList == old(recvList) + Messages(next.queue)
    {
      var packets := incomplete[p.sId][p.packetId] + [p];
      AddStep(locals, incomplete, p, packets);
      assert Table() == Flatten(incomplete);
      hide *;
      assert old(recvList) + [] == old(recvList);
      if p.sum + 1 <= |packets| % 256 {
        var msg := GetCanPacket(packets);
        RemovePacketId(p.sId, p.packetId);
        recvList := recvList + [msg];
      } else {
        Store(p.sId, p.packetId, packets);
      }
    }

    /** The first fragment under an id: the entry that is 129 ids behind is thrown away. */
    method StartEntry(p: Packet)
      requires Collected(locals, p) && !(p.sId in incomplete && p.packetId in incomplete[p.sId])
      modifies this
      ensures var next := Step(locals, State(old(Table()), []), p);
              Table() == next.live && recvList == old(recvList) + Messages(next.queue)
    {
      assert Table() == Flatten(incomplete);
      hide *;
      EntryAt(incomplete, p);
      StartStep(locals, incomplete, p);
      assert old(recvList) + [] == old(recvList);
      EvictStale(p);
      Store(p.sId, p.packetId, [p]);
    }

    method EvictStale(p: Packet)
      modifies this`incomplete
      ensures Table() == old(Table()) - {StaleKey((p.sId, p.packetId))}
    {
      FlattenLookup(incomplete, StaleKey((p.sId, p.packetId)));
      hide Flatten;
      if p.sId in incomplete {
        var oldPacketId := (p.packetId + TIME_OUT_ID) % 256;
        if oldPacketId in incomplete[p.sId] {
          RemovePacketId(p.sId, oldPacketId);
          return;
        }
      }
      assert Table() - {StaleKey((p.sId, p.packetId))} == Table();
    }

    /**
     Takes messages off the queue, at most one per poll, until one has the expected source and type; the ones
     before it are dropped. `arrivals` is what the receiving thread queues before each poll, `used` the number of
     polls made. A queued message has at least the type byte the code looks at.
     */
    method ReadCANData(expSrc: byte, expType: byte, len: nat, arrivals: seq<seq<Message>>)
      returns (ret: int, pdata: seq<byte>, used: nat)
      requires NonEmpty(recvList) && NonEmpty(AllQueued(arrivals))
      modifies this`recvList
      ensures used <= |arrivals|
      ensures var all := old(recvList) + AllQueued(arrivals[..used]);
              var first, taken := FirstMatch(all, expSrc, expType), Taken(|old(recvList)|, arrivals[..used]);
              && taken <= |all| && recvList == all[taken..]
              && (ret != -1 ==> first + 1 == taken && ret == |all[first].data|
                                && pdata == all[first].data[..if len < ret then len else ret])
              && (ret == -1 ==> used == |arrivals| && taken <= first && pdata == [])
    {
      ghost var before, all := recvList, recvList;
      ghost var taken := 0;
      ret, pdata, used := -1, [], 0;
      assert arrivals[..0] == [] && before + [] == before;
      while used < |arrivals|
        invariant used <= |arrivals| && all == before + AllQueued(arrivals[..used])
                  && taken == Taken(|before|, arrivals[..used])
        invariant taken <= |all| && recvList == all[taken..] && NoMatch(all, taken, expSrc, expType)
        invariant NonEmpty(all) && ret == -1 && pdata == []
      {
        NextPoll(before, arrivals, used);
        NoMatchGrows(all, arrivals[used], taken, expSrc, expType);
        hide AllQueued, Taken, NoMatch, Matches, FirstMatch;
        all, recvList := all + arrivals[used], recvList + arrivals[used];
        used := used + 1;
        if recvList != [] {
          var packet := recvList[0];
          recvList := recvList[1..];
          NextMatch(all, taken, expSrc, expType);
          taken := taken + 1;
          if packet.srcId == expSrc && packet.data[0] == expType {
            ret := |packet.data|;
            pdata := packet.data[..if len < ret then len else ret];
            return;
          }
        }
      }
      assert arrivals[..used] == arrivals;
      NoneBefore(all, taken, expSrc, expType);
    }
  }

  predicate NonEmpty(q: seq<Message>) { forall m :: m in q ==> m.data != [] }

  /** Everything that is queued before some polls. */
  function AllQueued(arrivals: seq<seq<Message>>): seq<Message> {
    if arrivals == [] then [] else AllQueued(arrivals[..|arrivals| - 1]) + arrivals[|arrivals| - 1]
  }

  /** How many messages some polls take: one each, unless the queue is empty. */
  function Taken(waiting: nat, arrivals: seq<seq<Message>>): nat {
    if arrivals == [] then 0 else
      var before := Taken(waiting, arrivals[..|arrivals| - 1]);
      if before < waiting + |AllQueued(arrivals)| then before + 1 else before
  }

  predicate Matches(m: Message, src: byte, typ: byte) { m.srcId == src && m.data != [] && m.data[0] == typ }

  predicate NoMatch(q: seq<Message>, n: nat, src: byte, typ: byte) {
    n <= |q| && forall j :: 0 <= j < n ==> !Matches(q[j], src, typ)
  }

  /** The first message of the source with the type; the length of the queue if there is none. */
  function FirstMatch(q: seq<Message>, src: byte, typ: byte): (i: nat)
    ensures i <= |q| && (i < |q| ==> q[i].srcId == src && q[i].data != [] && q[i].data[0] == typ)
    ensures forall j :: 0 <= j < i ==> q[j].srcId != src || q[j].data == [] || q[j].data[0] != typ
  {
    if q == [] || Matches(q[0], src, typ) then 0 else 1 + FirstMatch(q[1..], src, typ)
  }

  lemma NextPoll(before: seq<Message>, arrivals: seq<seq<Message>>, used: nat)
    requires used < |arrivals| && NonEmpty(AllQueued(arrivals))
    ensures var next := AllQueued(arrivals[..used]) + arrivals[used];
            && AllQueued(arrivals[..used + 1]) == next
            && before + AllQueued(arrivals[..used]) + arrivals[used] == before + next
    ensures var taken := Taken(|before|, arrivals[..used]);
            Taken(|before|, arrivals[..used + 1])
              == if taken < |before| + |AllQueued(arrivals[..used + 1])| then taken + 1 else taken
    ensures NonEmpty(arrivals[used])
  {
    assert arrivals[..used + 1][..used] == arrivals[..used];
    QueuedPart(arrivals, used);
  }

  lemma {:induction false} QueuedPart(arrivals: seq<seq<Message>>, i: nat)
    requires i < |arrivals|
    ensures forall m :: m in arrivals[i] ==> m in AllQueued(arrivals)
  {
    if i < |arrivals| - 1 {
      QueuedPart(arrivals[..|arrivals| - 1], i);
    }
  }

  /** The next message is the first match, or there is none up to it. */
  lemma NextMatch(q: seq<Message>, i: nat, src: byte, typ: byte)
    requires i < |q| && NoMatch(q, i, src, typ) && q[i].data != []
    ensures if q[i].srcId == src && q[i].data[0] == typ then FirstMatch(q, src, typ) == i
            else NoMatch(q, i + 1, src, typ)
  {}

  lemma NoMatchGrows(q: seq<Message>, more: seq<Message>, n: nat, src: byte, typ: byte)
    requires NoMatch(q, n, src, typ) && NonEmpty(q) && NonEmpty(more)
    ensures NoMatch(q + more, n, src, typ) && NonEmpty(q + more) && (q + more)[n..] == q[n..] + more
  {}

  lemma NoneBefore(q: seq<Message>, n: nat, src: byte, typ: byte)
    requires NoMatch(q, n, src, typ)
    ensures n <= FirstMatch(q, src, typ)
  {}
}
