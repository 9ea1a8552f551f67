/**
 Runs of the network: what several sources sent, what of it arrives, and which message every entry of the
 receiver's table was started by. As long as no fragment is added to another message's entry, everything that is
 assembled was sent.
 */
module Runs {
  import opened Bytes
  import opened FlexCan
  import opened Fragmentation
  import opened Options
  import opened Reassembly
  import opened Transport

  /**
   The multi-frame messages a source sent, in order; the n-th carries the id start + n, modulo 256. Messages to other
   devices take their ids from the same counter: `None` stands for one of them.
   */
  datatype Source = Source(start: byte, messages: seq<Option<Message>>)

  type History = map<byte, Source>

  /** What arrives: fragment sn of message n of a source, or a frame that is no fragment for this device. */
  datatype Event = Part(src: byte, n: nat, sn: nat) | Other(f: Frame)

  predicate GoodHistory(hist: History, locals: set<byte>) {
    forall s, n: nat :: s in hist && n < |hist[s].messages| && hist[s].messages[n].Some? ==>
      GoodMessage(hist[s].messages[n].value, s, locals)
  }

  predicate GoodMessage(msg: Message, s: byte, locals: set<byte>) {
    Fragmented(msg) && msg.srcId == s && msg.dstId in locals && msg.priority < 8
  }

  predicate Numbered(hist: History, s: byte, n: nat) { s in hist && n < |hist[s].messages| }

  /** A message to this device. */
  predicate WasSent(hist: History, s: byte, n: nat) { Numbered(hist, s, n) && hist[s].messages[n].Some? }

  function IdOf(hist: History, s: byte, n: nat): byte
    requires Numbered(hist, s, n)
  {
    (hist[s].start + n) % 256
  }

  function MessageOf(hist: History, s: byte, n: nat): Message
    requires WasSent(hist, s, n)
  {
    hist[s].messages[n].value
  }

  predicate Sent(hist: History, e: Event) {
    e.Part? ==> WasSent(hist, e.src, e.n) && Fragmented(MessageOf(hist, e.src, e.n))
                && e.sn < FragmentCount(|MessageOf(hist, e.src, e.n).data|)
  }

  function FrameOf(hist: History, e: Event): Frame
    requires Sent(hist, e)
  {
    match e
    case Part(s, n, sn) =>
      ImageAt(MessageOf(hist, s, n), IdOf(hist, s, n));
      WireImage(MessageOf(hist, s, n), IdOf(hist, s, n))[sn]
    case Other(f) => f
  }

  /** Any fragment may be lost or delayed, but none comes twice; other frames carry no fragments for this device. */
  predicate Possible(hist: History, locals: set<byte>, es: seq<Event>, e: Event) {
    match e
    case Part(_, _, _) => Sent(hist, e) && e !in es
    case Other(f) => Recv(f).Ok? ==> !Collected(locals, Recv(f).value)
  }

  predicate Run(hist: History, locals: set<byte>, es: seq<Event>)
    ensures Run(hist, locals, es) ==> forall e :: e in es ==> Sent(hist, e)
  {
    es == [] || (Run(hist, locals, es[..|es| - 1]) && Possible(hist, locals, es[..|es| - 1], es[|es| - 1]))
  }

  function Arrivals(hist: History, es: seq<Event>): seq<Frame>
    requires forall e :: e in es ==> Sent(hist, e)
  {
    if es == [] then [] else Arrivals(hist, es[..|es| - 1]) + [FrameOf(hist, es[|es| - 1])]
  }

  // ----- The receiver with names on its entries ---------------------------------------------------------

  /**
   A receiver state; for every entry the number of the message whose fragment started it; and for every queued
   message, if it was assembled, the message whose fragment completed it.
   */
  datatype Named = Named(st: State, owner: map<Key, nat>, log: seq<(byte, nat)>)

  const NOTHING_YET := Named(EMPTY, map[], [])

  function KeyFor(hist: History, e: Event): Key
    requires e.Part? && Sent(hist, e)
  {
    (e.src, IdOf(hist, e.src, e.n))
  }

  function PacketFor(hist: History, e: Event): Packet
    requires e.Part? && Sent(hist, e)
  {
    Fragment(MessageOf(hist, e.src, e.n), IdOf(hist, e.src, e.n), e.sn)
  }

  function NamedStep(hist: History, locals: set<byte>, t: Named, e: Event): Named
    requires Sent(hist, e)
  {
    match e
    case Other(f) =>
      var next := StepFrame(locals, t.st, f);
      Named(next, t.owner, if |next.queue| > |t.st.queue| then t.log + [(0, 0)] else t.log)
    case Part(s, n, sn) =>
      var key, p := KeyFor(hist, e), PacketFor(hist, e);
      var next := Step(locals, t.st, p);
      if key !in t.st.live then Named(next, (t.owner - {StaleKey(key)})[key := n], t.log)
      else if Completes(t.st, p) then Named(next, t.owner - {key}, t.log + [(s, n)])
      else Named(next, t.owner, t.log)
  }

  function Follow(hist: History, locals: set<byte>, es: seq<Event>): Named
    requires forall e :: e in es ==> Sent(hist, e)
  {
    if es == [] then NOTHING_YET else NamedStep(hist, locals, Follow(hist, locals, es[..|es| - 1]), es[|es| - 1])
  }

  /** The names are only names: the state is what the receiver makes of the frames. */
  lemma {:induction false} FollowIsReceive(hist: History, locals: set<byte>, es: seq<Event>)
    requires GoodHistory(hist, locals) && Run(hist, locals, es)
    ensures Follow(hist, locals, es).st == Receive(locals, EMPTY, Arrivals(hist, es))
  {
    if es != [] {
      var prefix, e := es[..|es| - 1], es[|es| - 1];
      FollowIsReceive(hist, locals, prefix);
      FrameStep(hist, locals, Follow(hist, locals, prefix), e);
      var fs := Arrivals(hist, es);
      assert fs[..|fs| - 1] == Arrivals(hist, prefix) && fs[|fs| - 1] == FrameOf(hist, e);
      hide StepFrame, FrameOf, NamedStep;
    }
  }

  lemma FrameStep(hist: History, locals: set<byte>, t: Named, e: Event)
    requires GoodHistory(hist, locals) && Sent(hist, e)
    ensures NamedStep(hist, locals, t, e).st == StepFrame(locals, t.st, FrameOf(hist, e))
  {
    if e.Part? {
      OwnFragment(MessageOf(hist, e.src, e.n), IdOf(hist, e.src, e.n), e.sn);
      hide Recv, Step, Fragment, WireImage;
    }
  }

  // ----- Mixing -------------------------------------------------------------------------------------------

  /** A fragment is added to an entry that another message started. */
  predicate Mixes(hist: History, t: Named, e: Event)
    requires Sent(hist, e)
  {
    e.Part? && KeyFor(hist, e) in t.owner && t.owner[KeyFor(hist, e)] != e.n
  }

  predicate NeverMixes(hist: History, locals: set<byte>, es: seq<Event>)
    requires forall e :: e in es ==> Sent(hist, e)
  {
    es == [] || (NeverMixes(hist, locals, es[..|es| - 1])
                 && !Mixes(hist, Follow(hist, locals, es[..|es| - 1]), es[|es| - 1]))
  }

  predicate AllArrived(hist: History, es: seq<Event>, s: byte, n: nat) {
    WasSent(hist, s, n) && forall sn :: 0 <= sn < FragmentCount(|MessageOf(hist, s, n).data|) ==> Part(s, n, sn) in es
  }

  /** Every assembled message is one that was sent, and no sent message is queued twice. */
  predicate Explained(hist: History, queue: seq<Output>, log: seq<(byte, nat)>) {
    |log| == |queue|
    && (forall i :: 0 <= i < |queue| && queue[i].Assembled? ==>
          WasSent(hist, log[i].0, log[i].1) && queue[i].msg == MessageOf(hist, log[i].0, log[i].1))
    && forall i, j :: 0 <= i < j < |queue| && queue[i].Assembled? && queue[j].Assembled? ==> log[i] != log[j]
  }

  /** An entry holds some, not all, fragments of message m, each once. */
  predicate EntryOf(hist: History, es: seq<Event>, key: Key, ps: seq<Packet>, m: nat) {
    && WasSent(hist, key.0, m) && IdOf(hist, key.0, m) == key.1
    && PartOf(ps, MessageOf(hist, key.0, m), key.1) && Distinct(ps)
    && 0 < |ps| < FragmentCount(|MessageOf(hist, key.0, m).data|)
    && forall p :: p in ps ==> Part(key.0, m, p.packetSN) in es
  }

  predicate Table(hist: History, es: seq<Event>, live: map<Key, seq<Packet>>, owner: map<Key, nat>) {
    owner.Keys == live.Keys && forall key :: key in live ==> EntryOf(hist, es, key, live[key], owner[key])
  }

  predicate Log(hist: History, es: seq<Event>, queue: seq<Output>, owner: map<Key, nat>, log: seq<(byte, nat)>) {
    Explained(hist, queue, log)
    && (forall i :: 0 <= i < |queue| && queue[i].Assembled? ==> AllArrived(hist, es, log[i].0, log[i].1))
    && forall i, key :: 0 <= i < |queue| && queue[i].Assembled? && key in owner ==> log[i] != (key.0, owner[key])
  }

  predicate Clean(hist: History, es: seq<Event>, t: Named) {
    Table(hist, es, t.st.live, t.owner) && Log(hist, es, t.st.queue, t.owner, t.log)
  }

  // ----- One arrival ------------------------------------------------------------------------------------

  lemma KeepEntry(hist: History, es: seq<Event>, e: Event, key: Key, ps: seq<Packet>, m: nat)
    requires EntryOf(hist, es, key, ps, m)
    ensures EntryOf(hist, es + [e], key, ps, m)
  {
    forall p | p in ps ensures Part(key.0, m, p.packetSN) in es + [e] {}
  }

  lemma KeepArrived(hist: History, es: seq<Event>, e: Event)
    ensures forall s: byte, n: nat :: AllArrived(hist, es, s, n) ==> AllArrived(hist, es + [e], s, n)
  {
    forall s: byte, n: nat | AllArrived(hist, es, s, n) ensures AllArrived(hist, es + [e], s, n) {
      forall sn | 0 <= sn < FragmentCount(|MessageOf(hist, s, n).data|) ensures Part(s, n, sn) in es + [e] {
        assert Part(s, n, sn) in es;
      }
    }
  }

  lemma KeepTable(hist: History, es: seq<Event>, e: Event, live: map<Key, seq<Packet>>, owner: map<Key, nat>)
    requires Table(hist, es, live, owner)
    ensures Table(hist, es + [e], live, owner)
  {
    hide EntryOf;
    forall key | key in live ensures EntryOf(hist, es + [e], key, live[key], owner[key]) {
      KeepEntry(hist, es, e, key, live[key], owner[key]);
    }
  }

  lemma KeepLog(hist: History, es: seq<Event>, e: Event, queue: seq<Output>, owner: map<Key, nat>,
                smaller: map<Key, nat>, log: seq<(byte, nat)>)
    requires Log(hist, es, queue, owner, log)
    requires forall key :: key in smaller ==> key in owner && owner[key] == smaller[key]
    ensures Log(hist, es + [e], queue, smaller, log)
  {
    KeepArrived(hist, es, e);
    hide AllArrived;
  }

  lemma GrowEntry(hist: History, locals: set<byte>, es: seq<Event>, e: Event, ps: seq<Packet>)
    requires GoodHistory(hist, locals) && e.Part? && Possible(hist, locals, es, e)
    requires EntryOf(hist, es, KeyFor(hist, e), ps, e.n)
    ensures var p := PacketFor(hist, e); var all := ps + [p]; var msg := MessageOf(hist, e.src, e.n);
            var count := FragmentCount(|msg.data|);
            && PartOf(all, msg, KeyFor(hist, e).1) && Distinct(all) && |all| <= count && p.sum == count - 1
                && count <= 255
            && (|all| < count ==> EntryOf(hist, es + [e], KeyFor(hist, e), all, e.n))
            && (|all| == count ==> AllArrived(hist, es + [e], e.src, e.n))
  {
    var key, msg := KeyFor(hist, e), MessageOf(hist, e.src, e.n);
    FragmentNumber(msg, key.1, e.sn);
    var p := Fragment(msg, key.1, e.sn);
    var all := ps + [p];
    forall q | q in ps ensures q.packetSN != e.sn {
      assert Part(e.src, e.n, q.packetSN) in es;
    }
    forall q | q in all ensures Part(e.src, e.n, q.packetSN) in es + [e] {}
    if |all| == FragmentCount(|msg.data|) {
      forall sn | 0 <= sn < FragmentCount(|msg.data|) ensures Part(e.src, e.n, sn) in es + [e] {
        EveryNumber(all, |all|, sn);
      }
    }
  }

  /** n packets with distinct numbers below n have every number below n. */
  lemma EveryNumber(ps: seq<Packet>, n: nat, sn: nat)
    requires Distinct(ps) && |ps| == n && sn < n && forall p :: p in ps ==> p.packetSN < n
    ensures exists p :: p in ps && p.packetSN == sn
  {
    var sorted := SortBySN(ps);
    SortAscending(ps);
    SortElements(ps);
    forall p | p in sorted ensures p in ps {
      assert p in multiset(ps);
    }
    AscendingFrom(sorted, sn);
    AscendingTo(sorted, sn);
    assert sorted[sn] in sorted;
  }

  lemma LogDelivery(hist: History, es: seq<Event>, queue: seq<Output>, owner: map<Key, nat>, log: seq<(byte, nat)>,
                    key: Key, n: nat)
    requires Log(hist, es, queue, owner, log) && key in owner && owner[key] == n
    requires forall k :: k in owner && k != key ==> (k.0, owner[k]) != (key.0, n)
    requires AllArrived(hist, es, key.0, n)
    ensures Log(hist, es, queue + [Assembled(key, MessageOf(hist, key.0, n))], owner - {key}, log + [(key.0, n)])
  {
    forall i | 0 <= i < |queue| && queue[i].Assembled? ensures log[i] != (key.0, n) {
      assert log[i] != (key.0, owner[key]);
    }
    hide AllArrived;
  }

  lemma StepInEntry(locals: set<byte>, st: State, p: Packet)
    requires Collected(locals, p) && KeyOf(p) in st.live && |st.live[KeyOf(p)]| <= p.sum < 255
    ensures var k := KeyOf(p); var all := st.live[k] + [p];
            && (Completes(st, p) <==> |all| == p.sum + 1)
            && Step(locals, st, p) == if |all| == p.sum + 1 then State(st.live - {k},
                                                                       st.queue + [Assembled(k, Assemble(all))])
                                      else State(st.live[k := all], st.queue)
  {}

  lemma StepNewEntry(locals: set<byte>, st: State, p: Packet)
    requires Collected(locals, p) && KeyOf(p) !in st.live
    ensures Step(locals, st, p) == State((st.live - {StaleKey(KeyOf(p))})[KeyOf(p) := [p]], st.queue)
  {}

  /** What the packet of an event says about itself. */
  lemma PacketFacts(hist: History, locals: set<byte>, e: Event)
    requires GoodHistory(hist, locals) && e.Part? && Sent(hist, e)
    ensures var p := PacketFor(hist, e);
            Collected(locals, p) && KeyOf(p) == KeyFor(hist, e) && p.packetSN == e.sn
            && p.sum == FragmentCount(|MessageOf(hist, e.src, e.n).data|) - 1
  {
    FragmentNumber(MessageOf(hist, e.src, e.n), IdOf(hist, e.src, e.n), e.sn);
  }

  /** A fragment of the message whose entry it meets. */
  lemma PartContinues(hist: History, locals: set<byte>, es: seq<Event>, e: Event, t: Named)
    requires GoodHistory(hist, locals) && e.Part? && Possible(hist, locals, es, e) && Clean(hist, es, t)
    requires KeyFor(hist, e) in t.st.live && !Mixes(hist, t, e)
    ensures Clean(hist, es + [e], NamedStep(hist, locals, t, e))
  {
    var key, p, msg := KeyFor(hist, e), PacketFor(hist, e), MessageOf(hist, e.src, e.n);
    PacketFacts(hist, locals, e);
    GrowEntry(hist, locals, es, e, t.st.live[key]);
    var all := t.st.live[key] + [p];
    StepInEntry(locals, t.st, p);
    KeepTable(hist, es, e, t.st.live, t.owner);
    KeepLog(hist, es, e, t.st.queue, t.owner, t.owner, t.log);
    if |all| == FragmentCount(|msg.data|) {
      AssembleAll(all, msg, key.1);
      forall k | k in t.owner && k != key ensures (k.0, t.owner[k]) != (key.0, e.n) {
        assert EntryOf(hist, es, k, t.st.live[k], t.owner[k]);
      }
      LogDelivery(hist, es + [e], t.st.queue, t.owner, t.log, key, e.n);
    }
    hide EntryOf, Log, Fragment, Assemble, PartOf, Distinct, FragmentCount, AllArrived, Step, Completes, Possible,
        GoodHistory;
  }

  lemma FirstEntry(hist: History, locals: set<byte>, es: seq<Event>, e: Event)
    requires GoodHistory(hist, locals) && e.Part? && Possible(hist, locals, es, e)
    ensures EntryOf(hist, es + [e], KeyFor(hist, e), [PacketFor(hist, e)], e.n)
  {
    FragmentNumber(MessageOf(hist, e.src, e.n), IdOf(hist, e.src, e.n), e.sn);
  }

  lemma LogStart(hist: History, es: seq<Event>, e: Event, queue: seq<Output>, owner: map<Key, nat>,
                 log: seq<(byte, nat)>, key: Key)
    requires e.Part? && e !in es && Sent(hist, e) && key.0 == e.src && Log(hist, es, queue, owner, log)
    ensures Log(hist, es + [e], queue, owner[key := e.n], log)
  {
    KeepLog(hist, es, e, queue, owner, owner, log);
    forall i | 0 <= i < |queue| && queue[i].Assembled? ensures log[i] != (e.src, e.n) {
      assert AllArrived(hist, es, log[i].0, log[i].1);
    }
  }

  /** A fragment that finds no entry under its id. */
  lemma PartStarts(hist: History, locals: set<byte>, es: seq<Event>, e: Event, t: Named)
    requires GoodHistory(hist, locals) && e.Part? && Possible(hist, locals, es, e) && Clean(hist, es, t)
    requires KeyFor(hist, e) !in t.st.live
    ensures Clean(hist, es + [e], NamedStep(hist, locals, t, e))
  {
    var key, p := KeyFor(hist, e), PacketFor(hist, e);
    PacketFacts(hist, locals, e);
    StepNewEntry(locals, t.st, p);
    KeepTable(hist, es, e, t.st.live, t.owner);
    FirstEntry(hist, locals, es, e);
    var kept := t.owner - {StaleKey(key)};
    assert Log(hist, es, t.st.queue, kept, t.log);
    LogStart(hist, es, e, t.st.queue, kept, t.log, key);
    hide EntryOf, Step, Fragment, Log, Completes, Possible, GoodHistory, FragmentCount;
  }

  lemma OtherArrives(hist: History, locals: set<byte>, es: seq<Event>, e: Event, t: Named)
    requires e.Other? && Possible(hist, locals, es, e) && Clean(hist, es, t)
    ensures Clean(hist, es + [e], NamedStep(hist, locals, t, e))
    ensures NamedStep(hist, locals, t, e).owner == t.owner && NamedStep(hist, locals, t, e).st.live == t.st.live
  {
    hide Recv;
    KeepTable(hist, es, e, t.st.live, t.owner);
    KeepLog(hist, es, e, t.st.queue, t.owner, t.owner, t.log);
    hide AllArrived, EntryOf;
  }

  /**
   Without mixing every entry holds fragments of one message, and every assembled message is byte for byte one
   that was sent, none of them twice.
   */
  lemma {:induction false} MixFreeIsClean(hist: History, locals: set<byte>, es: seq<Event>)
    requires GoodHistory(hist, locals) && Run(hist, locals, es) && NeverMixes(hist, locals, es)
    ensures Clean(hist, es, Follow(hist, locals, es))
  {
    if es != [] {
      var prefix, e := es[..|es| - 1], es[|es| - 1];
      assert es == prefix + [e];
      MixFreeIsClean(hist, locals, prefix);
      var t := Follow(hist, locals, prefix);
      assert Follow(hist, locals, es) == NamedStep(hist, locals, t, e);
      assert Table(hist, prefix, t.st.live, t.owner);
      hide *;
      CleanStep(hist, locals, prefix, e, t);
    }
  }

  lemma CleanStep(hist: History, locals: set<byte>, es: seq<Event>, e: Event, t: Named)
    requires GoodHistory(hist, locals) && Possible(hist, locals, es, e) && Clean(hist, es, t) && Sent(hist, e)
             && !Mixes(hist, t, e)
    ensures Clean(hist, es + [e], NamedStep(hist, locals, t, e))
  {
    hide *;
    if e.Other? {
      OtherArrives(hist, locals, es, e, t);
    } else if KeyFor(hist, e) in t.st.live {
      PartContinues(hist, locals, es, e, t);
    } else {
      PartStarts(hist, locals, es, e, t);
    }
  }
}
