/**
 In-order delivery with losses, also of whole messages: fragments of different messages meet in one entry exactly
 if an unfinished message is not evicted before its id comes round again.
 */
module MessageLoss {
  import opened Bytes
  import opened FlexCan
  import opened Fragmentation
  import opened Reassembly
  import opened Transport
  import opened Runs
  import opened WrapSafety

  /** The fragment comes after all fragments of its source that have arrived. */
  ghost predicate Later(es: seq<Event>, e: Event) {
    e.Part? ==> e.n >= Begun(es, e.src)
                || (e.n + 1 == Begun(es, e.src) && forall k: nat :: Part(e.src, e.n, k) in es ==> k < e.sn)
  }

  /** Fragments of each source arrive in the order sent; any of them, and whole messages, may be lost. */
  ghost predicate Ordered(hist: History, locals: set<byte>, es: seq<Event>)
    ensures Ordered(hist, locals, es) ==> Run(hist, locals, es)
  {
    es == [] || (Ordered(hist, locals, es[..|es| - 1]) && Possible(hist, locals, es[..|es| - 1], es[|es| - 1])
                 && Later(es[..|es| - 1], es[|es| - 1]))
  }

  /** Some, but not all, fragments of a message have arrived. */
  ghost predicate Unfinished(hist: History, es: seq<Event>, s: byte, m: nat) {
    Heard(es, s, m) && !AllArrived(hist, es, s, m)
  }

  /** Message k is 129 ids behind m; starting it evicts m. */
  predicate Evictor(hist: History, s: byte, m: nat, k: nat) {
    WasSent(hist, s, m) && WasSent(hist, s, k) && IdOf(hist, s, k) == (IdOf(hist, s, m) + 129) % 256
  }

  /** A message between m and n that evicts m has been heard. */
  ghost predicate EvictedBefore(hist: History, es: seq<Event>, s: byte, m: nat, n: nat) {
    exists k: nat :: m < k < n && Evictor(hist, s, m, k) && Heard(es, s, k)
  }

  /** No unfinished message has the id of the arriving fragment, unless it has been evicted in between. */
  ghost predicate InTime(hist: History, es: seq<Event>, e: Event)
    requires Sent(hist, e)
  {
    e.Part? ==>
      forall m: nat :: m < e.n && IdOf(hist, e.src, m) == IdOf(hist, e.src, e.n) ==>
        Unfinished(hist, es, e.src, m) ==> EvictedBefore(hist, es, e.src, m, e.n)
  }

  ghost predicate AlwaysInTime(hist: History, es: seq<Event>)
    requires forall e :: e in es ==> Sent(hist, e)
  {
    es == [] || (AlwaysInTime(hist, es[..|es| - 1]) && InTime(hist, es[..|es| - 1], es[|es| - 1]))
  }

  // ----- What an in-order run without mixing keeps -------------------------------------------------------

  ghost predicate Overtaken(hist: History, es: seq<Event>, s: byte, m: nat) {
    exists k: nat :: m < k && Evictor(hist, s, m, k) && Heard(es, s, k)
  }

  ghost predicate Settled(hist: History, es: seq<Event>, t: Named) {
    forall s: byte, m: nat :: Heard(es, s, m) ==> Accounted(hist, es, t, s, m, Overtaken(hist, es, s, m))
  }

  ghost predicate Fresh(hist: History, es: seq<Event>, t: Named) {
    forall key :: key in t.owner ==> !Overtaken(hist, es, key.0, t.owner[key])
  }

  lemma NoneIsLater(es: seq<Event>, e: Event, m: nat)
    requires e.Part? && Later(es, e) && Heard(es, e.src, m)
    ensures m <= e.n
  {
    HeardIsBegun(es, e.src, m);
  }

  lemma OvertakenStays(hist: History, es: seq<Event>, e: Event, s: byte, m: nat)
    requires Overtaken(hist, es, s, m)
    ensures Overtaken(hist, es + [e], s, m)
  {
    var k: nat :| m < k && Evictor(hist, s, m, k) && Heard(es, s, k);
    HeardNext(es, e, s, k);
  }

  /** The evicting message itself overtakes the evicted one. */
  lemma EvictionOvertakes(hist: History, es: seq<Event>, e: Event, t: Named, s: byte, m: nat)
    requires Sent(hist, e) && Later(es, e) && Heard(es, s, m) && WasSent(hist, s, m)
    requires Evicting(hist, t, e, (s, IdOf(hist, s, m)))
    ensures Overtaken(hist, es + [e], s, m)
  {
    NoneIsLater(es, e, m);
    HeardNext(es, e, s, e.n);
    StaleId(IdOf(hist, s, m), IdOf(hist, s, e.n));
    assert Evictor(hist, s, m, e.n);
  }

  lemma StaleId(a: byte, b: byte)
    ensures (b + TIME_OUT_ID) % 256 == a <==> b == (a + 129) % 256
    ensures a != (a + 129) % 256
  {}

  lemma SettledStep(hist: History, locals: set<byte>, es: seq<Event>, e: Event, t: Named)
    requires GoodHistory(hist, locals) && Possible(hist, locals, es, e) && Sent(hist, e) && Later(es, e)
    requires Clean(hist, es, t) && !Mixes(hist, t, e) && Settled(hist, es, t)
    ensures Settled(hist, es + [e], NamedStep(hist, locals, t, e))
  {
    var next := NamedStep(hist, locals, t, e);
    hide *;
    forall s: byte, m: nat | Heard(es + [e], s, m)
      ensures Accounted(hist, es + [e], next, s, m, Overtaken(hist, es + [e], s, m))
    {
      HeardNext(es, e, s, m);
      if e.Part? && e.src == s && e.n == m {
        OwnSettled(hist, locals, es, e, t);
      } else {
        OtherSettled(hist, locals, es, e, t, s, m);
      }
    }
    AllSettled(hist, es + [e], next);
  }

  lemma AllSettled(hist: History, es: seq<Event>, t: Named)
    requires forall s: byte, m: nat :: Heard(es, s, m) ==> Accounted(hist, es, t, s, m, Overtaken(hist, es, s, m))
    ensures Settled(hist, es, t)
  {}

  lemma OwnSettled(hist: History, locals: set<byte>, es: seq<Event>, e: Event, t: Named)
    requires GoodHistory(hist, locals) && e.Part? && Possible(hist, locals, es, e) && Sent(hist, e) && Later(es, e)
    requires Clean(hist, es, t) && !Mixes(hist, t, e) && Settled(hist, es, t)
    ensures Accounted(hist, es + [e], NamedStep(hist, locals, t, e), e.src, e.n, Overtaken(hist, es + [e], e.src, e.n))
  {
    hide GoodHistory, Possible, Clean, Mixes, NamedStep, Heard, Queued, Owned, Later;
    if Heard(es, e.src, e.n) && Overtaken(hist, es, e.src, e.n) {
      var k: nat :| e.n < k && Evictor(hist, e.src, e.n, k) && Heard(es, e.src, k);
      NoneIsLater(es, e, k);
    }
    OwnAccounted(hist, locals, es, e, t);
  }

  lemma OtherSettled(hist: History, locals: set<byte>, es: seq<Event>, e: Event, t: Named, s: byte, m: nat)
    requires GoodHistory(hist, locals) && Possible(hist, locals, es, e) && Sent(hist, e) && Later(es, e)
    requires Clean(hist, es, t) && !Mixes(hist, t, e) && Settled(hist, es, t)
    requires Heard(es, s, m) && !(e.Part? && e.src == s && e.n == m)
    ensures Accounted(hist, es + [e], NamedStep(hist, locals, t, e), s, m, Overtaken(hist, es + [e], s, m))
  {
    hide GoodHistory, Possible, Clean, Mixes, NamedStep, Heard, Queued, Later, Overtaken, Evicting;
    assert Accounted(hist, es, t, s, m, Overtaken(hist, es, s, m));
    if Queued(t, s, m) {
      QueuedStays(hist, locals, es, e, t, s, m);
    } else if Owned(hist, es, t, s, m) {
      OwnedNext(hist, locals, es, e, t, s, m);
      if Evicting(hist, t, e, (s, IdOf(hist, s, m))) {
        EvictionOvertakes(hist, es, e, t, s, m);
      }
    } else {
      OvertakenStays(hist, es, e, s, m);
    }
  }

  lemma FreshStep(hist: History, locals: set<byte>, es: seq<Event>, e: Event, t: Named)
    requires GoodHistory(hist, locals) && Possible(hist, locals, es, e) && Sent(hist, e) && Later(es, e)
    requires Clean(hist, es, t) && !Mixes(hist, t, e) && Fresh(hist, es, t)
    ensures Fresh(hist, es + [e], NamedStep(hist, locals, t, e))
  {
    var next := NamedStep(hist, locals, t, e);
    OwnersNext(hist, locals, t, e);
    hide GoodHistory, Possible, Clean, Mixes, NamedStep, Heard, Later, Overtaken, Evicting;
    forall key | key in next.owner ensures !Overtaken(hist, es + [e], key.0, next.owner[key]) {
      if e.Part? && key == KeyFor(hist, e) && next.owner[key] == e.n {
        NewestIsFresh(hist, es, e);
      } else {
        StaysFresh(hist, es, e, t, key);
      }
    }
  }

  /** Owners are those from before that are not evicted, and the message of the arriving fragment. */
  lemma OwnersNext(hist: History, locals: set<byte>, t: Named, e: Event)
    requires Sent(hist, e)
    ensures var next := NamedStep(hist, locals, t, e);
            forall key :: key in next.owner ==>
              (e.Part? && key == KeyFor(hist, e) && next.owner[key] == e.n)
              || (key in t.owner && next.owner[key] == t.owner[key] && !Evicting(hist, t, e, key))
  {
    hide PacketFor, Step, StepFrame, Completes;
  }

  lemma NewestIsFresh(hist: History, es: seq<Event>, e: Event)
    requires e.Part? && Later(es, e)
    ensures !Overtaken(hist, es + [e], e.src, e.n)
  {
    if Overtaken(hist, es + [e], e.src, e.n) {
      var k: nat :| e.n < k && Evictor(hist, e.src, e.n, k) && Heard(es + [e], e.src, k);
      HeardNext(es, e, e.src, k);
      NoneIsLater(es, e, k);
    }
  }

  /**
   A message that is overtaken now but was not before is overtaken by the arriving one, which was not heard before.
   */
  lemma NewlyOvertaken(hist: History, es: seq<Event>, e: Event, s: byte, m: nat)
    requires Overtaken(hist, es + [e], s, m) && !Overtaken(hist, es, s, m)
    ensures e.Part? && e.src == s && m < e.n && Evictor(hist, s, m, e.n) && !Heard(es, s, e.n)
  {
    hide Heard;
    var k: nat :| m < k && Evictor(hist, s, m, k) && Heard(es + [e], s, k);
    HeardNext(es, e, s, k);
  }

  lemma EvictsBefore(hist: History, es: seq<Event>, s: byte, m: nat, k: nat, n: nat)
    requires m < k < n && Evictor(hist, s, m, k) && Heard(es, s, k)
    ensures EvictedBefore(hist, es, s, m, n)
  {}

  lemma BeforeOvertakes(hist: History, es: seq<Event>, s: byte, m: nat, n: nat)
    ensures EvictedBefore(hist, es, s, m, n) ==> Overtaken(hist, es, s, m)
  {}

  lemma StaysFresh(hist: History, es: seq<Event>, e: Event, t: Named, key: Key)
    requires Sent(hist, e) && Later(es, e) && Clean(hist, es, t) && !Mixes(hist, t, e) && Fresh(hist, es, t)
    requires key in t.owner && !Evicting(hist, t, e, key)
    ensures !Overtaken(hist, es + [e], key.0, t.owner[key])
  {
    var m := t.owner[key];
    if Overtaken(hist, es + [e], key.0, m) {
      OwnerHeard(hist, es, t, key);
      NewlyOvertaken(hist, es, e, key.0, m);
      StaleId(key.1, IdOf(hist, key.0, e.n));
      if KeyFor(hist, e) in t.st.live {
        OwnerHeard(hist, es, t, KeyFor(hist, e));
      }
    }
  }

  // ----- Exactly when messages mix ------------------------------------------------------------------------

  lemma MixesWhenLate(hist: History, es: seq<Event>, e: Event, t: Named)
    requires Sent(hist, e) && Later(es, e) && Clean(hist, es, t) && Settled(hist, es, t) && !InTime(hist, es, e)
    ensures Mixes(hist, t, e)
  {
    hide EvictedBefore;
    var m: nat :| m < e.n && IdOf(hist, e.src, m) == IdOf(hist, e.src, e.n) && Unfinished(hist, es, e.src, m)
      && !EvictedBefore(hist, es, e.src, m, e.n);
    assert Accounted(hist, es, t, e.src, m, Overtaken(hist, es, e.src, m));
    hide Clean, Later, AllArrived, Heard, Queued;
    if Queued(t, e.src, m) {
      QueuedArrived(hist, es, t, e.src, m);
    } else if Overtaken(hist, es, e.src, m) {
      var k: nat :| m < k && Evictor(hist, e.src, m, k) && Heard(es, e.src, k);
      NoneIsLater(es, e, k);
      StaleId(IdOf(hist, e.src, m), IdOf(hist, e.src, k));
      EvictsBefore(hist, es, e.src, m, k, e.n);
    }
  }

  lemma LateWhenMixes(hist: History, es: seq<Event>, e: Event, t: Named)
    requires Sent(hist, e) && Later(es, e) && Clean(hist, es, t) && Settled(hist, es, t) && Fresh(hist, es, t)
             && Mixes(hist, t, e)
    ensures !InTime(hist, es, e)
  {
    var key := KeyFor(hist, e);
    var m := t.owner[key];
    OwnerHeard(hist, es, t, key);
    NoneIsLater(es, e, m);
    assert Accounted(hist, es, t, e.src, m, Overtaken(hist, es, e.src, m));
    assert !Overtaken(hist, es, e.src, m);
    hide Clean, Later, AllArrived, Heard;
    if Queued(t, e.src, m) {
      QueuedArrived(hist, es, t, e.src, m);
    } else {
      OwnedIsPartial(hist, es, t, e.src, m);
      assert Unfinished(hist, es, e.src, m);
      BeforeOvertakes(hist, es, e.src, m, e.n);
    }
  }

  lemma {:induction false} OrderedKeeps(hist: History, locals: set<byte>, es: seq<Event>)
    requires GoodHistory(hist, locals) && Ordered(hist, locals, es)
    ensures NeverMixes(hist, locals, es) <==> AlwaysInTime(hist, es)
    ensures NeverMixes(hist, locals, es) ==>
              Settled(hist, es, Follow(hist, locals, es)) && Fresh(hist, es, Follow(hist, locals, es))
  {
    if es != [] {
      var prefix, e := es[..|es| - 1], es[|es| - 1];
      assert es == prefix + [e];
      OrderedKeeps(hist, locals, prefix);
      var t := Follow(hist, locals, prefix);
      assert Follow(hist, locals, es) == NamedStep(hist, locals, t, e) && Sent(hist, e);
      if NeverMixes(hist, locals, prefix) {
        MixFreeIsClean(hist, locals, prefix);
        assert NeverMixes(hist, locals, es) <==> !Mixes(hist, t, e);
        assert AlwaysInTime(hist, es) <==> InTime(hist, prefix, e);
        assert Later(prefix, e) && Possible(hist, locals, prefix, e);
        hide *;
        OrderedStep(hist, locals, prefix, e, t);
      }
    }
  }

  lemma OrderedStep(hist: History, locals: set<byte>, es: seq<Event>, e: Event, t: Named)
    requires GoodHistory(hist, locals) && Possible(hist, locals, es, e) && Sent(hist, e) && Later(es, e)
    requires Clean(hist, es, t) && Settled(hist, es, t) && Fresh(hist, es, t)
    ensures Mixes(hist, t, e) <==> !InTime(hist, es, e)
    ensures !Mixes(hist, t, e) ==>
              Settled(hist, es + [e], NamedStep(hist, locals, t, e))
                  && Fresh(hist, es + [e], NamedStep(hist, locals, t, e))
  {
    hide *;
    if Mixes(hist, t, e) {
      LateWhenMixes(hist, es, e, t);
    } else {
      if !InTime(hist, es, e) {
        MixesWhenLate(hist, es, e, t);
      }
      SettledStep(hist, locals, es, e, t);
      FreshStep(hist, locals, es, e, t);
    }
  }

  /**
   In every in-order run, whatever is lost or sent elsewhere: no fragment is ever added to another message's entry if
   and only if, whenever a fragment arrives whose id an earlier unfinished message has, a message that evicts that one
   has been heard in between.
   */
  lemma MixFreeExactlyWhenInTime(hist: History, locals: set<byte>, es: seq<Event>)
    requires GoodHistory(hist, locals) && Ordered(hist, locals, es)
    ensures NeverMixes(hist, locals, es) <==> AlwaysInTime(hist, es)
    ensures AlwaysInTime(hist, es) ==>
              Explained(hist, Receive(locals, EMPTY, Arrivals(hist, es)).queue, Follow(hist, locals, es).log)
  {
    OrderedKeeps(hist, locals, es);
    if NeverMixes(hist, locals, es) {
      MixFreeIsClean(hist, locals, es);
      FollowIsReceive(hist, locals, es);
    }
    hide Explained, Table;
  }

  // ----- Runs without whole messages lost ------------------------------------------------------------------

  /** No message is skipped, once one of the source has been heard. */
  ghost predicate NoneSkipped(es: seq<Event>) {
    es == [] || (NoneSkipped(es[..|es| - 1]) && var prefix, e := es[..|es| - 1], es[|es| - 1];
                 e.Part? ==> Begun(prefix, e.src) == 0 || e.n <= Begun(prefix, e.src))
  }

  lemma {:induction false} InOrderIsAdmissible(hist: History, locals: set<byte>, es: seq<Event>)
    requires Ordered(hist, locals, es) && NoneSkipped(es)
    ensures Admissible(hist, locals, es, 1)
  {
    if es != [] {
      InOrderIsAdmissible(hist, locals, es[..|es| - 1]);
    }
  }

  // ----- A run that mixes -----------------------------------------------------------------------------------

  /**
   The first half of message 0 arrives, the next 255 messages are lost or go to other devices, and then the second
   half of message 256 arrives: what is queued differs from everything that was sent, if the two messages differ in
   both halves.
   */
  lemma StaleFragmentMixes(hist: History, locals: set<byte>, s: byte)
    requires GoodHistory(hist, locals) && WasSent(hist, s, 0) && WasSent(hist, s, 256)
    requires var a, b := MessageOf(hist, s, 0), MessageOf(hist, s, 256);
             && FragmentCount(|a.data|) == 2 && FragmentCount(|b.data|) == 2
             && a.data[..6] != b.data[..6] && a.data[6..] != b.data[6..]
             && forall n: nat :: WasSent(hist, s, n) ==> MessageOf(hist, s, n) == a || MessageOf(hist, s, n) == b
    ensures var es := [Part(s, 0, 0), Part(s, 256, 1)];
            && Ordered(hist, locals, es) && !NeverMixes(hist, locals, es) && !AlwaysInTime(hist, es)
            && var t := Follow(hist, locals, es);
               |t.st.queue| == 1 && t.st.queue[0].Assembled?
               && forall n: nat :: WasSent(hist, s, n) ==> t.st.queue[0].msg != MessageOf(hist, s, n)
  {
    var one, two := [Part(s, 0, 0)], [Part(s, 0, 0), Part(s, 256, 1)];
    StaleRun(hist, locals, s, one, two);
    StaleNames(hist, locals, s, one, two);
    MixFreeExactlyWhenInTime(hist, locals, two);
    var t := NamedStep(hist, locals, NOTHING_YET, one[0]);
    hide Ordered, NeverMixes, AlwaysInTime, Follow, NamedStep, GoodHistory, WasSent, FragmentCount;
    StaleMixture(hist, locals, s, one[0], two[1], t);
  }

  lemma StaleNames(hist: History, locals: set<byte>, s: byte, one: seq<Event>, two: seq<Event>)
    requires GoodHistory(hist, locals) && WasSent(hist, s, 0) && WasSent(hist, s, 256) && Ordered(hist, locals, two)
    requires one == [Part(s, 0, 0)] && two == one + [Part(s, 256, 1)]
    ensures Sent(hist, one[0]) && Sent(hist, two[1]) && !NeverMixes(hist, locals, two)
    ensures Follow(hist, locals, two) == NamedStep(hist, locals, NamedStep(hist, locals, NOTHING_YET, one[0]), two[1])
  {
    assert two[..1] == one && [] + [one[0]] == one;
    FollowNext(hist, locals, one, two[1]);
    FollowNext(hist, locals, [], one[0]);
    assert Follow(hist, locals, []) == NOTHING_YET;
    var t := NamedStep(hist, locals, NOTHING_YET, one[0]);
    NamedStart(hist, locals, NOTHING_YET, one[0]);
    hide Follow, NamedStep, GoodHistory, Ordered;
    assert KeyFor(hist, one[0]) == KeyFor(hist, two[1]);
    assert Mixes(hist, t, two[1]);
  }

  lemma StaleRun(hist: History, locals: set<byte>, s: byte, one: seq<Event>, two: seq<Event>)
    requires GoodHistory(hist, locals) && WasSent(hist, s, 0) && WasSent(hist, s, 256)
    requires FragmentCount(|MessageOf(hist, s, 0).data|) == 2 && FragmentCount(|MessageOf(hist, s, 256).data|) == 2
    requires one == [Part(s, 0, 0)] && two == one + [Part(s, 256, 1)]
    ensures Ordered(hist, locals, two)
  {
    assert GoodMessage(MessageOf(hist, s, 0), s, locals) && GoodMessage(MessageOf(hist, s, 256), s, locals);
    assert one[..0] == [] && two[..1] == one;
    assert Begun(one, s) == 1;
    assert Ordered(hist, locals, []);
    assert Possible(hist, locals, [], one[0]) && Later([], one[0]) && Ordered(hist, locals, one);
    assert Possible(hist, locals, one, two[1]) && Later(one, two[1]);
  }

  /** The two halves make a message that neither of the two is. */
  lemma StaleMixture(hist: History, locals: set<byte>, s: byte, e: Event, f: Event, t: Named)
    requires GoodHistory(hist, locals) && WasSent(hist, s, 0) && WasSent(hist, s, 256)
    requires e == Part(s, 0, 0) && f == Part(s, 256, 1) && Sent(hist, e) && Sent(hist, f)
    requires var a, b := MessageOf(hist, s, 0), MessageOf(hist, s, 256);
             FragmentCount(|a.data|) == 2 && FragmentCount(|b.data|) == 2 && a.data[..6] != b.data[..6]
                 && a.data[6..] != b.data[6..]
    requires t == NamedStep(hist, locals, NOTHING_YET, e)
    ensures var queue := NamedStep(hist, locals, t, f).st.queue;
            |queue| == 1 && queue[0].Assembled? && queue[0].msg != MessageOf(hist, s, 0)
                && queue[0].msg != MessageOf(hist, s, 256)
  {
    var a, b := MessageOf(hist, s, 0), MessageOf(hist, s, 256);
    var p, q := PacketFor(hist, e), PacketFor(hist, f);
    PacketFacts(hist, locals, e);
    PacketFacts(hist, locals, f);
    NamedStart(hist, locals, NOTHING_YET, e);
    StepInEntry(locals, t.st, q);
    assert p.data == a.data[..6] && q.data == b.data[6..];
    hide Step, Completes, PacketFor, Assemble, GoodHistory, FragmentCount;
    assert [p] + [q] == [p, q];
    AssembleTwo(p, q);
    var mixture := p.data + q.data;
    assert mixture[..6] == a.data[..6] && mixture[6..] == b.data[6..];
  }

  lemma AssembleTwo(p: Packet, q: Packet)
    requires p.packetSN < q.packetSN
    ensures Assemble([p, q]) == Message(p.priority, p.sId, p.dId, p.data + q.data)
  {
    var one, two := [p], [p, q];
    assert two[..|two| - 1] == one && one[..|one| - 1] == [];
    assert SortBySN(one) == Insert(p, []) == one;
    assert one[1..] == [];
    assert SortBySN(two) == Insert(q, one) == two;
    assert Joined(one) == p.data;
    assert Joined(two) == Joined(one) + q.data;
  }
}
