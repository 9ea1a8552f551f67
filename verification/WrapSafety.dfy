/**
 Runs of any length in which fragments come out of order, but no message is lost whole: although message ids wrap
 every 256 messages, fragments of different messages never meet in one table entry, and which messages are
 assembled is known exactly.
 */
module WrapSafety {
  import opened Bytes
  import opened FlexCan
  import opened Fragmentation
  import opened Reassembly
  import opened Transport
  import opened Runs

  /** How many messages of a source have begun to arrive: one more than the largest number seen. */
  function Begun(es: seq<Event>, s: byte): nat {
    if es == [] then 0 else
      var before, e := Begun(es[..|es| - 1], s), es[|es| - 1];
      if e.Part? && e.src == s && before <= e.n then e.n + 1 else before
  }

  /** Some fragment of a message has arrived. */
  ghost predicate Heard(es: seq<Event>, s: byte, n: nat) { exists sn: nat :: Part(s, n, sn) in es }

  lemma {:induction false} HeardHasBegun(es: seq<Event>, s: byte, n: nat, sn: nat)
    requires Part(s, n, sn) in es
    ensures n < Begun(es, s)
  {
    if es[|es| - 1] != Part(s, n, sn) {
      HeardHasBegun(es[..|es| - 1], s, n, sn);
    }
  }

  lemma BegunNext(es: seq<Event>, e: Event, s: byte)
    ensures Begun(es + [e], s) == if e.Part? && e.src == s && Begun(es, s) <= e.n then e.n + 1 else Begun(es, s)
  {
    assert (es + [e])[..|es|] == es;
  }

  lemma HeardNext(es: seq<Event>, e: Event, s: byte, n: nat)
    ensures Heard(es + [e], s, n) <==> Heard(es, s, n) || (e.Part? && e.src == s && e.n == n)
  {
    if Heard(es, s, n) {
      var sn: nat :| Part(s, n, sn) in es;
      assert Part(s, n, sn) in es + [e];
    }
    if e.Part? && e.src == s && e.n == n {
      assert Part(s, n, e.sn) in es + [e];
    }
  }

  // ----- Reordering -----------------------------------------------------------------------------------

  /**
   What the network may do: lose fragments, but never a whole message once one has been heard - and none may go to
   another device in between; reorder them, but let none come in when `reach` messages have begun behind its own. The
   first message heard is any.
   */
  predicate Allowed(hist: History, locals: set<byte>, es: seq<Event>, e: Event, reach: nat) {
    Possible(hist, locals, es, e)
    && (e.Part? ==> Begun(es, e.src) == 0 || e.n <= Begun(es, e.src) <= e.n + reach)
  }

  predicate Admissible(hist: History, locals: set<byte>, es: seq<Event>, reach: nat)
    ensures Admissible(hist, locals, es, reach) ==> Run(hist, locals, es)
  {
    es == [] || (Admissible(hist, locals, es[..|es| - 1], reach)
                 && Allowed(hist, locals, es[..|es| - 1], es[|es| - 1], reach))
  }

  lemma {:induction false} AdmissibleFurther(hist: History, locals: set<byte>, es: seq<Event>, reach: nat, further: nat)
    requires Admissible(hist, locals, es, reach) && reach <= further
    ensures Admissible(hist, locals, es, further)
  {
    if es != [] {
      AdmissibleFurther(hist, locals, es[..|es| - 1], reach, further);
    }
  }

  /** Every entry is of one of the last 129 messages that have begun. */
  predicate InWindow(es: seq<Event>, owner: map<Key, nat>) {
    forall key :: key in owner ==> owner[key] < Begun(es, key.0) <= owner[key] + 129
  }

  /** The window argument: an entry under the id of an arriving fragment can only be of the same message. */
  lemma SameMessage(start: nat, m: nat, n: nat, begun: nat)
    requires (start + m) % 256 == (start + n) % 256
    requires m < begun <= m + 129 && n <= begun <= n + 129
    ensures m == n
  {}

  /** Starting message n evicts the one message that would otherwise leave the window. */
  lemma WindowMoves(start: nat, m: nat, n: nat, begun: nat)
    requires m < begun <= m + 129 && n <= begun <= n + 129
    requires (start + m) % 256 != ((start + n) % 256 + TIME_OUT_ID) % 256
    ensures (if begun <= n then n + 1 else begun) <= m + 129
  {}

  lemma KeyStays(hist: History, locals: set<byte>, es: seq<Event>, e: Event, key: Key, m: nat)
    requires Allowed(hist, locals, es, e, 129) && Sent(hist, e) && WasSent(hist, key.0, m)
             && IdOf(hist, key.0, m) == key.1
    requires m < Begun(es, key.0) <= m + 129
    requires e.Part? && e.src == key.0 ==> e.n < Begun(es, key.0) || key != StaleKey(KeyFor(hist, e))
    ensures m < Begun(es + [e], key.0) <= m + 129
  {
    BegunNext(es, e, key.0);
    if e.Part? && e.src == key.0 && e.n >= Begun(es, key.0) {
      WindowMoves(hist[key.0].start, m, e.n, Begun(es, key.0));
    }
  }

  lemma WindowStays(hist: History, locals: set<byte>, es: seq<Event>, e: Event, t: Named)
    requires GoodHistory(hist, locals) && Allowed(hist, locals, es, e, 129) && Sent(hist, e) && Clean(hist, es, t)
    requires InWindow(es, t.owner) && !Mixes(hist, t, e)
    ensures InWindow(es + [e], NamedStep(hist, locals, t, e).owner)
  {
    var next := NamedStep(hist, locals, t, e);
    forall key | key in next.owner
      ensures next.owner[key] < Begun(es + [e], key.0) <= next.owner[key] + 129
    {
      if key in t.owner && t.owner[key] == next.owner[key] {
        assert EntryOf(hist, es, key, t.st.live[key], t.owner[key]);
        hide EntryOf, Clean, Step, Allowed, GoodHistory, Completes, Begun, Possible;
        KeyStays(hist, locals, es, e, key, t.owner[key]);
      } else {
        BegunNext(es, e, key.0);
      }
    }
  }

  lemma WindowForbidsMixing(hist: History, locals: set<byte>, es: seq<Event>, e: Event, t: Named)
    requires Allowed(hist, locals, es, e, 129) && Sent(hist, e) && Clean(hist, es, t) && InWindow(es, t.owner)
    ensures !Mixes(hist, t, e)
  {
    if e.Part? && KeyFor(hist, e) in t.owner {
      var key := KeyFor(hist, e);
      assert EntryOf(hist, es, key, t.st.live[key], t.owner[key]);
      SameMessage(hist[e.src].start, t.owner[key], e.n, Begun(es, e.src));
    }
  }

  lemma {:induction false} AdmissibleIsMixFree(hist: History, locals: set<byte>, es: seq<Event>)
    requires GoodHistory(hist, locals) && Admissible(hist, locals, es, 129)
    ensures NeverMixes(hist, locals, es) && InWindow(es, Follow(hist, locals, es).owner)
  {
    if es != [] {
      var prefix, e := es[..|es| - 1], es[|es| - 1];
      assert es == prefix + [e];
      AdmissibleIsMixFree(hist, locals, prefix);
      var t := Follow(hist, locals, prefix);
      assert Follow(hist, locals, es) == NamedStep(hist, locals, t, e) && Sent(hist, e);
      MixFreeIsClean(hist, locals, prefix);
      WindowForbidsMixing(hist, locals, prefix, e, t);
      assert NeverMixes(hist, locals, es);
      hide *;
      WindowStays(hist, locals, prefix, e, t);
    }
  }

  /**
   Safety: in every run of the network, however long and wherever the ids start, every message assembled and
   queued is byte for byte a message that was sent, and none is queued twice.
   */
  lemma NoMixing(hist: History, locals: set<byte>, es: seq<Event>)
    requires GoodHistory(hist, locals) && Admissible(hist, locals, es, 129)
    ensures NeverMixes(hist, locals, es)
    ensures Explained(hist, Receive(locals, EMPTY, Arrivals(hist, es)).queue, Follow(hist, locals, es).log)
  {
    AdmissibleIsMixFree(hist, locals, es);
    MixFreeIsClean(hist, locals, es);
    FollowIsReceive(hist, locals, es);
    hide NeverMixes, Explained, Table;
  }

  // ----- What becomes of every message ------------------------------------------------------------------

  predicate Queued(t: Named, s: byte, n: nat) {
    exists i :: 0 <= i < |t.log| && QueuedAt(t, i, s, n)
  }

  predicate QueuedAt(t: Named, i: nat, s: byte, n: nat) {
    i < |t.st.queue| && i < |t.log| && t.st.queue[i].Assembled? && t.log[i] == (s, n)
  }

  predicate HasNumber(ps: seq<Packet>, sn: nat) { exists i :: 0 <= i < |ps| && ps[i].packetSN == sn }

  /** The message owns an entry, and all of its fragments that have arrived are in it. */
  ghost predicate Owned(hist: History, es: seq<Event>, t: Named, s: byte, n: nat) {
    WasSent(hist, s, n) && var key := (s, IdOf(hist, s, n));
    key in t.owner && t.owner[key] == n && key in t.st.live
    && forall sn: nat :: Part(s, n, sn) in es ==> HasNumber(t.st.live[key], sn)
  }

  /** The event starts an entry and thereby throws another one away. */
  predicate Evicting(hist: History, t: Named, e: Event, key: Key)
    requires Sent(hist, e)
  {
    e.Part? && KeyFor(hist, e) !in t.st.live && StaleKey(KeyFor(hist, e)) == key
  }

  lemma QueuedStays(hist: History, locals: set<byte>, es: seq<Event>, e: Event, t: Named, s: byte, n: nat)
    requires Sent(hist, e) && Clean(hist, es, t) && Queued(t, s, n)
    ensures Queued(NamedStep(hist, locals, t, e), s, n)
  {
    hide Recv, Assemble, PacketFor;
    var i :| 0 <= i < |t.log| && QueuedAt(t, i, s, n);
    assert QueuedAt(NamedStep(hist, locals, t, e), i, s, n);
  }

  lemma QueuedArrived(hist: History, es: seq<Event>, t: Named, s: byte, n: nat)
    requires Clean(hist, es, t) && Queued(t, s, n)
    ensures AllArrived(hist, es, s, n)
    ensures forall key :: key in t.owner && key.0 == s ==> t.owner[key] != n
  {
    var i :| 0 <= i < |t.log| && QueuedAt(t, i, s, n);
    hide AllArrived, EntryOf;
  }

  /** An entry's message has not arrived in full. */
  lemma OwnedIsPartial(hist: History, es: seq<Event>, t: Named, s: byte, n: nat)
    requires Clean(hist, es, t) && Owned(hist, es, t, s, n)
    ensures Heard(es, s, n) && !AllArrived(hist, es, s, n)
  {
    var key := (s, IdOf(hist, s, n));
    var ps := t.st.live[key];
    assert EntryOf(hist, es, key, ps, n);
    assert ps[0] in ps;
    var count := FragmentCount(|MessageOf(hist, s, n).data|);
    var sn := MissingNumber(ps, count);
    assert AllArrived(hist, es, s, n) ==> Part(s, n, sn) in es;
  }

  /** Fewer than n packets cannot have all numbers below n. */
  lemma {:induction false} MissingNumber(ps: seq<Packet>, n: nat) returns (sn: nat)
    requires |ps| < n
    ensures sn < n && !HasNumber(ps, sn)
  {
    if ps == [] {
      sn := 0;
    } else if HasNumber(ps, n - 1) {
      var i :| 0 <= i < |ps| && ps[i].packetSN == n - 1;
      var rest := ps[..i] + ps[i + 1..];
      sn := MissingNumber(rest, n - 1);
      if HasNumber(ps, sn) {
        KeepsNumber(ps, i, sn);
      }
    } else {
      sn := n - 1;
    }
  }

  lemma KeepsNumber(ps: seq<Packet>, i: nat, sn: nat)
    requires HasNumber(ps, sn) && i < |ps| && ps[i].packetSN != sn
    ensures HasNumber(ps[..i] + ps[i + 1..], sn)
  {
    var j :| 0 <= j < |ps| && ps[j].packetSN == sn;
    var rest := ps[..i] + ps[i + 1..];
    assert rest[if j < i then j else j - 1].packetSN == sn;
  }

  /** One arrival later the message still owns its entry, or is queued, or its entry is evicted. */
  lemma OwnedNext(hist: History, locals: set<byte>, es: seq<Event>, e: Event, t: Named, s: byte, n: nat)
    requires GoodHistory(hist, locals) && Possible(hist, locals, es, e) && Clean(hist, es, t)
    requires !Mixes(hist, t, e) && Owned(hist, es, t, s, n)
    ensures var next := NamedStep(hist, locals, t, e);
            Owned(hist, es + [e], next, s, n) || Queued(next, s, n) || Evicting(hist, t, e, (s, IdOf(hist, s, n)))
  {
    var key := (s, IdOf(hist, s, n));
    if e.Other? {
      OtherArrives(hist, locals, es, e, t);
    } else if KeyFor(hist, e) == key {
      OwnGrows(hist, locals, es, e, t);
    } else {
      OtherKeyStays(hist, locals, t, e, key);
      assert forall sn: nat :: Part(s, n, sn) in es + [e] ==> Part(s, n, sn) in es;
    }
  }

  lemma OtherKeyStays(hist: History, locals: set<byte>, t: Named, e: Event, key: Key)
    requires GoodHistory(hist, locals) && e.Part? && Sent(hist, e) && KeyFor(hist, e) != key && key in t.st.live
             && key in t.owner
    ensures var next := NamedStep(hist, locals, t, e);
            Evicting(hist, t, e, key)
            || (key in next.st.live && next.st.live[key] == t.st.live[key] && key in next.owner
                && next.owner[key] == t.owner[key])
  {
    PacketFacts(hist, locals, e);
    hide PacketFor, Assemble, GoodHistory;
  }

  lemma OwnGrows(hist: History, locals: set<byte>, es: seq<Event>, e: Event, t: Named)
    requires GoodHistory(hist, locals) && e.Part? && Possible(hist, locals, es, e) && Clean(hist, es, t)
    requires !Mixes(hist, t, e) && Owned(hist, es, t, e.src, e.n)
    ensures var next := NamedStep(hist, locals, t, e);
            Owned(hist, es + [e], next, e.src, e.n) || Queued(next, e.src, e.n)
  {
    var key, p := KeyFor(hist, e), PacketFor(hist, e);
    PacketFacts(hist, locals, e);
    GrowEntry(hist, locals, es, e, t.st.live[key]);
    StepInEntry(locals, t.st, p);
    var ps, all := t.st.live[key], t.st.live[key] + [p];
    var next := NamedStep(hist, locals, t, e);
    hide Step, Completes, PacketFor, Assemble, GoodHistory, EntryOf, PartOf, Possible;
    if |all| == p.sum + 1 {
      assert QueuedAt(next, |t.log|, e.src, e.n);
    } else {
      forall sn: nat | Part(e.src, e.n, sn) in es + [e] ensures HasNumber(all, sn) {
        if Part(e.src, e.n, sn) in es {
          var i :| 0 <= i < |ps| && ps[i].packetSN == sn;
          assert all[i].packetSN == sn;
        } else {
          assert all[|ps|].packetSN == sn;
        }
      }
    }
  }

  /** The first fragment of a message to be heard gives it an entry of its own. */
  lemma StartsOwned(hist: History, locals: set<byte>, es: seq<Event>, e: Event, t: Named)
    requires GoodHistory(hist, locals) && e.Part? && Possible(hist, locals, es, e) && Clean(hist, es, t)
    requires KeyFor(hist, e) !in t.st.live && !Heard(es, e.src, e.n)
    ensures Owned(hist, es + [e], NamedStep(hist, locals, t, e), e.src, e.n)
  {
    PacketFacts(hist, locals, e);
    StepNewEntry(locals, t.st, PacketFor(hist, e));
    var key, p := KeyFor(hist, e), PacketFor(hist, e);
    hide Step, Completes, PacketFor, GoodHistory, Possible;
    forall sn: nat | Part(e.src, e.n, sn) in es + [e] ensures HasNumber([p], sn) {
      assert Part(e.src, e.n, sn) !in es;
      assert [p][0].packetSN == sn;
    }
  }

  /** How a message stands: queued, collected, or gone in a way the caller specifies. */
  ghost predicate Accounted(hist: History, es: seq<Event>, t: Named, s: byte, n: nat, gone: bool) {
    Queued(t, s, n) || Owned(hist, es, t, s, n) || gone
  }

  /** The message of an arriving fragment, unless it was gone, is queued or collected afterwards. */
  lemma OwnAccounted(hist: History, locals: set<byte>, es: seq<Event>, e: Event, t: Named)
    requires GoodHistory(hist, locals) && e.Part? && Possible(hist, locals, es, e) && Clean(hist, es, t)
             && !Mixes(hist, t, e)
    requires Heard(es, e.src, e.n) ==> Accounted(hist, es, t, e.src, e.n, false)
    ensures Accounted(hist, es + [e], NamedStep(hist, locals, t, e), e.src, e.n, false)
  {
    NotQueued(hist, locals, es, e, t);
    if Heard(es, e.src, e.n) {
      OwnGrows(hist, locals, es, e, t);
    } else {
      if KeyFor(hist, e) in t.st.live {
        OwnerHeard(hist, es, t, KeyFor(hist, e));
      }
      StartsOwned(hist, locals, es, e, t);
    }
  }

  lemma NotQueued(hist: History, locals: set<byte>, es: seq<Event>, e: Event, t: Named)
    requires e.Part? && Possible(hist, locals, es, e) && Clean(hist, es, t)
    ensures !Queued(t, e.src, e.n)
  {
    if Queued(t, e.src, e.n) {
      QueuedArrived(hist, es, t, e.src, e.n);
      ArrivedHas(hist, es, e.src, e.n, e.sn);
    }
  }

  lemma ArrivedHas(hist: History, es: seq<Event>, s: byte, n: nat, sn: nat)
    requires AllArrived(hist, es, s, n) && sn < FragmentCount(|MessageOf(hist, s, n).data|)
    ensures Part(s, n, sn) in es
  {}

  lemma OwnerHeard(hist: History, es: seq<Event>, t: Named, key: Key)
    requires Clean(hist, es, t) && key in t.owner
    ensures WasSent(hist, key.0, t.owner[key]) && IdOf(hist, key.0, t.owner[key]) == key.1
            && Heard(es, key.0, t.owner[key])
  {
    assert EntryOf(hist, es, key, t.st.live[key], t.owner[key]);
    assert t.st.live[key][0] in t.st.live[key];
  }

  lemma ArrivedBefore(hist: History, es: seq<Event>, e: Event, s: byte, n: nat)
    requires !(e.Part? && e.src == s && e.n == n)
    ensures AllArrived(hist, es + [e], s, n) ==> AllArrived(hist, es, s, n)
  {
    if AllArrived(hist, es + [e], s, n) {
      forall sn | 0 <= sn < FragmentCount(|MessageOf(hist, s, n).data|) ensures Part(s, n, sn) in es {
        assert Part(s, n, sn) in es + [e];
      }
    }
  }

  // ----- Completeness ------------------------------------------------------------------------------------

  /** Every heard message is queued or collected, or the network can no longer complete it. */
  ghost predicate NothingMissed(hist: History, es: seq<Event>, t: Named, reach: nat) {
    forall s: byte, n: nat :: Heard(es, s, n) ==>
      Accounted(hist, es, t, s, n, Begun(es, s) > n + reach && !AllArrived(hist, es, s, n))
  }

  /** With a reach of 127 a message that is evicted has fallen out of reach. */
  lemma EvictedIsOutOfReach(hist: History, locals: set<byte>, es: seq<Event>, e: Event, t: Named, s: byte, n: nat)
    requires Allowed(hist, locals, es, e, 127) && Sent(hist, e) && Clean(hist, es, t) && InWindow(es, t.owner)
    requires Owned(hist, es, t, s, n) && Evicting(hist, t, e, (s, IdOf(hist, s, n)))
    ensures Begun(es + [e], s) > n + 127 && e.n != n
  {
    var key := (s, IdOf(hist, s, n));
    BegunNext(es, e, s);
    assert t.owner[key] < Begun(es, s) <= t.owner[key] + 129;
    hide Begun, Clean;
    StaleIsBehind(hist[s].start, n, e.n, Begun(es, s));
  }

  lemma StaleIsBehind(start: nat, m: nat, n: nat, begun: nat)
    requires m < begun <= m + 129 && n <= begun <= n + 127
    requires (start + m) % 256 == ((start + n) % 256 + TIME_OUT_ID) % 256
    ensures n == m + 129
  {}

  lemma OthersAccounted(hist: History, locals: set<byte>, es: seq<Event>, e: Event, t: Named, s: byte, n: nat)
    requires GoodHistory(hist, locals) && Allowed(hist, locals, es, e, 127) && Clean(hist, es, t)
             && InWindow(es, t.owner)
    requires Sent(hist, e) && !Mixes(hist, t, e) && !(e.Part? && e.src == s && e.n == n)
    requires Accounted(hist, es, t, s, n, Begun(es, s) > n + 127 && !AllArrived(hist, es, s, n))
    ensures Accounted(hist, es + [e], NamedStep(hist, locals, t, e), s, n,
                      Begun(es + [e], s) > n + 127 && !AllArrived(hist, es + [e], s, n))
  {
    hide Begun, Possible, GoodHistory, AllArrived, Clean, NamedStep, Mixes, Evicting;
    if Queued(t, s, n) {
      QueuedStays(hist, locals, es, e, t, s, n);
    } else {
      ArrivedBefore(hist, es, e, s, n);
      BegunNext(es, e, s);
      if Owned(hist, es, t, s, n) {
        OwnedIsPartial(hist, es, t, s, n);
        OwnedNext(hist, locals, es, e, t, s, n);
        if Evicting(hist, t, e, (s, IdOf(hist, s, n))) {
          EvictedIsOutOfReach(hist, locals, es, e, t, s, n);
        }
      }
    }
  }

  lemma MissStep(hist: History, locals: set<byte>, es: seq<Event>, e: Event, t: Named)
    requires GoodHistory(hist, locals) && Allowed(hist, locals, es, e, 127) && Clean(hist, es, t)
             && InWindow(es, t.owner)
    requires Sent(hist, e) && !Mixes(hist, t, e) && NothingMissed(hist, es, t, 127)
    ensures NothingMissed(hist, es + [e], NamedStep(hist, locals, t, e), 127)
  {
    var next := NamedStep(hist, locals, t, e);
    hide Heard, Begun, AllArrived, Clean, NamedStep, Mixes, GoodHistory, Possible, Queued, Owned, InWindow;
    forall s: byte, n: nat | Heard(es + [e], s, n)
      ensures Accounted(hist, es + [e], next, s, n, Begun(es + [e], s) > n + 127 && !AllArrived(hist, es + [e], s, n))
    {
      HeardNext(es, e, s, n);
      if e.Part? && e.src == s && e.n == n {
        HeardIsBegun(es, s, n);
        OwnAccounted(hist, locals, es, e, t);
      } else {
        OthersAccounted(hist, locals, es, e, t, s, n);
      }
    }
  }

  lemma HeardIsBegun(es: seq<Event>, s: byte, n: nat)
    ensures Heard(es, s, n) ==> n < Begun(es, s)
  {
    if Heard(es, s, n) {
      var sn: nat :| Part(s, n, sn) in es;
      HeardHasBegun(es, s, n, sn);
    }
  }

  lemma {:induction false} NothingIsMissed(hist: History, locals: set<byte>, es: seq<Event>)
    requires GoodHistory(hist, locals) && Admissible(hist, locals, es, 127)
    ensures NothingMissed(hist, es, Follow(hist, locals, es), 127)
  {
    if es != [] {
      var prefix, e := es[..|es| - 1], es[|es| - 1];
      assert es == prefix + [e];
      NothingIsMissed(hist, locals, prefix);
      AdmissibleFurther(hist, locals, prefix, 127, 129);
      AdmissibleFurther(hist, locals, es, 127, 129);
      AdmissibleIsMixFree(hist, locals, prefix);
      AdmissibleIsMixFree(hist, locals, es);
      MixFreeIsClean(hist, locals, prefix);
      var t := Follow(hist, locals, prefix);
      assert Follow(hist, locals, es) == NamedStep(hist, locals, t, e) && Sent(hist, e) && !Mixes(hist, t, e);
      hide *;
      MissStep(hist, locals, prefix, e, t);
    }
  }

  /**
   Completeness: if no fragment comes in more than 126 messages late, the assembled messages are exactly those all
   of whose fragments have arrived, each once.
   */
  lemma AssembledExactlyWhenArrived(hist: History, locals: set<byte>, es: seq<Event>, s: byte, n: nat)
    requires GoodHistory(hist, locals) && Admissible(hist, locals, es, 127)
    ensures var t := Follow(hist, locals, es);
            && t.st == Receive(locals, EMPTY, Arrivals(hist, es)) && Explained(hist, t.st.queue, t.log)
            && (Queued(t, s, n) <==> AllArrived(hist, es, s, n))
  {
    var t := Follow(hist, locals, es);
    AdmissibleFurther(hist, locals, es, 127, 129);
    AdmissibleIsMixFree(hist, locals, es);
    MixFreeIsClean(hist, locals, es);
    FollowIsReceive(hist, locals, es);
    NothingIsMissed(hist, locals, es);
    if AllArrived(hist, es, s, n) {
      FirstNumberHeard(hist, locals, es, s, n);
      if Owned(hist, es, t, s, n) {
        OwnedIsPartial(hist, es, t, s, n);
      }
    }
    if Queued(t, s, n) {
      QueuedArrived(hist, es, t, s, n);
    }
    hide Follow, AllArrived, Queued, Owned, Explained, Table, Receive, Arrivals;
  }

  lemma FirstNumberHeard(hist: History, locals: set<byte>, es: seq<Event>, s: byte, n: nat)
    requires GoodHistory(hist, locals) && AllArrived(hist, es, s, n)
    ensures Heard(es, s, n)
  {
    assert Part(s, n, 0) in es;
  }

  /**
   One message later it fails: a fragment that is 127 messages late starts an entry that evicts the newest message,
   and that message is not assembled although all of its fragments arrive.
   */
  lemma LateMessageEvicts(hist: History, locals: set<byte>, s: byte)
    requires GoodHistory(hist, locals) && WasSent(hist, s, 0) && WasSent(hist, s, 127)
    requires FragmentCount(|MessageOf(hist, s, 0).data|) == 2 && FragmentCount(|MessageOf(hist, s, 127).data|) == 2
    ensures var es := [Part(s, 127, 0), Part(s, 0, 0), Part(s, 127, 1)];
            Admissible(hist, locals, es, 128) && AllArrived(hist, es, s, 127) && Follow(hist, locals, es).st.queue == []
  {
    var one, two := [Part(s, 127, 0)], [Part(s, 127, 0), Part(s, 0, 0)];
    var three := [Part(s, 127, 0), Part(s, 0, 0), Part(s, 127, 1)];
    LateRun(hist, locals, s, one, two, three);
    var t1 := NamedStep(hist, locals, NOTHING_YET, one[0]);
    var t2 := NamedStep(hist, locals, t1, two[1]);
    FollowNext(hist, locals, [], one[0]);
    FollowNext(hist, locals, one, two[1]);
    FollowNext(hist, locals, two, three[2]);
    assert [] + [one[0]] == one && one + [two[1]] == two && two + [three[2]] == three;
    assert Follow(hist, locals, []) == NOTHING_YET;
    StaleByFour(hist, s);
    hide *;
    LateSteps(hist, locals, one[0], two[1], three[2], t1, t2);
  }

  lemma StaleByFour(hist: History, s: byte)
    requires Numbered(hist, s, 127)
    ensures StaleKey((s, IdOf(hist, s, 0))) == (s, IdOf(hist, s, 127)) != (s, IdOf(hist, s, 0))
  {}

  lemma LateSteps(hist: History, locals: set<byte>, a: Event, b: Event, c: Event, t1: Named, t2: Named)
    requires GoodHistory(hist, locals) && a.Part? && b.Part? && c.Part? && Sent(hist, a) && Sent(hist, b)
             && Sent(hist, c)
    requires KeyFor(hist, a) == KeyFor(hist, c) == StaleKey(KeyFor(hist, b)) != KeyFor(hist, b)
    requires t1 == NamedStep(hist, locals, NOTHING_YET, a) && t2 == NamedStep(hist, locals, t1, b)
    ensures NamedStep(hist, locals, t2, c).st.queue == []
  {
    NamedStart(hist, locals, NOTHING_YET, a);
    hide NamedStep, PacketFor, KeyFor, StaleKey;
    NamedStart(hist, locals, t1, b);
    NamedStart(hist, locals, t2, c);
  }

  lemma LateRun(hist: History, locals: set<byte>, s: byte, one: seq<Event>, two: seq<Event>, three: seq<Event>)
    requires GoodHistory(hist, locals) && WasSent(hist, s, 0) && WasSent(hist, s, 127)
    requires FragmentCount(|MessageOf(hist, s, 0).data|) == 2 && FragmentCount(|MessageOf(hist, s, 127).data|) == 2
    requires one == [Part(s, 127, 0)] && two == one + [Part(s, 0, 0)] && three == two + [Part(s, 127, 1)]
    ensures Admissible(hist, locals, three, 128) && AllArrived(hist, three, s, 127)
  {
    assert GoodMessage(MessageOf(hist, s, 0), s, locals) && GoodMessage(MessageOf(hist, s, 127), s, locals);
    assert one[..0] == [] && two[..1] == one && three[..2] == two;
    BegunNext([], one[0], s);
    BegunNext(one, two[1], s);
    assert [] + [one[0]] == one && one + [two[1]] == two;
    assert Begun(one, s) == 128 && Begun(two, s) == 128;
    hide Recv, Fragment, WireImage;
    assert Allowed(hist, locals, [], one[0], 128) && Admissible(hist, locals, one, 128);
    assert Allowed(hist, locals, one, two[1], 128) && Admissible(hist, locals, two, 128);
    assert Allowed(hist, locals, two, three[2], 128);
    assert three[0] == Part(s, 127, 0) && three[2] == Part(s, 127, 1);
  }

  lemma FollowNext(hist: History, locals: set<byte>, es: seq<Event>, e: Event)
    requires forall x :: x in es + [e] ==> Sent(hist, x)
    ensures (forall x :: x in es ==> Sent(hist, x)) && Sent(hist, e)
    ensures Follow(hist, locals, es + [e]) == NamedStep(hist, locals, Follow(hist, locals, es), e)
  {
    assert (es + [e])[..|es|] == es && e in es + [e];
    forall x | x in es ensures Sent(hist, x) {
      assert x in es + [e];
    }
  }

  /** A fragment that finds no entry starts one. */
  lemma NamedStart(hist: History, locals: set<byte>, t: Named, e: Event)
    requires GoodHistory(hist, locals) && e.Part? && Sent(hist, e) && KeyFor(hist, e) !in t.st.live
    ensures var key := KeyFor(hist, e);
            NamedStep(hist, locals, t, e)
              == Named(State((t.st.live - {StaleKey(key)})[key := [PacketFor(hist, e)]], t.st.queue),
                       (t.owner - {StaleKey(key)})[key := e.n], t.log)
  {
    PacketFacts(hist, locals, e);
    StepNewEntry(locals, t.st, PacketFor(hist, e));
  }
}
