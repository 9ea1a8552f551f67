/**
 How late a fragment may come: the limits of the two theorems about reordered fragments cannot be raised.
 */
module ReachLimits {
  import opened Bytes
  import opened FlexCan
  import opened Fragmentation
  import opened Options
  import opened Reassembly
  import opened Transport
  import opened Runs
  import opened WrapSafety

  // ----- A fragment that comes 129 messages late ---------------------------------------------------------

  /** Message 129, then a fragment of message 0, and then the messages from 130 to n, each by its first fragment. */
  function Straggler(s: byte, n: nat): seq<Event>
    requires n >= 129
  {
    if n == 129 then [Part(s, 129, 0), Part(s, 0, 0)] else Straggler(s, n - 1) + [Part(s, n, 0)]
  }

  /** All messages up to number n go to this device. */
  predicate AllSent(hist: History, s: byte, n: nat) { forall k :: 0 <= k <= n ==> WasSent(hist, s, k) }

  lemma FirstFragmentSent(hist: History, locals: set<byte>, s: byte, n: nat)
    requires GoodHistory(hist, locals) && WasSent(hist, s, n)
    ensures Sent(hist, Part(s, n, 0))
  {
    assert GoodMessage(MessageOf(hist, s, n), s, locals);
  }

  lemma {:induction false} StragglerRuns(hist: History, locals: set<byte>, s: byte, n: nat)
    requires GoodHistory(hist, locals) && 129 <= n && AllSent(hist, s, n)
    ensures Admissible(hist, locals, Straggler(s, n), 130) && Begun(Straggler(s, n), s) == n + 1
  {
    FirstFragmentSent(hist, locals, s, n);
    if n == 129 {
      FirstFragmentSent(hist, locals, s, 0);
      var one, two := [Part(s, 129, 0)], [Part(s, 129, 0), Part(s, 0, 0)];
      assert one[..0] == [] && two[..1] == one && [] + [one[0]] == one && one + [two[1]] == two;
      BegunNext([], one[0], s);
      BegunNext(one, two[1], s);
      hide Sent;
      assert Allowed(hist, locals, [], one[0], 130) && Admissible(hist, locals, one, 130);
    } else {
      var es, e := Straggler(s, n - 1), Part(s, n, 0);
      StragglerRuns(hist, locals, s, n - 1);
      BegunNext(es, e, s);
      if e in es {
        HeardHasBegun(es, s, n, 0);
      }
      hide Straggler, Sent, Begun;
      AdmissibleNext(hist, locals, es, e, 130);
    }
  }

  lemma AdmissibleNext(hist: History, locals: set<byte>, es: seq<Event>, e: Event, reach: nat)
    requires Admissible(hist, locals, es, reach) && Allowed(hist, locals, es, e, reach)
    ensures Admissible(hist, locals, es + [e], reach)
  {
    assert (es + [e])[..|es|] == es;
  }

  lemma OtherIds(start: nat, n: nat)
    requires 129 <= n <= 255
    ensures (start + n) % 256 != start % 256 == (start + 256) % 256
    ensures n > 129 ==> ((start + n) % 256 + TIME_OUT_ID) % 256 != start % 256
  {}

  /** Message 0 finds no entry under its id and starts one. */
  lemma StragglerStarts(hist: History, locals: set<byte>, s: byte, one: seq<Event>, two: seq<Event>)
    requires GoodHistory(hist, locals) && WasSent(hist, s, 0) && WasSent(hist, s, 129)
    requires one == [Part(s, 129, 0)] && two == one + [Part(s, 0, 0)] && forall e :: e in two ==> Sent(hist, e)
    ensures var t, key := Follow(hist, locals, two), (s, IdOf(hist, s, 0)); key in t.owner && t.owner[key] == 0
  {
    OtherIds(hist[s].start, 129);
    assert KeyFor(hist, two[0]) != KeyFor(hist, two[1]) == (s, IdOf(hist, s, 0));
    assert [] + [one[0]] == one && Follow(hist, locals, []) == NOTHING_YET;
    hide Follow, Sent, KeyFor, NamedStep, PacketFor;
    FollowNext(hist, locals, one, two[1]);
    FollowNext(hist, locals, [], one[0]);
    NamedStart(hist, locals, NOTHING_YET, one[0]);
    NamedStart(hist, locals, Follow(hist, locals, one), two[1]);
  }

  lemma OtherKeys(hist: History, s: byte, n: nat)
    requires 129 < n <= 255 && WasSent(hist, s, n) && Sent(hist, Part(s, n, 0))
    ensures Numbered(hist, s, 0)
    ensures var key, own := (s, IdOf(hist, s, 0)), KeyFor(hist, Part(s, n, 0)); own != key && StaleKey(own) != key
  {
    OtherIds(hist[s].start, n);
  }

  /** The entry of message 0 is not evicted before its id comes round again. */
  lemma {:induction false} StragglerStays(hist: History, locals: set<byte>, s: byte, n: nat)
    requires GoodHistory(hist, locals) && 129 <= n <= 255 && AllSent(hist, s, n) && WasSent(hist, s, 0)
    requires forall e :: e in Straggler(s, n) ==> Sent(hist, e)
    ensures var t, key := Follow(hist, locals, Straggler(s, n)), (s, IdOf(hist, s, 0));
            key in t.owner && t.owner[key] == 0
  {
    if n == 129 {
      StragglerStarts(hist, locals, s, [Part(s, 129, 0)], [Part(s, 129, 0)] + [Part(s, 0, 0)]);
      assert Straggler(s, n) == [Part(s, 129, 0)] + [Part(s, 0, 0)];
    } else {
      var es, e, key := Straggler(s, n - 1), Part(s, n, 0), (s, IdOf(hist, s, 0));
      FollowNext(hist, locals, es, e);
      StragglerStays(hist, locals, s, n - 1);
      hide *;
      OtherKeys(hist, s, n);
      OwnerStays(hist, locals, Follow(hist, locals, es), e, key);
    }
  }

  lemma OwnerStays(hist: History, locals: set<byte>, t: Named, e: Event, key: Key)
    requires e.Part? && Sent(hist, e) && key in t.owner
    requires KeyFor(hist, e) != key && StaleKey(KeyFor(hist, e)) != key
    ensures var next := NamedStep(hist, locals, t, e); key in next.owner && next.owner[key] == t.owner[key]
  {
    hide Step, PacketFor, Completes;
  }

  /** With a reach of 130 fragments of different messages can meet in one entry, though no message is lost whole. */
  lemma StragglerMixes(hist: History, locals: set<byte>, s: byte)
    requires GoodHistory(hist, locals) && AllSent(hist, s, 256)
    ensures Admissible(hist, locals, Straggler(s, 256), 130) && !NeverMixes(hist, locals, Straggler(s, 256))
  {
    var es, n := Straggler(s, 255), 256;
    StragglerRuns(hist, locals, s, n);
    var e := Part(s, n, 0);
    assert Straggler(s, n) == es + [e];
    FollowNext(hist, locals, es, e);
    StragglerStays(hist, locals, s, 255);
    OtherIds(hist[s].start, 129);
    assert (es + [e])[..|es|] == es;
    hide Follow, Straggler, Sent, Admissible;
    assert Mixes(hist, Follow(hist, locals, es), e);
  }

  // ----- The limits ------------------------------------------------------------------------------------

  /** No run with this reach ever mixes two messages. */
  ghost predicate Safe(locals: set<byte>, reach: nat) {
    forall hist: History, es: seq<Event> :: GoodHistory(hist, locals) && Admissible(hist, locals, es, reach) ==>
      NeverMixes(hist, locals, es)
  }

  /** In every run with this reach exactly the complete messages are assembled. */
  ghost predicate Complete(locals: set<byte>, reach: nat) {
    forall hist: History, es: seq<Event>, s: byte, n: nat ::
      GoodHistory(hist, locals) && Admissible(hist, locals, es, reach) ==>
        (Queued(Follow(hist, locals, es), s, n) <==> AllArrived(hist, es, s, n))
  }

  function Repeated(msg: Message, n: nat): (ms: seq<Option<Message>>)
    ensures |ms| == n && forall i :: 0 <= i < n ==> ms[i] == Some(msg)
  {
    if n == 0 then [] else Repeated(msg, n - 1) + [Some(msg)]
  }

  /** A source that sends one message of two frames over and over. */
  function Monotone(d: byte, n: nat): History {
    map[0 := Source(0, Repeated(Message(0, 0, d, [0, 0, 0, 0, 0, 0, 0, 0, 0]), n))]
  }

  lemma MonotoneIsGood(locals: set<byte>, d: byte, n: nat)
    requires d in locals
    ensures GoodHistory(Monotone(d, n), locals)
    ensures forall k: nat :: k < n ==>
              WasSent(Monotone(d, n), 0, k) && FragmentCount(|MessageOf(Monotone(d, n), 0, k).data|) == 2
  {}

  lemma SafeExactlyUpTo129(locals: set<byte>, reach: nat)
    requires locals != {}
    ensures Safe(locals, reach) <==> reach <= 129
  {
    if reach <= 129 {
      forall hist: History, es: seq<Event> | GoodHistory(hist, locals) && Admissible(hist, locals, es, reach)
        ensures NeverMixes(hist, locals, es)
      {
        AdmissibleFurther(hist, locals, es, reach, 129);
        AdmissibleIsMixFree(hist, locals, es);
      }
    } else {
      var d :| d in locals;
      var n := 257;
      var hist := Monotone(d, n);
      MonotoneIsGood(locals, d, n);
      StragglerMixes(hist, locals, 0);
      AdmissibleFurther(hist, locals, Straggler(0, 256), 130, reach);
    }
  }

  lemma CompleteExactlyUpTo127(locals: set<byte>, reach: nat)
    requires locals != {}
    ensures Complete(locals, reach) <==> reach <= 127
  {
    if reach <= 127 {
      forall hist: History, es: seq<Event>, s: byte, n: nat |
        GoodHistory(hist, locals) && Admissible(hist, locals, es, reach)
        ensures Queued(Follow(hist, locals, es), s, n) <==> AllArrived(hist, es, s, n)
      {
        AdmissibleFurther(hist, locals, es, reach, 127);
        AssembledExactlyWhenArrived(hist, locals, es, s, n);
      }
    } else {
      var d :| d in locals;
      var n := 128;
      var hist := Monotone(d, n);
      MonotoneIsGood(locals, d, n);
      LateMessageEvicts(hist, locals, 0);
      AdmissibleFurther(hist, locals, [Part(0, 127, 0), Part(0, 0, 0), Part(0, 127, 1)], 128, reach);
    }
  }
}
