/** Facts about rearranged sequences. */
module Sequences {

  lemma {:induction false} TwiceIn<T>(s: seq<T>, x: T) returns (i: nat, j: nat)
    requires multiset(s)[x] >= 2
    ensures i < j < |s| && s[i] == s[j] == x
  {
    assert s == [s[0]] + s[1..];
    if s[0] == x {
      assert x in multiset(s[1..]);
      var k :| 0 <= k < |s[1..]| && s[1..][k] == x;
      i, j := 0, k + 1;
    } else {
      i, j := TwiceIn(s[1..], x);
      i, j := i + 1, j + 1;
    }
  }

  /** If an element occurs twice in a sequence, it occurs twice in every rearrangement. */
  lemma RepeatedInBoth<T>(s: seq<T>, t: seq<T>, i: nat, j: nat) returns (k: nat, l: nat)
    requires multiset(s) == multiset(t) && i < j < |s| && s[i] == s[j]
    ensures k < l < |t| && t[k] == t[l] == s[i]
  {
    assert s == s[..j] + [s[j]] + s[j + 1..];
    assert s[..j][i] == s[j];
    k, l := TwiceIn(t, s[i]);
  }

  lemma InBoth<T>(s: seq<T>, t: seq<T>, i: nat) returns (k: nat)
    requires multiset(s) == multiset(t) && i < |s|
    ensures k < |t| && t[k] == s[i]
  {
    assert s[i] in multiset(t);
    k :| 0 <= k < |t| && t[k] == s[i];
  }

  /** Two places of a sequence have their elements at two places of every rearrangement. */
  lemma PairInBoth<T>(s: seq<T>, t: seq<T>, i: nat, j: nat) returns (k: nat, l: nat)
    requires multiset(s) == multiset(t) && i < |s| && j < |s| && i != j
    ensures k < |t| && l < |t| && k != l && t[k] == s[i] && t[l] == s[j]
  {
    if s[i] == s[j] {
      k, l := RepeatedInBoth(s, t, if i < j then i else j, if i < j then j else i);
    } else {
      k := InBoth(s, t, i);
      l := InBoth(s, t, j);
    }
  }

  lemma DropLast<T>(s: seq<T>, t: seq<T>)
    requires s != [] && t != [] && multiset(s) == multiset(t) && s[|s| - 1] == t[|t| - 1]
    ensures multiset(s[..|s| - 1]) == multiset(t[..|t| - 1])
  {
    WithoutLast(s);
    WithoutLast(t);
  }

  lemma WithoutLast<T>(s: seq<T>)
    requires s != []
    ensures multiset(s[..|s| - 1]) == multiset(s) - multiset{s[|s| - 1]}
  {
    assert s == s[..|s| - 1] + [s[|s| - 1]];
  }
}
