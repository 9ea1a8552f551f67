/** Unsigned 8-bit values, the unit in which every part of the updater moves data. */
module Bytes {

  type byte = x: int | 0 <= x < 256

  /** Unsigned 32-bit values. */
  type u32 = x: int | 0 <= x < 0x1_0000_0000

  /** An unsigned 32-bit word held in a signed one. */
  function AsInt(n: nat): (i: int)
    ensures n < 0x1_0000_0000 ==> -0x8000_0000 <= i < 0x8000_0000 && (i == n || i + 0x1_0000_0000 == n)
  {
    if n < 0x8000_0000 then n else n - 0x1_0000_0000
  }

  /** Addition of signed words as the machine does it. */
  function Wrap(x: int): int { AsInt(x % 0x1_0000_0000) }

  function Pow2(n: nat): (p: nat)
    ensures p > 0
  {
    if n == 0 then 1 else 2 * Pow2(n - 1)
  }

  /** The n lowest bits of v, low bit first. */
  function Digits(v: nat, n: nat): (bits: seq<bool>)
    ensures |bits| == n
  {
    if n == 0 then [] else [v % 2 == 1] + Digits(v / 2, n - 1)
  }

  function Value(bits: seq<bool>): (v: nat)
    ensures v < Pow2(|bits|)
  {
    if bits == [] then 0 else (if bits[0] then 1 else 0) + 2 * Value(bits[1..])
  }

  lemma {:induction false} ValueOfDigits(v: nat, n: nat)
    requires v < Pow2(n)
    ensures Value(Digits(v, n)) == v
  {
    if n > 0 {
      ValueOfDigits(v / 2, n - 1);
      assert Digits(v, n)[1..] == Digits(v / 2, n - 1);
    }
  }

  lemma {:induction false} DigitsOfValue(bits: seq<bool>)
    ensures Digits(Value(bits), |bits|) == bits
  {
    if bits != [] {
      DigitsOfValue(bits[1..]);
      assert Value(bits) / 2 == Value(bits[1..]);
    }
  }

  function Zeros(n: nat): (z: seq<bool>)
    ensures |z| == n && forall i :: 0 <= i < n ==> !z[i]
  {
    if n == 0 then [] else Zeros(n - 1) + [false]
  }

  lemma ZerosFrom(n: nat)
    requires n > 0
    ensures Zeros(n)[0] == false && Zeros(n)[1..] == Zeros(n - 1)
  {}

  lemma {:induction false} MoreDigits(v: nat, n: nat, k: nat)
    requires v < Pow2(n)
    ensures Digits(v, n + k) == Digits(v, n) + Zeros(k)
  {
    if n > 0 {
      MoreDigits(v / 2, n - 1, k);
    } else if k > 0 {
      MoreDigits(0, 0, k - 1);
      ZerosFrom(k);
    }
  }

  lemma {:induction false} JoinedDigits(lo: nat, n: nat, hi: nat, m: nat)
    requires lo < Pow2(n)
    ensures Digits(lo + Pow2(n) * hi, n + m) == Digits(lo, n) + Digits(hi, m)
  {
    if n > 0 {
      var half := Pow2(n - 1) * hi;
      Doubled(Pow2(n - 1), hi);
      HalfOf(lo, half);
      assert lo / 2 < Pow2(n - 1) && Pow2(n) * hi == 2 * half;
      hide Pow2;
      JoinedDigits(lo / 2, n - 1, hi, m);
    }
  }

  lemma HalfOf(lo: nat, half: nat)
    ensures (lo + 2 * half) / 2 == lo / 2 + half && (lo + 2 * half) % 2 == lo % 2
  {}

  lemma {:induction false} ValueOfConcat(s: seq<bool>, t: seq<bool>)
    ensures Value(s + t) == Value(s) + Pow2(|s|) * Value(t)
  {
    if s == [] {
      assert s + t == t;
    } else {
      assert (s + t)[1..] == s[1..] + t;
      var whole, rest, power, high := Value(s + t), Value(s[1..] + t), Pow2(|s| - 1), Value(t);
      assert whole == (if s[0] then 1 else 0) + 2 * rest;
      ValueOfConcat(s[1..], t);
      Doubled(power, high);
    }
  }

  lemma Doubled(a: nat, b: nat)
    ensures 2 * (a * b) == 2 * a * b
  {}

  lemma Pow2Of8()
    ensures Pow2(8) == 256
  {
    assert Pow2(4) == 16;
  }

  /** The bits of a byte, low bit first: the order in which a serial line sends them. */
  function BitsOf(b: byte): seq<bool> { Digits(b, 8) }

  function FromBits(s: seq<bool>): byte
    requires |s| == 8
  {
    Pow2Of8();
    Value(s)
  }

  lemma ByteOfBits(b: byte)
    ensures FromBits(BitsOf(b)) == b
  {
    Pow2Of8();
    ValueOfDigits(b, 8);
  }

  lemma BitsOfByte(s: seq<bool>)
    requires |s| == 8
    ensures BitsOf(FromBits(s)) == s
  {
    DigitsOfValue(s);
  }
}
