/**
 The checksum that protects every firmware packet: the CRC of section 6.2.2 of the MODBUS over
 Serial Line Specification V1.02. The byte-wise loop on machine words is proved to be the bit-serial
 shift register fed with the message bits, and what the code detects is proved about the register.
 */
module Crc16 {
  import opened Bytes

  // ----- The shift register ---------------------------------------------------------------------

  type Register = r: seq<bool> | |r| == 16 witness Zeros(16)

  const INITIAL: Register :=
    [true, true, true, true, true, true, true, true, true, true, true, true, true, true, true, true]

  /** All message bits in the order they are sent: byte by byte, low bit first. */
  function MessageBits(data: seq<byte>): (bits: seq<bool>)
    ensures |bits| == 8 * |data|
  {
    if data == [] then [] else BitsOf(data[0]) + MessageBits(data[1..])
  }

  /**
   One shift towards bit 0. The feedback is the bit that leaves plus the bit that enters; it is added
   at the taps of x^16 + x^15 + x^2 + 1, which read low bit first are the bits 0, 13 and 15.
   */
  function BitStep(r: Register, b: bool): (next: Register)
    ensures forall i :: 0 <= i < 16 ==>
      next[i] == ((if i < 15 then r[i + 1] else r[0] != b) != (r[0] != b && (i == 0 || i == 13)))
  {
    var f := r[0] != b;
    [r[1] != f] + r[2..14] + [r[14] != f, r[15], f]
  }

  function Feed(r: Register, bits: seq<bool>): Register
    decreases |bits|
  {
    if bits == [] then r else Feed(BitStep(r, bits[0]), bits[1..])
  }

  function Remainder(data: seq<byte>): Register {
    Feed(INITIAL, MessageBits(data))
  }

  lemma {:induction false} FeedConcat(r: Register, s: seq<bool>, t: seq<bool>)
    ensures Feed(r, s + t) == Feed(Feed(r, s), t)
    decreases |s|
  {
    if s == [] {
      assert s + t == t;
    } else {
      assert (s + t)[1..] == s[1..] + t;
      FeedConcat(BitStep(r, s[0]), s[1..], t);
    }
  }

  lemma {:induction false} MessageBitsConcat(a: seq<byte>, b: seq<byte>)
    ensures MessageBits(a + b) == MessageBits(a) + MessageBits(b)
  {
    if a == [] {
      assert a + b == b;
    } else {
      assert (a + b)[1..] == a[1..] + b;
      MessageBitsConcat(a[1..], b);
    }
  }

  lemma {:induction false} MessageBitsDetermine(a: seq<byte>, b: seq<byte>)
    requires |a| == |b| && MessageBits(a) == MessageBits(b)
    ensures a == b
  {
    if a != [] {
      var s, t := MessageBits(a), MessageBits(b);
      assert BitsOf(a[0]) == s[..8] == t[..8] == BitsOf(b[0]);
      assert MessageBits(a[1..]) == s[8..] == t[8..] == MessageBits(b[1..]);
      ByteOfBits(a[0]);
      ByteOfBits(b[0]);
      MessageBitsDetermine(a[1..], b[1..]);
    }
  }

  // ----- The code on machine words ------------------------------------------------------------------

  /** uint16_t; the code's `& 1` and `>> 1` are the remainder and quotient by 2. */
  type word = x: int | 0 <= x < 0x1_0000

  const POLYNOMIAL: word := 0xA001

  /** The register contents a machine word stands for. */
  function Contents(c: word): Register { Digits(c, 16) }

  function FromContents(r: Register): word {
    Pow2Of8();
    assert Pow2(12) == 0x1000;
    Value(r)
  }

  /** Exclusive or, bit by bit. */
  function Xor(c: word, d: word): word {
    FromContents(Add(Contents(c), Contents(d)))
  }

  method Crc16(data: seq<byte>) returns (crc: word)
    ensures Contents(crc) == Remainder(data) && (data == [] ==> crc == 0xFFFF)
  {
    crc := 0xFFFF;
    AllOnes(crc);
    for i := 0 to |data|
      invariant Feed(Contents(crc), MessageBits(data[i..])) == Remainder(data) && (i == 0 ==> crc == 0xFFFF)
    {
      ghost var n := |BitsOf(data[i])|;
      ghost var after := Rounds(Xor(crc, data[i]), n);
      ByteFed(crc, data, i);
      crc := Xor(crc, data[i]);
      for j := 0 to 8
        invariant Rounds(crc, n - j) == after
      {
        RoundsStep(crc, n - j);
        var tmp := crc % 2;
        crc := crc / 2;
        if tmp != 0 {
          crc := Xor(crc, POLYNOMIAL);
        }
      }
    }
  }

  lemma {:induction false} OnesDigits(v: nat, n: nat)
    requires v == Pow2(n) - 1
    ensures forall i :: 0 <= i < n ==> Digits(v, n)[i]
  {
    if n > 0 {
      OnesDigits(v / 2, n - 1);
    }
  }

  lemma AllOnes(c: word)
    requires c == 0xFFFF
    ensures Contents(c) == INITIAL
  {
    Pow2Of8();
    assert Pow2(12) == 0x1000;
    OnesDigits(c, 16);
  }

  lemma XorContents(c: word, d: word)
    ensures Contents(Xor(c, d)) == Add(Contents(c), Contents(d))
  {
    DigitsOfValue(Add(Contents(c), Contents(d)));
  }

  lemma ShiftedContents(c: word)
    ensures Contents(c / 2) == Contents(c)[1..] + [false]
  {
    assert Pow2(12) == 0x1000;
    MoreDigits(c, 16, 1);
    var digits := Digits(c, 17);
    assert digits[1..] == Digits(c / 2, 16);
    assert Zeros(1) == [false];
  }

  /** The taps of the register are the bits of the code's constant. */
  lemma Taps(n: nat)
    requires n == 12
    ensures Contents(POLYNOMIAL) == [true] + Zeros(n) + [true, false, true]
  {
    assert Pow2(12) == 0x1000;
    JoinedDigits(0, n, 5, 3);
    MoreDigits(0, 0, n);
    ThreeDigits(5);
    OddDigits(0x5000, n + 3);
    hide Digits, Pow2;
  }

  lemma {:induction false} OddDigits(v: nat, n: nat)
    ensures Digits(2 * v + 1, n + 1) == [true] + Digits(v, n)
  {
    var w := 2 * v + 1;
    assert w % 2 == 1 && w / 2 == v;
  }

  lemma ThreeDigits(v: nat)
    requires v == 5
    ensures Digits(v, 3) == [true, false, true]
  {}

  /** One round of the code's inner loop, and n of them. */
  function Round(c: word): word { if c % 2 != 0 then Xor(c / 2, POLYNOMIAL) else c / 2 }

  function Rounds(c: word, n: nat): word
    decreases n
  {
    if n == 0 then c else Rounds(Round(c), n - 1)
  }

  lemma RoundsStep(c: word, n: nat)
    requires n > 0
    ensures Rounds(c, n) == Rounds(if c % 2 != 0 then Xor(c / 2, POLYNOMIAL) else c / 2, n - 1)
  {}

  lemma StepByTaps(r: Register, taps: Register, n: nat)
    requires n == 12 && taps == [true] + Zeros(n) + [true, false, true]
    ensures BitStep(r, false) == if r[0] then Add(r[1..] + [false], taps) else r[1..] + [false]
  {}

  /** The rounds of the inner loop shift the register without input. */
  lemma {:induction false} RoundsFed(c: word, n: nat)
    ensures Contents(Rounds(c, n)) == Feed(Contents(c), Zeros(n))
    decreases n
  {
    if n > 0 {
      ZerosFrom(n);
      RoundFed(c);
      RoundsFed(Round(c), n - 1);
    }
  }

  lemma RoundFed(c: word)
    ensures Contents(Round(c)) == BitStep(Contents(c), false)
  {
    ShiftedContents(c);
    XorContents(c / 2, POLYNOMIAL);
    var n := 12;
    Taps(n);
    StepByTaps(Contents(c), Contents(POLYNOMIAL), n);
  }

  /** Adding a byte to the low half and doing eight rounds feeds all bits of the byte. */
  lemma ByteFed(c: word, data: seq<byte>, i: nat)
    requires i < |data|
    ensures Feed(Contents(c), MessageBits(data[i..])) == Feed(Contents(Rounds(Xor(c, data[i]), |BitsOf(data[i])|)),
                                                              MessageBits(data[i + 1..]))
  {
    assert data[i..][1..] == data[i + 1..];
    var bits := BitsOf(data[i]);
    XorContents(c, data[i]);
    Pow2Of8();
    MoreDigits(data[i], 8, 8);
    RoundsFed(Xor(c, data[i]), |bits|);
    LoadThenShift(Contents(c), bits);
    FeedConcat(Contents(c), bits, MessageBits(data[i + 1..]));
  }

  // ----- Linearity --------------------------------------------------------------------------------

  /** Bits added without carry: where the two sequences differ. */
  function Add(s: seq<bool>, t: seq<bool>): (sum: seq<bool>)
    requires |s| == |t|
    ensures |sum| == |s|
    ensures forall i :: 0 <= i < |s| ==> sum[i] == (s[i] != t[i])
  {
    if s == [] then [] else [s[0] != t[0]] + Add(s[1..], t[1..])
  }

  lemma SumWithItself(s: seq<bool>)
    ensures Add(s, s) == Zeros(|s|)
  {}

  lemma StepIsLinear(q: Register, r: Register, x: bool, y: bool)
    ensures BitStep(Add(q, r), x != y) == Add(BitStep(q, x), BitStep(r, y))
  {}

  lemma {:induction false} FeedIsLinear(q: Register, r: Register, s: seq<bool>, t: seq<bool>)
    requires |s| == |t|
    ensures Feed(Add(q, r), Add(s, t)) == Add(Feed(q, s), Feed(r, t))
    decreases |s|
  {
    if s != [] {
      StepIsLinear(q, r, s[0], t[0]);
      FeedIsLinear(BitStep(q, s[0]), BitStep(r, t[0]), s[1..], t[1..]);
      assert Add(s, t)[1..] == Add(s[1..], t[1..]);
    }
  }

  /** At most 16 bits as register contents. */
  function Load(bits: seq<bool>): Register
    requires |bits| <= 16
  {
    bits + Zeros(16 - |bits|)
  }

  lemma StepOfLoaded(r: Register, bits: seq<bool>)
    requires 0 < |bits| <= 16
    ensures BitStep(Add(r, Load(bits)), false) == Add(BitStep(r, bits[0]), Load(bits[1..]))
  {
    var load, rest := Load(bits), Load(bits[1..]);
    assert forall i :: 0 <= i < 16 ==> rest[i] == (i < 15 && load[i + 1]);
  }

  /** Adding all pending bits to the register and then shifting is the same as feeding them one by one. */
  lemma {:induction false} LoadThenShift(r: Register, bits: seq<bool>)
    requires |bits| <= 16
    ensures Feed(r, bits) == Feed(Add(r, Load(bits)), Zeros(|bits|))
    decreases |bits|
  {
    if bits == [] {
      assert Add(r, Load(bits)) == r;
    } else {
      StepOfLoaded(r, bits);
      ZerosFrom(|bits|);
      LoadThenShift(BitStep(r, bits[0]), bits[1..]);
    }
  }

  // ----- When the register ends at zero -----------------------------------------------------------

  predicate Blank(bits: seq<bool>) { forall i :: 0 <= i < |bits| ==> !bits[i] }

  lemma BlankStep(r: Register)
    ensures Blank(BitStep(r, false)) <==> Blank(r)
  {
    var next := BitStep(r, false);
    if Blank(next) {
      assert !next[15];
      forall i | 1 <= i < 16 ensures !r[i] {
        assert !next[i - 1];
      }
    }
  }

  lemma {:induction false} ShiftsToZero(r: Register, n: nat)
    ensures Blank(Feed(r, Zeros(n))) <==> Blank(r)
    decreases n
  {
    if n > 0 {
      ZerosFrom(n);
      BlankStep(r);
      ShiftsToZero(BitStep(r, false), n - 1);
    }
  }

  /** Up to 16 bits clear the register exactly when they are what the register held. */
  lemma ClearedBy(r: Register, bits: seq<bool>)
    requires |bits| <= 16
    ensures Blank(Feed(r, bits)) <==> r == Load(bits)
  {
    LoadThenShift(r, bits);
    var load := Load(bits);
    ShiftsToZero(Add(r, load), |bits|);
    if Blank(Add(r, load)) {
      forall i | 0 <= i < 16 ensures r[i] == load[i] {
        assert !Add(r, load)[i];
      }
    }
  }

  // ----- Detection theorems -----------------------------------------------------------------------

  lemma {:induction false} DifferenceOfRemainders(z: Register, a: seq<byte>, b: seq<byte>)
    requires |a| == |b| && Blank(z)
    ensures Feed(z, Add(MessageBits(a), MessageBits(b))) == Add(Remainder(a), Remainder(b))
  {
    assert Add(INITIAL, INITIAL) == z;
    FeedIsLinear(INITIAL, INITIAL, MessageBits(a), MessageBits(b));
  }

  /** A window of at most 16 bits surrounded by zeros leaves an empty register empty only if it is zero itself. */
  lemma WindowSeen(z: Register, before: nat, window: seq<bool>, after: nat)
    requires |window| <= 16 && Blank(z)
    requires Blank(Feed(z, Zeros(before) + (window + Zeros(after))))
    ensures Blank(window)
  {
    FeedConcat(z, Zeros(before), window + Zeros(after));
    ShiftsToZero(z, before);
    var r := Feed(z, Zeros(before));
    FeedConcat(r, window, Zeros(after));
    ShiftsToZero(Feed(r, window), after);
    ClearedBy(r, window);
    forall i | 0 <= i < |window| ensures !window[i] {
      assert window[i] == r[i];
    }
  }

  lemma DifferenceSeen(z: Register, d: seq<bool>, lo: nat, hi: nat)
    requires lo <= hi <= |d| && hi <= lo + 16 && Blank(z)
    requires forall i :: 0 <= i < |d| && !(lo <= i < hi) ==> !d[i]
    requires Blank(Feed(z, d))
    ensures Blank(d)
  {
    var window := d[lo..hi];
    assert d[..lo] == Zeros(lo) && d[hi..] == Zeros(|d| - hi);
    assert d == d[..lo] + (window + d[hi..]);
    WindowSeen(z, lo, window, |d| - hi);
    forall i | 0 <= i < |d| ensures !d[i] {
      if lo <= i < hi {
        assert !window[i - lo];
      }
    }
  }

  /** Equal-length messages that differ, but only within some 16 consecutive bits, never share a checksum. */
  lemma BurstDetected(a: seq<byte>, b: seq<byte>, p: nat)
    requires |a| == |b| && a != b
    requires forall i :: 0 <= i < 8 * |a| && !(p <= i < p + 16) ==> MessageBits(a)[i] == MessageBits(b)[i]
    ensures Remainder(a) != Remainder(b)
  {
    var s, t := MessageBits(a), MessageBits(b);
    if Remainder(a) == Remainder(b) {
      var d := Add(s, t);
      var z := Zeros(|Remainder(a)|);
      DifferenceOfRemainders(z, a, b);
      DifferenceSeen(z, d, if p < |d| then p else |d|, if p + 16 < |d| then p + 16 else |d|);
      forall i | 0 <= i < |s| ensures s[i] == t[i] {
        assert !d[i];
      }
      MessageBitsDetermine(a, b);
    }
  }

  /** Whether the number of set bits is odd. */
  function Odd(bits: seq<bool>): bool {
    if bits == [] then false else bits[0] != Odd(bits[1..])
  }

  lemma {:induction false} OddOfSum(s: seq<bool>, t: seq<bool>)
    requires |s| == |t|
    ensures Odd(Add(s, t)) == (Odd(s) != Odd(t))
  {
    if s != [] {
      OddOfSum(s[1..], t[1..]);
      assert Add(s, t)[1..] == Add(s[1..], t[1..]);
    }
  }

  lemma {:induction false} OddAppend(s: seq<bool>, b: bool)
    ensures Odd(s + [b]) == (Odd(s) != b)
  {
    if s == [] {
      assert [b][1..] == [];
    } else {
      assert (s + [b])[1..] == s[1..] + [b];
      OddAppend(s[1..], b);
    }
  }

  lemma {:induction false} OddOfZeros(n: nat)
    ensures !Odd(Zeros(n))
  {
    if n > 0 {
      ZerosFrom(n);
      OddOfZeros(n - 1);
    }
  }

  lemma StepParity(r: Register, b: bool)
    ensures Odd(BitStep(r, b)) == (Odd(r) != b)
  {
    var f := r[0] != b;
    var shifted := r[1..] + [f];
    OddAppend(r[1..], f);
    var taps := [f] + (Zeros(12) + [f]) + Zeros(2);
    assert BitStep(r, b) == Add(shifted, taps);
    OddOfSum(shifted, taps);
    assert !Odd(taps) by {
      OddOfZeros(12);
      OddAppend(Zeros(12), f);
      var t1 := [f] + (Zeros(12) + [f]);
      assert t1[1..] == Zeros(12) + [f];
      OddAppend(t1, false);
      OddAppend(t1 + [false], false);
      assert taps == t1 + [false] + [false];
    }
  }

  lemma {:induction false} ParityIsKept(r: Register, bits: seq<bool>)
    ensures Odd(Feed(r, bits)) == (Odd(r) != Odd(bits))
    decreases |bits|
  {
    if bits != [] {
      StepParity(r, bits[0]);
      ParityIsKept(BitStep(r, bits[0]), bits[1..]);
    }
  }

  /** Every change of an odd number of bits is detected, however far apart they lie. */
  lemma OddErrorDetected(a: seq<byte>, b: seq<byte>)
    requires |a| == |b|
    requires Odd(Add(MessageBits(a), MessageBits(b)))
    ensures Remainder(a) != Remainder(b)
  {
    var n := |Remainder(a)|;
    DifferenceOfRemainders(Zeros(n), a, b);
    ParityIsKept(Zeros(n), Add(MessageBits(a), MessageBits(b)));
    OddOfZeros(n);
    SumWithItself(Remainder(a));
  }

  function LowByte(r: Register): byte { FromBits(r[..8]) }
  function HighByte(r: Register): byte { FromBits(r[8..]) }

  /** A message followed by two bytes leaves remainder zero exactly when they are its checksum, low byte first. */
  lemma ResidueIsZero(data: seq<byte>, x: byte, y: byte)
    ensures Blank(Remainder(data + [x, y])) <==> x == LowByte(Remainder(data)) && y == HighByte(Remainder(data))
  {
    var r := Remainder(data);
    var s, t := BitsOf(x), BitsOf(y);
    MessageBitsConcat(data, [x, y]);
    assert MessageBits([x, y]) == s + t by {
      assert [x, y][1..] == [y] && [y][1..] == [];
    }
    FeedConcat(INITIAL, MessageBits(data), s + t);
    ClearedBy(r, s + t);
    assert s + t + Zeros(0) == s + t;
    assert r == r[..8] + r[8..];
    if r == s + t {
      assert r[..8] == s && r[8..] == t;
    }
    ByteOfBits(x);
    ByteOfBits(y);
    BitsOfByte(r[..8]);
    BitsOfByte(r[8..]);
  }

  /** The word of the two bytes is the register. */
  lemma WordOfBytes(r: Register)
    ensures Contents(0x100 * HighByte(r) + LowByte(r)) == r
  {
    var lo, hi := LowByte(r), HighByte(r);
    Pow2Of8();
    JoinedDigits(lo, 8, hi, 8);
    BitsOfByte(r[..8]);
    BitsOfByte(r[8..]);
    assert r == r[..8] + r[8..];
  }

  /** The two bytes of the machine word are the two bytes of the register. */
  lemma BytesOfWord(c: word)
    ensures c % 256 == LowByte(Contents(c)) && c / 256 == HighByte(Contents(c))
  {
    var lo, hi := c % 256, c / 256;
    Pow2Of8();
    assert Pow2(12) == 0x1000;
    JoinedDigits(lo, 8, hi, 8);
    assert Contents(c)[..8] == BitsOf(lo) && Contents(c)[8..] == BitsOf(hi);
    ByteOfBits(lo);
    ByteOfBits(hi);
  }
}
