/**
 The link layer: one packet per CAN frame. Addressing and the fragment count travel in the 29-bit
 identifier, the fragment's message id and serial number in the first two data bytes.
 */
module FlexCan {
  import opened Arithmetic
  import opened Bytes

  const CAN_DATA_MAX_LEN := 8
  const CAN_SUB_PACKET_OFFSET := 2
  const CAN_SUB_PACKET_SIZE := 6
  const CAN_DATA_TOTAL_SIZE := 1536

  datatype Result<+T> = Ok(value: T) | Error

  /** A packet handed to or taken from the bus; `data` holds the bytes that count (data[0..len)). */
  datatype Packet = Packet(
    priority: byte, sId: byte, dId: byte,
    packetId: byte, packetSN: byte, sum: byte, data: seq<byte>)

  /** A frame of the SocketCAN interface: identifier bits (bit i is id[i]) and can_dlc data bytes. */
  datatype RawFrame = Frame(id: seq<bool>, data: seq<byte>)
  type Frame = f: RawFrame | |f.id| == 32 && |f.data| <= CAN_DATA_MAX_LEN
    witness Frame([false, false, false, false, false, false, false, false,
                   false, false, false, false, false, false, false, false,
                   false, false, false, false, false, false, false, false,
                   false, false, false, false, false, false, false, false], [])

  // Flag bits of a SocketCAN identifier.
  const ERR_BIT := 29
  const EFF_BIT := 31

  /**
   The identifier assembled by the sender, low bit first: destination module (bits 0-3), source module
   (4-7), count (8-15), two unused bits, destination system (18-21), source system (22-25), priority
   (26-28), error flag, remote flag, extended-frame flag.
   */
  function Identifier(p: Packet): (id: seq<bool>)
    ensures |id| == 32
  {
    var d, s := BitsOf(p.dId), BitsOf(p.sId);
    d[..4] + s[..4] + BitsOf(p.sum) + [false, false] + d[4..] + s[4..] + BitsOf(p.priority)[..3] + [false, false, true]
  }

  lemma Halves(b: byte, n: nat, m: nat, power: nat)
    requires n + m == 8 && power == Pow2(n) && b / power < Pow2(m)
    ensures Value(BitsOf(b)[..n]) == b % power && Value(BitsOf(b)[n..]) == b / power
  {
    hide Value, Pow2, Digits;
    var lo, hi := b % power, b / power;
    Parts(b, power);
    JoinedDigits(lo, n, hi, m);
    ValueOfDigits(lo, n);
    ValueOfDigits(hi, m);
    assert BitsOf(b) == Digits(lo, n) + Digits(hi, m);
    assert BitsOf(b)[..n] == Digits(lo, n) && BitsOf(b)[n..] == Digits(hi, m);
  }

  lemma Nibbles(b: byte)
    ensures Value(BitsOf(b)[..4]) == b % 16 && Value(BitsOf(b)[4..]) == b / 16 && Value(BitsOf(b)[..3]) == b % 8
            && Value(BitsOf(b)) == b
  {
    assert Pow2(4) == 16 && Pow2(3) == 8 && Pow2(5) == 32;
    ByteOfBits(b);
    hide Value, Pow2, BitsOf;
    Halves(b, 4, 4, 16);
    Halves(b, 3, 5, 8);
  }

  lemma Ahead(s: seq<bool>, t: seq<bool>, power: nat)
    requires Pow2(|s|) == power
    ensures Value(s + t) == Value(s) + power * Value(t)
  {
    ValueOfConcat(s, t);
  }

  lemma Nibble(s: seq<bool>)
    requires |s| == 4
    ensures Pow2(|s|) == 16
  {}

  lemma UpperBits(d: seq<bool>, s: seq<bool>, c: seq<bool>, flags: seq<bool>)
    requires |d| == |s| == 4 && |c| == 3
    ensures Value(d + (s + (c + flags))) == Value(d) + 0x10 * Value(s) + 0x100 * Value(c) + 0x800 * Value(flags)
  {
    assert Pow2(|c|) == 8;
    Nibble(d);
    Nibble(s);
    hide *;
    Ahead(c, flags, 8);
    Ahead(s, c + flags, 16);
    Ahead(d, s + (c + flags), 16);
  }

  lemma LowerBits(d: seq<bool>, s: seq<bool>, u: seq<bool>, none: seq<bool>, upper: seq<bool>)
    requires |d| == |s| == 4 && |u| == 8 && |none| == 2
    ensures Value(d + (s + (u + (none + upper))))
         == Value(d) + 0x10 * Value(s) + 0x100 * Value(u) + 0x1_0000 * Value(none) + 0x4_0000 * Value(upper)
  {
    Pow2Of8();
    assert Pow2(|u|) == 256 && Pow2(|none|) == 4;
    Nibble(d);
    Nibble(s);
    hide *;
    Ahead(none, upper, 4);
    Ahead(u, none + upper, 256);
    Ahead(s, u + (none + upper), 16);
    Ahead(d, s + (u + (none + upper)), 16);
  }

  lemma Grouped(d: seq<bool>, s: seq<bool>, u: seq<bool>, none: seq<bool>, d': seq<bool>, s': seq<bool>, c: seq<bool>,
                flags: seq<bool>)
    ensures d + s + u + none + d' + s' + c + flags == d + (s + (u + (none + (d' + (s' + (c + flags))))))
  {}

  /** The identifier as the 32-bit number the sender's masks and shifts compute. */
  lemma IdentifierNumber(p: Packet)
    ensures Value(Identifier(p)) == p.dId % 16 + p.sId % 16 * 0x10 + p.sum * 0x100 + p.dId / 16 * 16 * 0x4000
                                  + p.sId / 16 * 16 * 0x4_0000 + p.priority % 8 * 0x400_0000 + 0x8000_0000
  {
    var d, s, u, c := BitsOf(p.dId), BitsOf(p.sId), BitsOf(p.sum), BitsOf(p.priority)[..3];
    var none, flags := [false, false], [false, false, true];
    assert Value(flags) == 4 && Value(none) == 0;
    Grouped(d[..4], s[..4], u, none, d[4..], s[4..], c, flags);
    assert Identifier(p) == d[..4] + s[..4] + u + none + d[4..] + s[4..] + c + flags;
    hide Value, Identifier;
    UpperBits(d[4..], s[4..], c, flags);
    LowerBits(d[..4], s[..4], u, none, d[4..] + (s[4..] + (c + flags)));
    Nibbles(p.dId);
    Nibbles(p.sId);
    Nibbles(p.sum);
    Nibbles(p.priority);
  }

  function Send(p: Packet): Result<Frame> {
    if |p.data| == 0 || |p.data| > CAN_DATA_MAX_LEN then Error
    else if p.sum == 0 then Ok(Frame(Identifier(p), p.data))
    else if |p.data| > CAN_SUB_PACKET_SIZE then Error
    else Ok(Frame(Identifier(p), [p.packetId, p.packetSN] + p.data))
  }

  function Recv(f: Frame): Result<Packet> {
    if f.id[ERR_BIT] || !f.id[EFF_BIT] then Error
    else
      var priority := FromBits(f.id[26..29] + [false, false, false, false, false]);
      var sId := FromBits(f.id[4..8] + f.id[22..26]);
      var dId := FromBits(f.id[..4] + f.id[18..22]);
      var sum := FromBits(f.id[8..16]);
      if sum == 0 then Ok(Packet(priority, sId, dId, 0, 0, 0, f.data))
      else if |f.data| < CAN_SUB_PACKET_OFFSET + 1 then Error
      else Ok(Packet(priority, sId, dId, f.data[0], f.data[1], sum, f.data[CAN_SUB_PACKET_OFFSET..]))
  }

  /** What survives the wire: the low three priority bits, and message id and serial number only in fragments. */
  function Normalized(p: Packet): Packet {
    var q := p.(priority := p.priority % 8);
    if p.sum == 0 then q.(packetId := 0, packetSN := 0) else q
  }

  /** The fields of the identifier, where the receiver looks for them. */
  lemma IdentifierFields(p: Packet)
    ensures var id := Identifier(p);
            && id[26..29] == BitsOf(p.priority)[..3] && id[8..16] == BitsOf(p.sum)
            && id[4..8] + id[22..26] == BitsOf(p.sId) && id[..4] + id[18..22] == BitsOf(p.dId)
  {
    hide Digits;
    var id, d, s := Identifier(p), BitsOf(p.dId), BitsOf(p.sId);
    assert id[4..8] == s[..4] && id[22..26] == s[4..];
    assert id[..4] == d[..4] && id[18..22] == d[4..];
  }

  /** The bytes on the wire: the packet's own, or behind the message id and the serial number. */
  lemma WireBytes(p: Packet)
    ensures Send(p).Ok? <==> 1 <= |p.data| <= if p.sum == 0 then 8 else 6
    ensures Send(p).Ok? ==>
              var f := Send(p).value;
              && Value(f.id) == Value(Identifier(p))
              && if p.sum == 0 then f.data == p.data
                 else |f.data| == |p.data| + 2 && f.data[0] == p.packetId && f.data[1] == p.packetSN
                      && forall i :: 0 <= i < |p.data| ==> f.data[i + 2] == p.data[i]
  {
    hide Identifier, Value;
  }

  /** The number that some bits of a longer one are. */
  lemma ValueOfPart(bits: seq<bool>, lo: nat, hi: nat, low: nat, size: nat)
    requires lo <= hi <= |bits| && low == Pow2(lo) && size == Pow2(hi - lo)
    ensures Value(bits[lo..hi]) == Value(bits) / low % size
  {
    var head, part, rest := bits[..lo], bits[lo..hi], bits[hi..];
    assert bits == head + (part + rest);
    hide Value, Pow2;
    ValueOfConcat(head, part + rest);
    ValueOfConcat(part, rest);
    DivideBy(Value(bits), low, Value(part + rest), Value(head));
    DivideBy(Value(part + rest), size, Value(rest), Value(part));
  }

  lemma Powers()
    ensures Pow2(0) == 1 && Pow2(1) == 2 && Pow2(3) == 8 && Pow2(4) == 0x10 && Pow2(8) == 0x100 && Pow2(18) == 0x4_0000
    ensures Pow2(22) == 0x40_0000 && Pow2(26) == 0x400_0000 && Pow2(29) == 0x2000_0000 && Pow2(31) == 0x8000_0000
  {
    assert Pow2(0) == 1 && Pow2(1) == 2 && Pow2(2) == 4 && Pow2(3) == 8 && Pow2(4) == 0x10;
    hide Pow2;
    PowerOfSum(4, 4);
    PowerOfSum(8, 8);
    PowerOfSum(16, 2);
    PowerOfSum(18, 4);
    PowerOfSum(22, 4);
    PowerOfSum(26, 3);
    PowerOfSum(29, 2);
  }

  lemma {:induction false} PowerOfSum(a: nat, b: nat)
    ensures Pow2(a + b) == Pow2(a) * Pow2(b)
  {
    if b > 0 {
      PowerOfSum(a, b - 1);
      Doubled(Pow2(a), Pow2(b - 1));
    }
  }

  lemma JoinedNibbles(lo: seq<bool>, hi: seq<bool>)
    requires |lo| == |hi| == 4
    ensures FromBits(lo + hi) == Value(lo) + 16 * Value(hi)
  {
    Nibble(lo);
    hide Value, Pow2;
    Ahead(lo, hi, 16);
  }

  lemma ThreeBits(s: seq<bool>)
    requires |s| == 3
    ensures FromBits(s + [false, false, false, false, false]) == Value(s)
  {
    var none := [false, false, false, false, false];
    assert Value(none) == 0 && Pow2(|s|) == 8;
    hide Value, Pow2;
    Ahead(s, none, 8);
  }

  lemma OneBit(bits: seq<bool>, i: nat)
    requires i < |bits|
    ensures Value(bits[i..i + 1]) == if bits[i] then 1 else 0
  {
    assert bits[i..i + 1] == [bits[i]] && [bits[i]][1..] == [];
  }

  /** What any received frame means, by the masks and shifts of its identifier as a number. */
  lemma RecvFields(f: Frame)
    ensures var id := Value(f.id);
            && (Recv(f).Ok? <==> id / 0x8000_0000 % 2 == 1 && id / 0x2000_0000 % 2 == 0
                                 && (id / 0x100 % 0x100 == 0 || |f.data| >= 3))
            && (Recv(f).Ok? ==>
                  var p := Recv(f).value;
                  && p.priority == id / 0x400_0000 % 8 && p.sum == id / 0x100 % 0x100
                  && p.sId == id / 0x10 % 0x10 + 16 * (id / 0x40_0000 % 0x10)
                  && p.dId == id % 0x10 + 16 * (id / 0x4_0000 % 0x10)
                  && if p.sum == 0 then p.packetId == p.packetSN == 0 && p.data == f.data
                     else p.packetId == f.data[0] && p.packetSN == f.data[1] && p.data == f.data[2..])
  {
    var id := f.id;
    Powers();
    hide Value, Pow2, FromBits;
    OneBit(id, 29);
    OneBit(id, 31);
    ValueOfPart(id, 29, 30, 0x2000_0000, 2);
    ValueOfPart(id, 31, 32, 0x8000_0000, 2);
    ValueOfPart(id, 26, 29, 0x400_0000, 8);
    ValueOfPart(id, 8, 16, 0x100, 0x100);
    ValueOfPart(id, 4, 8, 0x10, 0x10);
    ValueOfPart(id, 22, 26, 0x40_0000, 0x10);
    ValueOfPart(id, 0, 4, 1, 0x10);
    ValueOfPart(id, 18, 22, 0x4_0000, 0x10);
    JoinedNibbles(id[4..8], id[22..26]);
    JoinedNibbles(id[0..4], id[18..22]);
    ThreeBits(id[26..29]);
    ByteValue(id[8..16]);
    assert id[..4] == id[0..4];
  }

  lemma ByteValue(s: seq<bool>)
    requires |s| == 8
    ensures FromBits(s) == Value(s)
  {}

  lemma SendRecv(p: Packet)
    requires Send(p).Ok?
    ensures Recv(Send(p).value) == Ok(Normalized(p))
  {
    var id := Identifier(p);
    IdentifierFields(p);
    ByteOfBits(p.dId);
    ByteOfBits(p.sId);
    ByteOfBits(p.sum);
    LowThreeBits(p.priority);
    var f := Send(p).value;
    if p.sum != 0 {
      assert f.data[2..] == p.data;
    }
  }

  lemma LowThreeBits(b: byte)
    ensures FromBits(BitsOf(b)[..3] + [false, false, false, false, false]) == b % 8
  {
    LowDigits(b, 3, 5);
    ByteOfBits(b % 8);
  }

  lemma LowDigits(b: byte, n: nat, m: nat)
    requires n == 3 && m == 5
    ensures BitsOf(b % 8) == BitsOf(b)[..3] + [false, false, false, false, false]
  {
    assert Pow2(3) == 8;
    JoinedDigits(b % 8, n, b / 8, m);
    JoinedDigits(b % 8, n, 0, m);
    MoreDigits(0, 0, m);
    assert Zeros(m) == [false, false, false, false, false];
  }

  /** A packet crosses the link unchanged exactly when it is sendable and has nothing the frame cannot carry. */
  lemma CrossesUnchanged(p: Packet)
    ensures (Send(p).Ok? && Recv(Send(p).value) == Ok(p))
      <==> (0 < |p.data| <= (if p.sum == 0 then CAN_DATA_MAX_LEN else CAN_SUB_PACKET_SIZE)
            && p.priority < 8
            && (p.sum == 0 ==> p.packetId == 0 && p.packetSN == 0))
  {
    hide Identifier, Recv;
    if Send(p).Ok? {
      SendRecv(p);
    }
  }
}
