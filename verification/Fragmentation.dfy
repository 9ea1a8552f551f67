/**
 The sending half of the CAN transport: a message longer than one frame is cut into 6-byte fragments
 that share a wrapping 8-bit id.
 */
module Fragmentation {
  import opened Bytes
  import opened FlexCan

  datatype Message = Message(priority: byte, srcId: byte, dstId: byte, data: seq<byte>)

  /** The largest message whose fragment count fits the sender's uint8_t. */
  const MAX_MESSAGE := 1530

  function FragmentCount(len: nat): nat { (len + CAN_SUB_PACKET_SIZE - 1) / CAN_SUB_PACKET_SIZE }

  /** Where the first n fragments end. */
  function SliceEnd(data: seq<byte>, n: nat): (end: nat)
    ensures end <= |data|
  {
    if CAN_SUB_PACKET_SIZE * n <= |data| then CAN_SUB_PACKET_SIZE * n else |data|
  }

  /** The bytes of fragment i: six of them, or what is left. */
  function Slice(data: seq<byte>, i: nat): (s: seq<byte>)
    requires i < FragmentCount(|data|)
    ensures 0 < |s| <= CAN_SUB_PACKET_SIZE
  {
    data[SliceEnd(data, i)..SliceEnd(data, i + 1)]
  }

  predicate Fragmented(msg: Message) {
    CAN_DATA_MAX_LEN < |msg.data| <= MAX_MESSAGE
  }

  function Fragment(msg: Message, id: byte, i: nat): (p: Packet)
    requires Fragmented(msg) && i < FragmentCount(|msg.data|)
    ensures Send(p).Ok?
  {
    Packet(msg.priority, msg.srcId, msg.dstId, id, i, FragmentCount(|msg.data|) - 1, Slice(msg.data, i))
  }

  /** The first n fragments of a message. */
  function FirstFragments(msg: Message, id: byte, n: nat): (ps: seq<Packet>)
    requires Fragmented(msg) && n <= FragmentCount(|msg.data|)
    ensures |ps| == n
    ensures forall i :: 0 <= i < n ==> ps[i] == Fragment(msg, id, i)
  {
    if n == 0 then [] else FirstFragments(msg, id, n - 1) + [Fragment(msg, id, n - 1)]
  }

  function Fragments(msg: Message, id: byte): seq<Packet>
    requires Fragmented(msg)
  {
    FirstFragments(msg, id, FragmentCount(|msg.data|))
  }

  /** The packets a message becomes; an empty message cannot be sent at all. */
  function PacketsOf(msg: Message, id: byte): seq<Packet>
    requires |msg.data| <= MAX_MESSAGE
  {
    if Fragmented(msg) then Fragments(msg, id)
    else if msg.data == [] then []
    else [Packet(msg.priority, msg.srcId, msg.dstId, 0, 0, 0, msg.data)]
  }

  function FramesOf(ps: seq<Packet>): (fs: seq<Frame>)
    requires forall p :: p in ps ==> Send(p).Ok?
    ensures |fs| == |ps|
    ensures forall i :: 0 <= i < |ps| ==> fs[i] == Send(ps[i]).value
  {
    if ps == [] then [] else FramesOf(ps[..|ps| - 1]) + [Send(ps[|ps| - 1]).value]
  }

  lemma PacketsSendable(msg: Message, id: byte)
    requires |msg.data| <= MAX_MESSAGE
    ensures forall p :: p in PacketsOf(msg, id) ==> Send(p).Ok?
  {
    forall p | p in PacketsOf(msg, id) ensures Send(p).Ok? {
      if Fragmented(msg) {
        var i :| 0 <= i < |Fragments(msg, id)| && Fragments(msg, id)[i] == p;
      }
    }
  }

  function WireImage(msg: Message, id: byte): seq<Frame>
    requires |msg.data| <= MAX_MESSAGE
  {
    PacketsSendable(msg, id);
    FramesOf(PacketsOf(msg, id))
  }

  lemma ImageAt(msg: Message, id: byte)
    requires Fragmented(msg)
    ensures |WireImage(msg, id)| == FragmentCount(|msg.data|) && 2 <= FragmentCount(|msg.data|) <= 255
    ensures forall i :: 0 <= i < FragmentCount(|msg.data|) ==>
              Send(Fragment(msg, id, i)).Ok? && WireImage(msg, id)[i] == Send(Fragment(msg, id, i)).value
  {}

  /** What a long message looks like on the wire: id, serial number, and its next six bytes or what is left. */
  lemma LongMessageOnWire(msg: Message, id: byte, i: nat)
    requires 8 < |msg.data| <= 1530 && 6 * i < |msg.data|
    ensures var image := WireImage(msg, id); var left := |msg.data| - 6 * i; var size := if left < 6 then left else 6;
            && 6 * (|image| - 1) < |msg.data| <= 6 * |image| && i < |image|
            && image[i].data == [id, i] + msg.data[6 * i..6 * i + size]
            && Recv(image[i]).Ok? && Recv(image[i]).value.sum == |image| - 1
            && Recv(image[i]).value.sId == msg.srcId && Recv(image[i]).value.dId == msg.dstId
  {
    FragmentParts(msg, id, i);
    var p := Fragment(msg, id, i);
    hide *;
    ImageAt(msg, id);
    WireBytes(p);
    SendRecv(p);
    Headed(Send(p).value.data, id, i, p.data);
    NormalFields(p);
  }

  lemma FragmentParts(msg: Message, id: byte, i: nat)
    requires 8 < |msg.data| <= 1530 && 6 * i < |msg.data|
    ensures var num := FragmentCount(|msg.data|);
            && Fragmented(msg) && i < num <= 255 && 6 * (num - 1) < |msg.data| <= 6 * num
            && var p, left := Fragment(msg, id, i), |msg.data| - 6 * i;
               && p.data == msg.data[6 * i..6 * i + if left < 6 then left else 6] && p.sum == num - 1 != 0
               && p.packetId == id && p.packetSN == i && p.sId == msg.srcId && p.dId == msg.dstId
  {
    CountIs(|msg.data|, i);
    hide FragmentCount;
  }

  lemma Headed(d: seq<byte>, a: byte, b: byte, rest: seq<byte>)
    requires |d| == |rest| + 2 && d[0] == a && d[1] == b && forall k :: 0 <= k < |rest| ==> d[k + 2] == rest[k]
    ensures d == [a, b] + rest
  {}

  lemma NormalFields(p: Packet)
    ensures Normalized(p).sum == p.sum && Normalized(p).sId == p.sId && Normalized(p).dId == p.dId
  {}

  lemma CountIs(len: nat, i: nat)
    requires 6 * i < len
    ensures 6 * (FragmentCount(len) - 1) < len <= 6 * FragmentCount(len) && i < FragmentCount(len)
  {}

  /** What a short message looks like: one frame with its bytes; an empty one cannot be sent. */
  lemma ShortMessageOnWire(msg: Message, id: byte)
    requires |msg.data| <= 8
    ensures var image := WireImage(msg, id);
            if msg.data == [] then image == []
            else |image| == 1 && image[0].data == msg.data && Recv(image[0]).Ok?
                 && Recv(image[0]).value.sum == 0 && Recv(image[0]).value.priority == msg.priority % 8
                 && Recv(image[0]).value.sId == msg.srcId && Recv(image[0]).value.dId == msg.dstId
  {
    if msg.data != [] {
      var p := Packet(msg.priority, msg.srcId, msg.dstId, 0, 0, 0, msg.data);
      WireBytes(p);
      SendRecv(p);
      hide Identifier, Recv;
      assert PacketsOf(msg, id) == [p];
      assert [p][..0] == [];
      assert FramesOf([p]) == [Send(p).value];
    }
  }

  /** How many bytes the code copies into the 8-byte buffer of the last fragment, with its 8-bit count. */
  function LastCopy(len: nat): int {
    len - (FragmentCount(len) % 256 - 1) * CAN_SUB_PACKET_SIZE
  }

  /** The last fragment fits its buffer exactly up to 1530 bytes; beyond, the count has wrapped. */
  lemma SenderDomain(len: nat)
    requires CAN_DATA_MAX_LEN < len
    ensures 0 < LastCopy(len) <= CAN_DATA_MAX_LEN <==> len <= MAX_MESSAGE
  {}

  /** The payloads of packets one after the other. */
  function Joined(ps: seq<Packet>): seq<byte> {
    if ps == [] then [] else Joined(ps[..|ps| - 1]) + ps[|ps| - 1].data
  }

  lemma {:induction false} JoinedFragments(msg: Message, id: byte, n: nat)
    requires Fragmented(msg) && n <= FragmentCount(|msg.data|)
    ensures Joined(FirstFragments(msg, id, n)) == msg.data[..SliceEnd(msg.data, n)]
  {
    if n > 0 {
      JoinedFragments(msg, id, n - 1);
      var ps := FirstFragments(msg, id, n);
      assert ps == FirstFragments(msg, id, n - 1) + [Fragment(msg, id, n - 1)];
      SliceExtends(msg.data, n - 1);
      assert ps[n - 1].data == Slice(msg.data, n - 1);
      hide FirstFragments, Fragment, Slice, SliceEnd, FragmentCount;
      assert ps[..n - 1] == FirstFragments(msg, id, n - 1);
    }
  }

  lemma SliceExtends(data: seq<byte>, i: nat)
    requires i < FragmentCount(|data|)
    ensures data[..SliceEnd(data, i)] + Slice(data, i) == data[..SliceEnd(data, i + 1)]
  {}

  /** The fragments of a message carry exactly its bytes. */
  lemma FragmentsCarryMessage(msg: Message, id: byte)
    requires Fragmented(msg)
    ensures Joined(Fragments(msg, id)) == msg.data
  {
    JoinedFragments(msg, id, FragmentCount(|msg.data|));
  }

  /** The number of fragments as the code computes it, in a uint8_t. */
  function CountByte(len: nat): (num: byte)
    ensures len <= MAX_MESSAGE ==> num == FragmentCount(len)
  {
    (if len % CAN_SUB_PACKET_SIZE == 0 then len / CAN_SUB_PACKET_SIZE else len / CAN_SUB_PACKET_SIZE + 1) % 256
  }

  lemma FragmentAt(msg: Message, id: byte, i: nat)
    requires Fragmented(msg) && i < FragmentCount(|msg.data|)
    ensures var from := CAN_SUB_PACKET_SIZE * i;
            var size := if i < FragmentCount(|msg.data|) - 1 then CAN_SUB_PACKET_SIZE else |msg.data| - from;
            0 < size <= |msg.data| - from
            && Fragment(msg, id, i) == Packet(msg.priority, msg.srcId, msg.dstId, id, i, FragmentCount(|msg.data|) - 1,
                                              msg.data[from..from + size])
  {}

  lemma OneMore<T>(before: seq<T>, image: seq<T>, i: nat)
    requires i < |image|
    ensures before + image[..i] + [image[i]] == before + image[..i + 1]
  {}

  class Sender {
    var packetsId: byte
    var wire: seq<Frame>

    constructor ()
      ensures packetsId == 0 && wire == []
    {
      packetsId, wire := 0, [];
    }

    /** Writes one frame; the interface accepts it while `budget` is not used up. */
    method Write(p: Packet, budget: nat) returns (ok: bool, left: nat)
      modifies this`wire
      ensures ok == (Send(p).Ok? && budget > 0)
      ensures wire == if ok then old(wire) + [Send(p).value] else old(wire)
      ensures left == if ok then budget - 1 else budget
    {
      var r := Send(p);
      ok, left := false, budget;
      if r.Ok? && budget > 0 {
        wire := wire + [r.value];
        ok, left := true, budget - 1;
      }
    }

    /**
     Sends a message; `budget` is the number of frame writes that succeed before one fails. What reaches
     the wire is a prefix of the frames of the message, all of them exactly when the call succeeds.
     */
    method SendToCan(msg: Message, budget: nat) returns (ok: bool)
      requires |msg.data| <= MAX_MESSAGE
      modifies this
      ensures packetsId == if Fragmented(msg) then (old(packetsId) + 1) % 256 else old(packetsId)
      ensures ok == (msg.data != [] && budget >= |WireImage(msg, old(packetsId))|)
      ensures var image := WireImage(msg, old(packetsId));
              wire == old(wire) + image[..if budget < |image| then budget else |image|]
    {
      var len := |msg.data|;
      if len <= CAN_DATA_MAX_LEN {
        var left;
        ok, left := Write(Packet(msg.priority, msg.srcId, msg.dstId, 0, 0, 0, msg.data), budget);
      } else {
        ok := SendFragments(msg, budget);
      }
    }

    /** Writes one fragment of a message: the bytes from p on. */
    method WritePart(msg: Message, id: byte, i: nat, num: nat, p: nat, size: nat, budget: nat)
      returns (ok: bool, left: nat)
      requires Fragmented(msg) && num == FragmentCount(|msg.data|) && i < num && p == CAN_SUB_PACKET_SIZE * i
      requires size == if i < num - 1 then CAN_SUB_PACKET_SIZE else |msg.data| - p
      modifies this`wire
      ensures ok == (budget > 0)
      ensures wire == if ok then old(wire) + [WireImage(msg, id)[i]] else old(wire)
      ensures left == if ok then budget - 1 else budget
    {
      hide Send, Identifier, Fragment, Slice, SliceEnd, FragmentCount, FirstFragments, Fragments, PacketsOf, FramesOf,
          WireImage;
      ImageAt(msg, id);
      FragmentAt(msg, id, i);
      ok, left := Write(Packet(msg.priority, msg.srcId, msg.dstId, id, i, num - 1, msg.data[p..p + size]), budget);
    }

    /** The branch of the code for messages longer than one frame. */
    method SendFragments(msg: Message, budget: nat) returns (ok: bool)
      requires Fragmented(msg)
      modifies this
      ensures packetsId == (old(packetsId) + 1) % 256
      ensures var image := WireImage(msg, old(packetsId));
              ok == (budget >= |image|) && wire == old(wire) + image[..if ok then |image| else budget]
    {
      hide Send, Identifier, Fragment, Slice, SliceEnd, FragmentCount, FirstFragments, Fragments, PacketsOf, FramesOf,
          WireImage, CountByte;
      var left := budget;
      var len := |msg.data|;
      var id := packetsId;
      packetsId := (packetsId + 1) % 256;
      var num := CountByte(len);
      ghost var image := WireImage(msg, id);
      ImageAt(msg, id);
      var p := 0;
      var i := 0;
      while i < num - 1
        invariant 0 <= i <= num - 1 && p == CAN_SUB_PACKET_SIZE * i
        invariant i <= budget && left == budget - i
        invariant wire == old(wire) + image[..i]
        invariant packetsId == (old(packetsId) + 1) % 256
      {
        ok, left := WritePart(msg, id, i, num, p, CAN_SUB_PACKET_SIZE, left);
        if !ok {
          return;
        }
        OneMore(old(wire), image, i);
        p := p + CAN_SUB_PACKET_SIZE;
        i := i + 1;
      }
      FragmentAt(msg, id, num - 1);
      var rest := len - (num - 1) * CAN_SUB_PACKET_SIZE;
      ok, left := WritePart(msg, id, num - 1, num, p, rest, left);
      OneMore(old(wire), image, num - 1);
      assert image[..num] == image;
    }
  }
}
