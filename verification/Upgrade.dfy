/**
 The firmware upgrade of one board over a channel that may lose, delay or refuse anything. Every exchange
 is recorded in a trace; a monitor that sees nothing but the trace says what the board has confirmed.
 */
module Upgrade {
  import opened Arithmetic
  import opened Bytes
  import opened Crc16
  import opened HexImage

  const DATA_PACKET_LENGTH := 500
  const RESEND_COUNT := 2

  /** The commands of the protocol; each has a response of its own. */
  datatype Command = StartCmd | AddrCmd | DataCmd | CrcCmd | EndCmd

  /**
   What happens on the channel. `ret` is the send call's result, which may be 0 although nothing was sent.
   `body` is what follows the command or response byte. `Silent` is a read that timed out.
   */
  datatype Event =
    | Sent(cmd: Command, body: seq<byte>, ret: int)
    | Replied(cmd: Command, body: seq<byte>)
    | Silent(cmd: Command)

  /** The status byte of a response; it reads as zero when the response is too short to have one. */
  function StatusByte(body: seq<byte>): byte { if |body| < 2 then 0 else body[1] }

  // ----- The monitor ------------------------------------------------------------------------------------

  datatype Confirmation = Started | AddressSet(address: nat) | Stored(data: seq<byte>) | Ended

  datatype Phase =
    | Idle
    | Awaiting(cmd: Command, body: seq<byte>)
    | Acknowledged(data: seq<byte>)
    | Checking(data: seq<byte>, body: seq<byte>)

  datatype Monitor = Monitor(log: seq<Confirmation>, phase: Phase)

  function BigEndian(bytes: seq<byte>): nat {
    if bytes == [] then 0 else 256 * BigEndian(bytes[..|bytes| - 1]) + bytes[|bytes| - 1]
  }

  function ChecksumBody(data: seq<byte>): seq<byte> { [4, HighByte(Remainder(data)), LowByte(Remainder(data))] }

  /** What a response to the awaited command confirms. */
  function Answered(log: seq<Confirmation>, cmd: Command, body: seq<byte>): Monitor {
    match cmd
    case StartCmd => Monitor(if body == [2] then log + [Started] else log, Idle)
    case AddrCmd => Monitor(if |body| == 5 && body[0] == 6 then log + [AddressSet(BigEndian(body[1..]))] else log, Idle)
    case DataCmd => Monitor(log, if |body| >= 2
                            && BigEndian(body[..2]) == |body| + 1 then Acknowledged(body[2..]) else Idle)
    case CrcCmd => Monitor(log, Idle)
    case EndCmd => Monitor(if body == [2] then log + [Ended] else log, Idle)
  }

  function Observe(m: Monitor, e: Event): Monitor {
    match e
    case Sent(cmd, body, _) =>
      if cmd == CrcCmd && (m.phase.Acknowledged? || m.phase.Checking?) then m.(phase := Checking(m.phase.data, body))
      else m.(phase := Awaiting(cmd, body))
    case Replied(cmd, body) =>
      if m.phase.Awaiting? && m.phase.cmd == cmd then Answered(m.log, cmd, m.phase.body)
      else if m.phase.Checking? && cmd == CrcCmd then
        Monitor(if StatusByte(body) == 0
                && m.phase.body == ChecksumBody(m.phase.data) then m.log + [Stored(m.phase.data)] else m.log, Idle)
      else m
    case Silent(_) => m
  }

  function Watch(trace: seq<Event>): Monitor {
    if trace == [] then Monitor([], Idle) else Observe(Watch(trace[..|trace| - 1]), trace[|trace| - 1])
  }

  function Confirmed(trace: seq<Event>): seq<Confirmation> { Watch(trace).log }

  /** How often a command was transmitted. */
  function Transmissions(trace: seq<Event>, cmd: Command): nat {
    if trace == [] then 0 else
      var last := trace[|trace| - 1];
      Transmissions(trace[..|trace| - 1], cmd) + if last.Sent? && last.cmd == cmd then 1 else 0
  }

  predicate Fault(e: Event) {
    match e
    case Sent(_, _, ret) => ret != 0
    case Replied(cmd, body) => cmd == CrcCmd && StatusByte(body) != 0
    case Silent(_) => true
  }

  function Faults(trace: seq<Event>): nat {
    if trace == [] then 0 else Faults(trace[..|trace| - 1]) + if Fault(trace[|trace| - 1]) then 1 else 0
  }

  lemma Snoc(trace: seq<Event>, e: Event)
    ensures Watch(trace + [e]) == Observe(Watch(trace), e)
    ensures forall cmd :: Transmissions(trace + [e], cmd) == Transmissions(trace, cmd) + if e.Sent?
            && e.cmd == cmd then 1 else 0
    ensures Faults(trace + [e]) == Faults(trace) + if Fault(e) then 1 else 0
  {
    assert (trace + [e])[..|trace|] == trace;
  }

  /** The monitor around a checksum command for acknowledged data. */
  lemma Checks(m: Monitor, data: seq<byte>, body: seq<byte>)
    requires m.phase == Acknowledged(data) || m.phase == Checking(data, body)
    ensures forall ret :: Observe(m, Sent(CrcCmd, body, ret)) == m.(phase := Checking(data, body))
    ensures forall cmd :: Observe(m, Silent(cmd)) == m
    ensures m.phase.Checking? && body == ChecksumBody(data) ==> forall reply ::
      Observe(m, Replied(CrcCmd, reply)) == Monitor(if StatusByte(reply) == 0 then m.log + [Stored(data)] else m.log,
                                                    Idle)
  {
    hide ChecksumBody;
  }

  // ----- What a complete upgrade confirms -----------------------------------------------------------------

  /** The packets an element's data is sent in. */
  function Chunks(data: seq<byte>): seq<seq<byte>> {
    if |data| <= DATA_PACKET_LENGTH then [data] else [data[..DATA_PACKET_LENGTH]] + Chunks(data[DATA_PACKET_LENGTH..])
  }

  function StoredChunks(chunks: seq<seq<byte>>): seq<Confirmation> {
    if chunks == [] then [] else [Stored(chunks[0])] + StoredChunks(chunks[1..])
  }

  function ElementLog(e: Element): seq<Confirmation> { [AddressSet(e.address)] + StoredChunks(Chunks(e.data)) }

  function ImageLog(es: seq<Element>): seq<Confirmation> {
    if es == [] then [] else ImageLog(es[..|es| - 1]) + ElementLog(es[|es| - 1])
  }

  /** The memory the confirmations of a board describe: each address starts an element that the chunks fill. */
  function Written(log: seq<Confirmation>): seq<Element> {
    if log == [] then [] else WriteOne(Written(log[..|log| - 1]), log[|log| - 1])
  }

  function WriteOne(es: seq<Element>, c: Confirmation): seq<Element> {
    match c
    case AddressSet(a) => es + [Element(a, [])]
    case Stored(data) =>
      if es == [] then [] else es[..|es| - 1] + [Element(es[|es| - 1].address, es[|es| - 1].data + data)]
    case _ => es
  }

  lemma WrittenSnoc(log: seq<Confirmation>, c: Confirmation)
    ensures Written(log + [c]) == WriteOne(Written(log), c)
  {
    assert (log + [c])[..|log|] == log;
  }

  lemma WriteLast(es: seq<Element>, address: nat, had: seq<byte>, data: seq<byte>)
    ensures WriteOne(es + [Element(address, had)], Stored(data)) == es + [Element(address, had + data)]
  {}

  lemma ChunksStep(data: seq<byte>)
    requires |data| > DATA_PACKET_LENGTH
    ensures StoredChunks(Chunks(data))
         == [Stored(data[..DATA_PACKET_LENGTH])] + StoredChunks(Chunks(data[DATA_PACKET_LENGTH..]))
  {
    assert Chunks(data)[1..] == Chunks(data[DATA_PACKET_LENGTH..]);
  }

  lemma ChunksOne(data: seq<byte>)
    requires |data| <= DATA_PACKET_LENGTH
    ensures StoredChunks(Chunks(data)) == [Stored(data)]
  {
    assert [data][1..] == [];
  }

  /** Confirmed chunks concatenate to the data they were cut from. */
  lemma {:induction false} ChunksFill(log: seq<Confirmation>, es: seq<Element>, address: nat, had: seq<byte>,
                                      data: seq<byte>)
    requires Written(log) == es + [Element(address, had)]
    ensures Written(log + StoredChunks(Chunks(data))) == es + [Element(address, had + data)]
    decreases |data|
  {
    hide Written, WriteOne, StoredChunks, Chunks;
    if |data| <= DATA_PACKET_LENGTH {
      ChunksOne(data);
      WrittenSnoc(log, Stored(data));
      WriteLast(es, address, had, data);
    } else {
      var chunk, rest := data[..DATA_PACKET_LENGTH], data[DATA_PACKET_LENGTH..];
      ChunksStep(data);
      WrittenSnoc(log, Stored(chunk));
      WriteLast(es, address, had, chunk);
      ChunksFill(log + [Stored(chunk)], es, address, had + chunk, rest);
      assert log + ([Stored(chunk)] + StoredChunks(Chunks(rest)))
          == (log + [Stored(chunk)]) + StoredChunks(Chunks(rest));
      assert (had + chunk) + rest == had + data;
    }
  }

  /** The log of an image describes exactly the image. */
  lemma {:induction false} WrittenImage(log: seq<Confirmation>, es: seq<Element>)
    requires Written(log) == []
    ensures Written(log + ImageLog(es)) == es
  {
    hide Written, StoredChunks, Chunks;
    if es == [] {
      assert log + ImageLog(es) == log;
    } else {
      var before, e := es[..|es| - 1], es[|es| - 1];
      WrittenImage(log, before);
      var mid := log + ImageLog(before);
      WrittenElement(mid, before, e);
      assert log + ImageLog(es) == mid + ElementLog(e);
      assert es == before + [e];
    }
  }

  lemma WrittenElement(log: seq<Confirmation>, before: seq<Element>, e: Element)
    requires Written(log) == before
    ensures Written(log + ElementLog(e)) == before + [e]
  {
    hide Written, StoredChunks, Chunks;
    WrittenSnoc(log, AddressSet(e.address));
    ChunksFill(log + [AddressSet(e.address)], before, e.address, [], e.data);
    assert [] + e.data == e.data;
    assert log + ElementLog(e) == (log + [AddressSet(e.address)]) + StoredChunks(Chunks(e.data));
  }

  /** The confirmations of a whole upgrade: start, every address with its packets, end. */
  ghost predicate CompleteFor(log: seq<Confirmation>, es: seq<Element>) {
    log == [Started] + ImageLog(es) + [Ended]
  }

  lemma WrittenComplete(log: seq<Confirmation>, es: seq<Element>)
    requires CompleteFor(log, es)
    ensures Written(log) == es
  {
    assert Written([Started]) == [] by {
      assert [] + [Started] == [Started];
      WrittenSnoc([], Started);
    }
    WrittenImage([Started], es);
    WrittenSnoc([Started] + ImageLog(es), Ended);
  }

  // ----- What the monitor's confirmations rest on ---------------------------------------------------------

  predicate Transmitted(trace: seq<Event>, k: int, cmd: Command, body: seq<byte>) {
    0 <= k < |trace| && trace[k].Sent? && trace[k].cmd == cmd && trace[k].body == body
  }

  predicate Answer(trace: seq<Event>, k: int, cmd: Command) {
    0 <= k < |trace| && trace[k].Replied? && trace[k].cmd == cmd
  }

  /** A reply that does not refuse: it has no status byte, or the status is zero. */
  predicate Granted(trace: seq<Event>, k: int) {
    Answer(trace, k, CrcCmd) && (|trace[k].body| < 2 || trace[k].body[1] == 0)
  }

  predicate GrantedLast(trace: seq<Event>) { Granted(trace, |trace| - 1) }

  /** A packet: the data behind a length that counts the command and itself, high byte first. */
  predicate IsPacket(body: seq<byte>, data: seq<byte>) {
    |body| == |data| + 2 && 0x100 * (body[0] as nat) + body[1] == |data| + 3 && body[2..] == data
  }

  predicate Packed(trace: seq<Event>, i: int, data: seq<byte>) {
    0 <= i < |trace| && trace[i].Sent? && trace[i].cmd == DataCmd && IsPacket(trace[i].body, data)
  }

  /** A packet, and later the board's response. */
  ghost predicate Delivered(trace: seq<Event>, data: seq<byte>, k: int) {
    Answer(trace, k, DataCmd) && exists i :: 0 <= i < k && Packed(trace, i, data)
  }

  /** The checksum of data, high byte first. */
  predicate IsChecksum(body: seq<byte>, data: seq<byte>) {
    |body| == 3 && body[0] == 4 && Contents(0x100 * (body[1] as nat) + body[2]) == Remainder(data)
  }

  /** The four bytes of an address, high byte first. */
  predicate IsAddress(body: seq<byte>, a: nat) {
    |body| == 5 && body[0] == 6
    && a == 0x100_0000 * (body[1] as nat) + 0x1_0000 * (body[2] as nat) + 0x100 * (body[3] as nat) + body[4]
  }

  predicate Pointed(trace: seq<Event>, i: int, a: nat) {
    0 <= i < |trace| && trace[i].Sent? && trace[i].cmd == AddrCmd && IsAddress(trace[i].body, a)
  }

  predicate Asked(trace: seq<Event>, j: int, data: seq<byte>) {
    0 <= j < |trace| && trace[j].Sent? && trace[j].cmd == CrcCmd && IsChecksum(trace[j].body, data)
  }

  /** A delivered packet and, after it, a checksum command for its data. */
  ghost predicate Checked(trace: seq<Event>, k: int, data: seq<byte>) {
    exists i, j :: 0 <= i < j < k && Delivered(trace, data, i) && Asked(trace, j, data)
  }

  /** What stands behind a confirmation that comes with event k. */
  ghost predicate Justifies(trace: seq<Event>, k: int, c: Confirmation) {
    match c
    case Started => Answer(trace, k, StartCmd) && exists i :: 0 <= i < k && Transmitted(trace, i, StartCmd, [2])
    case AddressSet(a) => Answer(trace, k, AddrCmd) && exists i :: 0 <= i < k && Pointed(trace, i, a)
    case Stored(data) => Granted(trace, k) && Checked(trace, k, data)
    case Ended => Answer(trace, k, EndCmd) && exists i :: 0 <= i < k && Transmitted(trace, i, EndCmd, [2])
  }

  /** Every confirmation comes with an event of its own, in order. */
  ghost predicate Justified(trace: seq<Event>, log: seq<Confirmation>, ks: seq<int>) {
    |ks| == |log| && (forall i :: 0 <= i < |log| ==> 0 <= ks[i] < |trace| && Justifies(trace, ks[i], log[i]))
    && forall i, j :: 0 <= i < j < |ks| ==> ks[i] < ks[j]
  }

  /** From place m on the events are not before n. */
  predicate From(ks: seq<int>, m: nat, n: nat) { forall i :: m <= i < |ks| ==> n <= ks[i] }

  /** What has happened when the monitor is in a phase. */
  ghost predicate PhaseMeans(trace: seq<Event>, phase: Phase) {
    match phase
    case Idle => true
    case Awaiting(cmd, body) => exists i :: 0 <= i < |trace| && Transmitted(trace, i, cmd, body)
    case Acknowledged(data) => exists i :: 0 <= i < |trace| && Delivered(trace, data, i)
    case Checking(data, body) =>
      exists i, j :: 0 <= i < j < |trace| && Delivered(trace, data, i) && Transmitted(trace, j, CrcCmd, body)
  }

  lemma TransmittedStays(trace: seq<Event>, e: Event, k: int, cmd: Command, body: seq<byte>)
    requires Transmitted(trace, k, cmd, body)
    ensures Transmitted(trace + [e], k, cmd, body)
  {}

  lemma DeliveredStays(trace: seq<Event>, e: Event, data: seq<byte>, k: int)
    requires Delivered(trace, data, k)
    ensures Delivered(trace + [e], data, k)
  {
    var i :| 0 <= i < k && Packed(trace, i, data);
    hide IsPacket;
    var next := trace + [e];
    assert next[k] == trace[k] && next[i] == trace[i];
    assert Packed(next, i, data);
  }

  lemma SimpleStays(trace: seq<Event>, e: Event, k: int, cmd: Command)
    requires Answer(trace, k, cmd) && exists i :: 0 <= i < k && Transmitted(trace, i, cmd, [2])
    ensures Answer(trace + [e], k, cmd) && exists i :: 0 <= i < k && Transmitted(trace + [e], i, cmd, [2])
  {
    var i :| 0 <= i < k && Transmitted(trace, i, cmd, [2]);
    TransmittedStays(trace, e, i, cmd, [2]);
    assert (trace + [e])[k] == trace[k];
    hide Transmitted;
  }

  lemma AddressStays(trace: seq<Event>, e: Event, k: int, a: nat)
    requires Answer(trace, k, AddrCmd) && exists i :: 0 <= i < k && Pointed(trace, i, a)
    ensures Answer(trace + [e], k, AddrCmd) && exists i :: 0 <= i < k && Pointed(trace + [e], i, a)
  {
    var i :| 0 <= i < k && Pointed(trace, i, a);
    hide IsAddress;
    var next := trace + [e];
    assert next[k] == trace[k] && next[i] == trace[i];
    assert Pointed(next, i, a);
  }

  lemma StoredStays(trace: seq<Event>, e: Event, k: int, data: seq<byte>)
    requires Granted(trace, k) && Checked(trace, k, data)
    ensures Granted(trace + [e], k) && Checked(trace + [e], k, data)
  {
    var i, j :| 0 <= i < j < k && Delivered(trace, data, i) && Asked(trace, j, data);
    DeliveredStays(trace, e, data, i);
    hide Delivered, IsChecksum;
    var next := trace + [e];
    assert next[k] == trace[k] && next[j] == trace[j];
    assert Asked(next, j, data);
  }

  lemma JustifiesStays(trace: seq<Event>, e: Event, k: int, c: Confirmation)
    requires Justifies(trace, k, c)
    ensures Justifies(trace + [e], k, c)
  {
    hide Answer, Transmitted, Granted, Checked, Pointed;
    match c
    case Started => SimpleStays(trace, e, k, StartCmd);
    case AddressSet(a) => AddressStays(trace, e, k, a);
    case Stored(data) => StoredStays(trace, e, k, data);
    case Ended => SimpleStays(trace, e, k, EndCmd);
  }

  lemma JustifiedStays(trace: seq<Event>, e: Event, log: seq<Confirmation>, ks: seq<int>)
    requires Justified(trace, log, ks)
    ensures Justified(trace + [e], log, ks)
  {
    hide Justifies;
    forall i | 0 <= i < |log| ensures Justifies(trace + [e], ks[i], log[i]) {
      JustifiesStays(trace, e, ks[i], log[i]);
    }
  }

  lemma JustifiedMore(trace: seq<Event>, log: seq<Confirmation>, ks: seq<int>, c: Confirmation)
    requires trace != [] && Justified(trace[..|trace| - 1], log, ks) && Justifies(trace, |trace| - 1, c)
    ensures Justified(trace, log + [c], ks + [|trace| - 1])
  {
    hide Justifies;
    var before, e := trace[..|trace| - 1], trace[|trace| - 1];
    assert before + [e] == trace;
    JustifiedStays(before, e, log, ks);
  }

  lemma BigEndianOfTwo(b: seq<byte>)
    requires |b| == 2
    ensures BigEndian(b) == 0x100 * (b[0] as nat) + b[1]
  {
    assert b[..1][..0] == [];
    assert BigEndian(b[..1]) == b[0];
  }

  lemma BigEndianOfFour(b: seq<byte>)
    requires |b| == 4
    ensures BigEndian(b) == 0x100_0000 * (b[0] as nat) + 0x1_0000 * (b[1] as nat) + 0x100 * (b[2] as nat) + b[3]
  {
    assert b[..3][..2] == b[..2];
    BigEndianOfTwo(b[..2]);
    assert BigEndian(b[..3]) == 256 * BigEndian(b[..2]) + b[2];
  }

  lemma ChecksumIs(data: seq<byte>)
    ensures IsChecksum(ChecksumBody(data), data)
  {
    WordOfBytes(Remainder(data));
    hide Remainder, Contents, LowByte, HighByte;
  }

  /** A response to an awaited command confirms only what was transmitted. */
  lemma AnswerJustifies(trace: seq<Event>, m: Monitor, e: Event) returns (cs: seq<Confirmation>)
    requires e.Replied? && m.phase.Awaiting? && m.phase.cmd == e.cmd && PhaseMeans(trace, m.phase)
    ensures Observe(m, e).log == m.log + cs && |cs| <= 1 && (cs != [] ==> Justifies(trace + [e], |trace|, cs[0]))
    ensures PhaseMeans(trace + [e], Observe(m, e).phase)
  {
    var body, next := m.phase.body, trace + [e];
    var i :| 0 <= i < |trace| && Transmitted(trace, i, e.cmd, body);
    TransmittedStays(trace, e, i, e.cmd, body);
    assert Answer(next, |trace|, e.cmd);
    cs := [];
    if e.cmd == StartCmd && body == [2] {
      cs := [Started];
    } else if e.cmd == EndCmd && body == [2] {
      cs := [Ended];
    } else if e.cmd == AddrCmd && |body| == 5 && body[0] == 6 {
      BigEndianOfFour(body[1..]);
      assert IsAddress(body, BigEndian(body[1..])) && Pointed(next, i, BigEndian(body[1..]));
      cs := [AddressSet(BigEndian(body[1..]))];
    } else if e.cmd == DataCmd && |body| >= 2 {
      BigEndianOfTwo(body[..2]);
      assert BigEndian(body[..2]) == |body| + 1 ==> IsPacket(body, body[2..]) && Packed(next, i, body[2..]);
      assert BigEndian(body[..2]) == |body| + 1 ==> Delivered(next, body[2..], |trace|);
    }
    hide BigEndian, Transmitted, Answer;
    assert m.log + [] == m.log;
  }

  lemma GrantJustifies(trace: seq<Event>, m: Monitor, e: Event) returns (cs: seq<Confirmation>)
    requires e.Replied? && m.phase.Checking? && e.cmd == CrcCmd && PhaseMeans(trace, m.phase)
    ensures Observe(m, e).log == m.log + cs && |cs| <= 1 && (cs != [] ==> Justifies(trace + [e], |trace|, cs[0]))
    ensures Observe(m, e).phase == Idle
  {
    var data, body, next := m.phase.data, m.phase.body, trace + [e];
    var i, j :| 0 <= i < j < |trace| && Delivered(trace, data, i) && Transmitted(trace, j, CrcCmd, body);
    DeliveredStays(trace, e, data, i);
    ChecksumIs(data);
    hide Delivered, IsChecksum, ChecksumBody;
    cs := if StatusByte(e.body) == 0 && body == ChecksumBody(data) then [Stored(data)] else [];
    assert cs != [] ==> Granted(next, |trace|) && Asked(next, j, data);
    assert m.log + [] == m.log;
  }

  lemma SendKeepsPhase(trace: seq<Event>, m: Monitor, e: Event)
    requires !e.Replied? && PhaseMeans(trace, m.phase)
    ensures Observe(m, e).log == m.log && PhaseMeans(trace + [e], Observe(m, e).phase)
  {
    var next := trace + [e];
    if e.Sent? {
      assert Transmitted(next, |trace|, e.cmd, e.body);
    }
    PhaseStays(trace, e, m.phase);
    hide Delivered, Transmitted;
  }

  lemma PhaseStays(trace: seq<Event>, e: Event, phase: Phase)
    requires PhaseMeans(trace, phase)
    ensures PhaseMeans(trace + [e], phase)
    ensures phase.Acknowledged? || phase.Checking? ==>
              exists i :: 0 <= i < |trace| && Delivered(trace + [e], phase.data, i)
  {
    match phase
    case Idle =>
    case Awaiting(cmd, body) =>
      var i :| 0 <= i < |trace| && Transmitted(trace, i, cmd, body);
      TransmittedStays(trace, e, i, cmd, body);
    case Acknowledged(data) =>
      var i :| 0 <= i < |trace| && Delivered(trace, data, i);
      DeliveredStays(trace, e, data, i);
    case Checking(data, body) =>
      var i, j :| 0 <= i < j < |trace| && Delivered(trace, data, i) && Transmitted(trace, j, CrcCmd, body);
      DeliveredStays(trace, e, data, i);
      TransmittedStays(trace, e, j, CrcCmd, body);
  }

  /**
   The monitor believes nothing without a reason: behind every confirmation, in order, there is an answer of the
   board to a command with just these bytes; and behind every stored chunk the packet, its acknowledgement, its
   checksum, and an answer whose status is zero or missing. What is confirmed after n events was answered after them.
   */
  lemma {:induction false} ConfirmationsAreJustified(trace: seq<Event>, n: nat) returns (ks: seq<int>)
    requires n <= |trace|
    ensures Justified(trace, Confirmed(trace), ks) && PhaseMeans(trace, Watch(trace).phase)
    ensures From(ks, |Confirmed(trace[..n])|, n)
  {
    if trace == [] {
      ks := [];
    } else {
      var before, e := trace[..|trace| - 1], trace[|trace| - 1];
      assert trace == before + [e] && trace[..|trace|] == trace;
      assert n < |trace| ==> before[..n] == trace[..n];
      ks := ConfirmationsAreJustified(before, if n < |trace| then n else |trace| - 1);
      Snoc(before, e);
      hide Watch, Justifies, PhaseMeans, Observe;
      ks := EventIsJustified(before, e, Watch(before), ks);
    }
  }

  lemma EventIsJustified(trace: seq<Event>, e: Event, m: Monitor, ks: seq<int>) returns (js: seq<int>)
    requires Justified(trace, m.log, ks) && PhaseMeans(trace, m.phase)
    ensures Justified(trace + [e], Observe(m, e).log, js) && PhaseMeans(trace + [e], Observe(m, e).phase)
    ensures js == ks || js == ks + [|trace|]
  {
    js := ks;
    var next := trace + [e];
    assert next[..|next| - 1] == trace && next[|next| - 1] == e;
    if e.Replied? && ((m.phase.Awaiting? && m.phase.cmd == e.cmd) || (m.phase.Checking? && e.cmd == CrcCmd)) {
      var cs: seq<Confirmation>;
      if m.phase.Awaiting? {
        cs := AnswerJustifies(trace, m, e);
      } else {
        cs := GrantJustifies(trace, m, e);
      }
      hide Justified, Justifies, Observe;
      JustifiedStays(trace, e, m.log, ks);
      if cs != [] {
        JustifiedMore(next, m.log, ks, cs[0]);
        assert cs == [cs[0]];
        js := ks + [|trace|];
      } else {
        assert m.log + cs == m.log;
      }
    } else {
      JustifiedStays(trace, e, m.log, ks);
      PhaseStays(trace, e, m.phase);
      if !e.Replied? {
        SendKeepsPhase(trace, m, e);
      }
      hide Justified, Justifies;
    }
  }

  /** What counts as a fault: a failed send, a missing answer, and a checksum answer with a status other than zero. */
  lemma FaultMeans(e: Event)
    ensures Fault(e) <==> (e.Sent? && e.ret != 0) || e.Silent?
                          || (e.Replied? && e.cmd == CrcCmd && |e.body| >= 2 && e.body[1] != 0)
  {}

  /** All packets of an element have 500 bytes but the last one, which has at most as many. */
  lemma {:induction false} ChunkSizes(data: seq<byte>, i: nat)
    requires i < |Chunks(data)|
    ensures if i < |Chunks(data)| - 1 then |Chunks(data)[i]| == 500
            else |Chunks(data)[i]| == |data| - 500 * i && (|data| > 0 ==> 1 <= |Chunks(data)[i]| <= 500)
    decreases |data|
  {
    if |data| > 500 && i > 0 {
      ChunkSizes(data[500..], i - 1);
    }
  }

  // ----- Command bodies -----------------------------------------------------------------------------------

  function AddressBody(address: nat): seq<byte> {
    [6, address / 0x100_0000 % 256, address / 0x1_0000 % 256, address / 0x100 % 256, address % 256]
  }

  lemma AddressDecodes(address: nat)
    requires address < 0x1_0000_0000
    ensures BigEndian(AddressBody(address)[1..]) == address
  {
    var b := AddressBody(address)[1..];
    var b3, b2, b1 := b[..3], b[..2], b[..1];
    assert b3[..2] == b2 && b2[..1] == b1 && b1[..0] == [];
    var q1, q2, q3 := address / 256, address / 0x1_0000, address / 0x100_0000;
    assert q1 / 256 == q2 && q2 / 256 == q3 && q3 < 256;
    assert BigEndian(b1) == q3;
    assert BigEndian(b2) == q2;
    assert BigEndian(b3) == q1;
  }

  function DataBody(data: seq<byte>): seq<byte>
    requires |data| <= DATA_PACKET_LENGTH
  {
    [(|data| + 3) / 256, (|data| + 3) % 256] + data
  }

  lemma DataDecodes(data: seq<byte>)
    requires |data| <= DATA_PACKET_LENGTH
    ensures var body := DataBody(data); BigEndian(body[..2]) == |body| + 1 && body[2..] == data
  {
    var two := DataBody(data)[..2];
    assert two[..1][..0] == [];
    assert BigEndian(two[..1]) == two[0];
  }

  lemma ChecksumBytes(crc: word, data: seq<byte>)
    requires Contents(crc) == Remainder(data)
    ensures [4, crc / 256, crc % 256] == ChecksumBody(data)
  {
    BytesOfWord(crc);
  }

  // ----- The code -----------------------------------------------------------------------------------------

  class Updater {
    var trace: seq<Event>
    var dataTotal: nat
    var dataSended: nat
    const byteAddressedBoards: set<byte>

    constructor (rpUpgradeId: byte, rfUpgradeId: byte)
      ensures byteAddressedBoards == {rpUpgradeId, rfUpgradeId}
      ensures trace == [] && dataTotal == 0 && dataSended == 0
    {
      byteAddressedBoards := {rpUpgradeId, rfUpgradeId};
      trace, dataTotal, dataSended := [], 0, 0;
    }

    /** The boards with the two ids have byte addresses, all others addresses of 16-bit words. */
    function AddrBytes(subModule: byte): (n: nat)
      ensures n == if subModule in byteAddressedBoards then 1 else 2
    {
      if subModule in byteAddressedBoards then SINGLE_BYTE else DOUBLE_BYTE
    }

    /** Sending returns whatever the channel likes. */
    method SendCAN(cmd: Command, body: seq<byte>) returns (ret: int)
      modifies this`trace
      ensures trace == old(trace) + [Sent(cmd, body, ret)]
      ensures Watch(trace) == Observe(old(Watch(trace)), Sent(cmd, body, ret))
      ensures forall c :: Transmissions(trace, c) == old(Transmissions(trace, c)) + if c == cmd then 1 else 0
      ensures Faults(trace) == old(Faults(trace)) + if ret != 0 then 1 else 0
    {
      ret := *;
      Snoc(trace, Sent(cmd, body, ret));
      trace := trace + [Sent(cmd, body, ret)];
    }

    /** Reading returns the length of a matching response with its bytes, or -1 after the timeout. */
    method ReadCAN(cmd: Command) returns (ret: int, body: seq<byte>)
      modifies this`trace
      ensures ret == -1 || ret == |body| + 1
      ensures var e := if ret > 0 then Replied(cmd, body) else Silent(cmd);
              && trace == old(trace) + [e]
              && Watch(trace) == Observe(old(Watch(trace)), e)
              && (forall c :: Transmissions(trace, c) == old(Transmissions(trace, c)))
              && Faults(trace) == old(Faults(trace)) + if Fault(e) then 1 else 0
    {
      var answered: bool := *;
      body := *;
      ret := if answered then |body| + 1 else -1;
      var e := if ret > 0 then Replied(cmd, body) else Silent(cmd);
      Snoc(trace, e);
      trace := trace + [e];
    }

    /**
     The exchange shared by the start, address and end commands: at most two transmissions, each waiting for
     the response; it fails only after two faults.
     */
    method Exchange(cmd: Command, body: seq<byte>) returns (ret: int)
      requires cmd != DataCmd && cmd != CrcCmd
      modifies this`trace
      ensures old(trace) <= trace
      ensures ret == 0 ==> Watch(trace) == Answered(old(Confirmed(trace)), cmd, body)
      ensures ret != 0 ==> Confirmed(trace) == old(Confirmed(trace))
      ensures Faults(trace) >= old(Faults(trace)) + if ret != 0 then 2 else 0
      ensures Transmissions(trace, cmd) <= old(Transmissions(trace, cmd)) + 2
    {
      hide Watch, Transmissions, Faults;
      ret := -1;
      var count := RESEND_COUNT;
      while count > 0
        invariant 0 <= count <= 2 && ret != 0
        invariant Watch(trace).log == old(Watch(trace)).log
        invariant old(trace) <= trace
        invariant Faults(trace) >= old(Faults(trace)) + (2 - count)
        invariant Transmissions(trace, cmd) <= old(Transmissions(trace, cmd)) + (2 - count)
      {
        count := count - 1;
        ret := SendCAN(cmd, body);
        if ret != 0 {
          continue;
        }
        var data;
        ret, data := ReadCAN(cmd);
        if 0 < ret {
          ret := 0;
          break;
        }
      }
    }

    method SendStartFlag() returns (ret: int)
      modifies this`trace
      ensures old(trace) <= trace
      ensures Confirmed(trace) == old(Confirmed(trace)) + if ret == 0 then [Started] else []
      ensures Faults(trace) >= old(Faults(trace)) + if ret != 0 then 2 else 0
    {
      ret := Exchange(StartCmd, [2]);
    }

    method SendEndFlag() returns (ret: int)
      modifies this`trace
      ensures old(trace) <= trace
      ensures Confirmed(trace) == old(Confirmed(trace)) + if ret == 0 then [Ended] else []
      ensures Faults(trace) >= old(Faults(trace)) + if ret != 0 then 2 else 0
    {
      ret := Exchange(EndCmd, [2]);
    }

    method SendDataAddress(addr: nat) returns (ret: int)
      requires addr < 0x1_0000_0000
      modifies this`trace
      ensures old(trace) <= trace
      ensures Confirmed(trace) == old(Confirmed(trace)) + if ret == 0 then [AddressSet(addr)] else []
      ensures Faults(trace) >= old(Faults(trace)) + if ret != 0 then 2 else 0
    {
      AddressDecodes(addr);
      hide BigEndian, Watch, Faults;
      ret := Exchange(AddrCmd, AddressBody(addr));
    }

    /** One transmission of the checksum: no answer, or an answer whose status decides. */
    method AskStatus(body: seq<byte>, ghost data: seq<byte>) returns (answered: bool, ret: int)
      requires body == ChecksumBody(data)
      requires Watch(trace).phase == Acknowledged(data) || Watch(trace).phase == Checking(data, body)
      modifies this`trace
      ensures old(trace) <= trace
      ensures Watch(trace).log == old(Watch(trace)).log + if answered && ret == 0 then [Stored(data)] else []
      ensures !answered ==> ret != 0 && Watch(trace).phase == Checking(data, body)
      ensures ret == 0 <==> GrantedLast(trace)
      ensures Faults(trace) >= old(Faults(trace)) + if ret != 0 then 1 else 0
      ensures Transmissions(trace, CrcCmd) == old(Transmissions(trace, CrcCmd)) + 1
      ensures Transmissions(trace, DataCmd) == old(Transmissions(trace, DataCmd))
    {
      hide Watch, Transmissions, Faults, ChecksumBody, Contents, Remainder, Observe, BigEndian;
      answered := false;
      Checks(Watch(trace), data, body);
      ret := SendCAN(CrcCmd, body);
      if ret == 0 {
        var reply;
        Checks(Watch(trace), data, body);
        ret, reply := ReadCAN(CrcCmd);
        if 0 < ret {
          answered := true;
          ret := if StatusByte(reply) == 0 then 0 else -1;
        }
      }
    }

    /**
     Asks the board to check the data it acknowledged last. Success is a last response that does not refuse;
     any other outcome confirms nothing and costs at least one fault.
     */
    method SendDataCRC(crc: word, ghost data: seq<byte>) returns (ret: int)
      requires Contents(crc) == Remainder(data) && Watch(trace).phase == Acknowledged(data)
      modifies this`trace
      ensures old(trace) <= trace
      ensures Confirmed(trace) == old(Confirmed(trace)) + if ret == 0 then [Stored(data)] else []
      ensures ret == 0 <==> GrantedLast(trace)
      ensures Faults(trace) >= old(Faults(trace)) + if ret != 0 then 1 else 0
      ensures Transmissions(trace, CrcCmd) <= old(Transmissions(trace, CrcCmd)) + 2
      ensures Transmissions(trace, DataCmd) == old(Transmissions(trace, DataCmd))
    {
      ChecksumBytes(crc, data);
      hide *;
      var body := [4, crc / 256, crc % 256];
      ret := -1;
      var count := RESEND_COUNT;
      while count > 0
        invariant 0 <= count <= 2 && ret != 0
        invariant Watch(trace).log == old(Watch(trace)).log
        invariant Watch(trace).phase == Acknowledged(data) || Watch(trace).phase == Checking(data, body)
        invariant count < 2 ==> !GrantedLast(trace)
        invariant old(trace) <= trace
        invariant Faults(trace) >= old(Faults(trace)) + (2 - count)
        invariant Transmissions(trace, CrcCmd) <= old(Transmissions(trace, CrcCmd)) + (2 - count)
        invariant Transmissions(trace, DataCmd) == old(Transmissions(trace, DataCmd))
      {
        count := count - 1;
        var answered;
        answered, ret := AskStatus(body, data);
        if answered {
          break;
        }
      }
    }

    /** One transmission of a data packet. */
    method TryData(buf: seq<byte>) returns (ret: int)
      requires |buf| <= DATA_PACKET_LENGTH
      modifies this`trace
      ensures old(trace) <= trace
      ensures Confirmed(trace) == old(Confirmed(trace))
      ensures ret == 0 ==> Watch(trace).phase == Acknowledged(buf)
      ensures Faults(trace) >= old(Faults(trace)) + if ret != 0 then 1 else 0
      ensures Transmissions(trace, DataCmd) == old(Transmissions(trace, DataCmd)) + 1
      ensures Transmissions(trace, CrcCmd) == old(Transmissions(trace, CrcCmd))
    {
      DataDecodes(buf);
      hide BigEndian, DataBody, Watch, Transmissions, Faults;
      ret := SendCAN(DataCmd, DataBody(buf));
      if ret == 0 {
        var reply;
        ret, reply := ReadCAN(DataCmd);
        if 0 < ret {
          ret := 0;
        }
      }
    }

    /**
     Sends one chunk until the board has acknowledged it and confirmed its checksum. The inner retry budget is
     shared by the outer attempts, so a chunk costs at most two data and four checksum transmissions; it
     fails only after two faults.
     */
    method SendFirmwareData(buf: seq<byte>) returns (ret: int)
      requires |buf| <= DATA_PACKET_LENGTH
      modifies this`trace, this`dataSended
      ensures old(trace) <= trace
      ensures Confirmed(trace) == old(Confirmed(trace)) + if ret == 0 then [Stored(buf)] else []
      ensures ret == 0 ==> GrantedLast(trace)
      ensures dataSended == old(dataSended) + if ret == 0 then |buf| else 0
      ensures Faults(trace) >= old(Faults(trace)) + if ret != 0 then 2 else 0
      ensures Transmissions(trace, DataCmd) <= old(Transmissions(trace, DataCmd)) + 2
      ensures Transmissions(trace, CrcCmd) <= old(Transmissions(trace, CrcCmd)) + 4
    {
      hide Watch, Transmissions, Faults, Contents, Remainder, GrantedLast;
      ret := -1;
      var count, dataCount := RESEND_COUNT, RESEND_COUNT;
      var crc := Crc16.Crc16(buf);
      while count > 0
        invariant 0 <= dataCount <= count <= 2 && ret != 0
        invariant Watch(trace).log == old(Watch(trace)).log && dataSended == old(dataSended)
        invariant old(trace) <= trace
        invariant Faults(trace) >= old(Faults(trace)) + (2 - dataCount)
        invariant Transmissions(trace, DataCmd) <= old(Transmissions(trace, DataCmd)) + (2 - dataCount)
        invariant Transmissions(trace, CrcCmd) <= old(Transmissions(trace, CrcCmd)) + 2 * (2 - count)
      {
        count := count - 1;
        while dataCount > 0
          invariant 0 <= dataCount <= count + 1 && ret != 0
          invariant Watch(trace).log == old(Watch(trace)).log && dataSended == old(dataSended)
          invariant old(trace) <= trace
          invariant Faults(trace) >= old(Faults(trace)) + (2 - dataCount)
          invariant Transmissions(trace, DataCmd) <= old(Transmissions(trace, DataCmd)) + (2 - dataCount)
          invariant Transmissions(trace, CrcCmd) <= old(Transmissions(trace, CrcCmd)) + 2 * (1 - count)
        {
          dataCount := dataCount - 1;
          ret := TryData(buf);
          if 0 == ret {
            break;
          }
        }
        if 0 == ret {
          ret := SendDataCRC(crc, buf);
          if 0 == ret {
            dataSended := dataSended + |buf|;
            break;
          }
        }
      }
    }

    method Quotient(product: nat, tol: nat) returns (q: nat)
      requires tol > 0
      ensures q == product / tol && q * tol <= product < q * tol + tol
    {
      q := product / tol;
      ghost var _, _ := Floor(product, tol);
    }

    /**
     The percentage shown while sending; the code divides by the total. The product is a 32-bit one: the display is
     the percentage exactly if it does not wrap. Then it is at most 100, and 100 only when everything is sent.
     */
    method DownloadProgress(cur: nat, tol: nat) returns (prog: nat)
      requires tol > 0
      ensures prog == Shown(cur, tol) && prog * tol <= cur * 100 % 0x1_0000_0000 < prog * tol + tol
      ensures tol < 0x1_0000_0000 ==> (prog == cur * 100 / tol <==> cur * 100 < 0x1_0000_0000)
      ensures cur <= tol && cur * 100 < 0x1_0000_0000 ==> prog <= 100 && (prog == 100 <==> cur == tol)
    {
      var product: nat := cur * 100 % 0x1_0000_0000;
      prog := Quotient(product, tol);
      if tol < 0x1_0000_0000 {
        WrappedQuotient(cur * 100, 0x1_0000_0000, tol, prog);
      }
      if cur <= tol && cur * 100 < 0x1_0000_0000 {
        ProgressBounds(cur, tol, prog);
      }
    }

    /**
     Sends the data of one element in packets of 500 bytes. What the board has confirmed is always a beginning
     of the element's packets, and all of them on success.
     */
    method SendElementData(data: seq<byte>) returns (ret: int)
      requires dataTotal > 0
      modifies this`trace, this`dataSended
      ensures old(trace) <= trace
      ensures ret == 0 ==> Confirmed(trace) == old(Confirmed(trace)) + StoredChunks(Chunks(data))
      ensures ret == 0 ==> dataSended == old(dataSended) + |data|
      ensures old(Confirmed(trace)) <= Confirmed(trace) <= old(Confirmed(trace)) + StoredChunks(Chunks(data))
      ensures old(dataSended) <= dataSended <= old(dataSended) + |data|
      ensures Faults(trace) >= old(Faults(trace)) + if ret != 0 then 2 else 0
    {
      hide Watch, Faults, StoredChunks, Chunks, Transmissions;
      ghost var before := Confirmed(trace);
      ghost var full := before + StoredChunks(Chunks(data));
      if |data| <= DATA_PACKET_LENGTH {
        ChunksOne(data);
        ret := SendFirmwareData(data);
        return;
      }
      var num :=
        if |data| % DATA_PACKET_LENGTH == 0 then |data| / DATA_PACKET_LENGTH else |data| / DATA_PACKET_LENGTH + 1;
      var sended := 0;
      assert data[0..] == data;
      for j := 0 to num - 1
        invariant sended == DATA_PACKET_LENGTH * j < |data|
        invariant before <= Confirmed(trace) && Confirmed(trace) + StoredChunks(Chunks(data[sended..])) == full
        invariant dataSended == old(dataSended) + sended
        invariant old(trace) <= trace
        invariant Faults(trace) >= old(Faults(trace))
      {
        ghost var rest := data[sended..];
        ChunksStep(rest);
        assert rest[DATA_PACKET_LENGTH..] == data[sended + DATA_PACKET_LENGTH..];
        var buf := data[sended..sended + DATA_PACKET_LENGTH];
        assert buf == rest[..DATA_PACKET_LENGTH];
        sended := sended + DATA_PACKET_LENGTH;
        ghost var had := Confirmed(trace);
        ret := SendFirmwareData(buf);
        if ret != 0 {
          assert had + StoredChunks(Chunks(rest)) == full;
          return -1;
        }
        assert (had + [Stored(buf)]) + StoredChunks(Chunks(data[sended..])) == had + StoredChunks(Chunks(rest));
      }
      var left := |data| - (num - 1) * DATA_PACKET_LENGTH;
      assert data[sended..sended + left] == data[sended..];
      ChunksOne(data[sended..]);
      ghost var had := Confirmed(trace);
      ret := SendFirmwareData(data[sended..sended + left]);
      assert had + [Stored(data[sended..])] == full;
    }

    /** Sends the address and the data of one element. */
    method SendElement(e: Element) returns (ret: int)
      requires e.address < 0x1_0000_0000 && dataTotal > 0
      modifies this`trace, this`dataSended
      ensures old(trace) <= trace
      ensures ret == 0 ==> Confirmed(trace) == old(Confirmed(trace)) + ElementLog(e)
      ensures ret == 0 ==> dataSended == old(dataSended) + |e.data|
      ensures old(Confirmed(trace)) <= Confirmed(trace) <= old(Confirmed(trace)) + ElementLog(e)
      ensures old(dataSended) <= dataSended <= old(dataSended) + |e.data|
      ensures Faults(trace) >= old(Faults(trace)) + if ret != 0 then 2 else 0
    {
      hide Watch, Faults, StoredChunks, Chunks;
      ghost var before, packets := Confirmed(trace), StoredChunks(Chunks(e.data));
      assert (before + [AddressSet(e.address)]) + packets == before + ElementLog(e);
      ret := SendDataAddress(e.address);
      if 0 != ret {
        return -1;
      }
      ret := SendElementData(e.data);
      if 0 != ret {
        return -1;
      }
    }

    /**
     Sends all elements. On success the board has confirmed every address and every packet in order, and as
     many bytes were counted as the image has; on failure what it confirmed is a beginning of that.
     */
    method SendFirmware(image: Image) returns (ret: int)
      requires Narrow(image.elements) && 0 < image.dataSize == Length(image.elements)
      modifies this
      ensures old(trace) <= trace
      ensures dataTotal == image.dataSize && dataSended <= dataTotal
      ensures ret == 0 ==> Confirmed(trace) == old(Confirmed(trace)) + ImageLog(image.elements)
      ensures ret == 0 ==> dataSended == dataTotal
      ensures old(Confirmed(trace)) <= Confirmed(trace) <= old(Confirmed(trace)) + ImageLog(image.elements)
      ensures Faults(trace) >= old(Faults(trace)) + if ret != 0 then 2 else 0
    {
      hide Watch, Faults, ElementLog, ImageLog, Length;
      dataSended := 0;
      dataTotal := image.dataSize;
      var _ := DownloadProgress(dataSended, dataTotal);
      ghost var es, before := image.elements, Confirmed(trace);
      assert es[..0] == [];
      ImageLogEmpty();
      for i := 0 to |image.elements|
        invariant es == image.elements && dataTotal == image.dataSize
        invariant Confirmed(trace) == before + ImageLog(es[..i]) && dataSended == Length(es[..i])
        invariant old(trace) <= trace
        invariant Faults(trace) >= old(Faults(trace))
      {
        ImageLogStep(es, i);
        ImageLogPrefix(es, i + 1);
        LengthPrefix(es, i + 1);
        ghost var had := Confirmed(trace);
        assert had + ElementLog(es[i]) == before + ImageLog(es[..i + 1]);
        ret := SendElement(image.elements[i]);
        if 0 != ret {
          return -1;
        }
      }
      assert es[..|es|] == es;
      ret := 0;
    }

    /**
     Upgrades one board from a HEX file. If this returns 0, the board has confirmed, in order, the start, every
     address and every packet with a good checksum, and the end, each with an answer received since; and the memory
     so confirmed is the memory the file's data records describe, every byte at its absolute address, unless they
     overlap or end within an address. It fails only for a file that is not accepted or after two faults.
     */
    method Upgrade(subModule: byte, records: seq<Record>) returns (ret: int)
      requires Accepted(records) ==>
        SafeToCompact(HexImage.Load(records, AddrBytes(subModule)).elements) && Length(DataElements(Body(records))) > 0
      modifies this
      ensures ret == 0 || ret == -1
      ensures ret == 0 ==> Accepted(records) && dataSended == dataTotal == Length(DataElements(Body(records)))
      ensures ret == 0 ==>
        var before, after := old(Confirmed(trace)), Confirmed(trace);
        && before <= after
        && CompleteFor(after[|before|..], Written(after[|before|..]))
        && ((if AddrBytes(subModule) == DOUBLE_BYTE then Whole(DataElements(Body(records)), DOUBLE_BYTE)
             else Disjoint(DataElements(Body(records)), SINGLE_BYTE)) ==>
              SameMemory(Written(after[|before|..]), DataElements(Body(records)), AddrBytes(subModule))
              && AllHeld(Written(after[|before|..]), Body(records), AddrBytes(subModule)))
      ensures ret == 0 ==>
        exists ks :: Justified(trace, Confirmed(trace), ks) && From(ks, |old(Confirmed(trace))|, |old(trace)|)
      ensures ret != 0 ==> !Accepted(records) || Faults(trace) >= old(Faults(trace)) + 2
    {
      hide Watch, Faults, DataElements, Body, Accepted, HexImage.Load, SameMemory, Disjoint, Whole, SafeToCompact,
          ImageLog, Length, Written;
      var image := new Image();
      var loaded := image.LoadHex(records, AddrBytes(subModule));
      if !loaded {
        return -1;
      }
      ghost var before, es := Confirmed(trace), image.elements;
      ret := SendStartFlag();
      if 0 != ret {
        return -1;
      }
      ret := SendFirmware(image);
      if 0 != ret {
        return -1;
      }
      ret := SendEndFlag();
      if 0 != ret {
        return -1;
      }
      ghost var log := [Started] + ImageLog(es) + [Ended];
      assert Confirmed(trace) == before + log;
      assert Confirmed(trace)[|before|..] == log;
      WrittenComplete(log, es);
      assert trace[..|old(trace)|] == old(trace);
      ghost var ks := ConfirmationsAreJustified(trace, |old(trace)|);
    }
  }

  lemma ImageLogEmpty()
    ensures ImageLog([]) == [] && Length([]) == 0
  {}

  lemma ImageLogStep(es: seq<Element>, i: nat)
    requires i < |es|
    ensures ImageLog(es[..i + 1]) == ImageLog(es[..i]) + ElementLog(es[i])
            && Length(es[..i + 1]) == Length(es[..i]) + |es[i].data|
  {
    assert es[..i + 1][..i] == es[..i];
  }

  lemma {:induction false} ImageLogPrefix(es: seq<Element>, n: nat)
    requires n <= |es|
    ensures ImageLog(es[..n]) <= ImageLog(es)
  {
    hide ElementLog;
    if n == |es| {
      assert es[..n] == es;
    } else {
      var before := es[..|es| - 1];
      ImageLogPrefix(before, n);
      assert before[..n] == es[..n];
    }
  }

  lemma LengthPrefix(es: seq<Element>, n: nat)
    requires n <= |es|
    ensures Length(es[..n]) <= Length(es)
  {
    assert es == es[..n] + es[n..];
    LengthConcat(es[..n], es[n..]);
  }

  /** The percentage that is shown. */
  function Shown(cur: nat, tol: nat): int
    requires tol > 0
  {
    cur * 100 % 0x1_0000_0000 / tol
  }

  /** Reducing a number first changes its quotient by a smaller one, unless there was nothing to reduce. */
  lemma WrappedQuotient(x: nat, m: nat, tol: nat, q: nat)
    requires 0 < tol < m && q == x % m / tol
    ensures q == x / tol <==> x < m
  {
    var k, r := Floor(x, m);
    if x >= m {
      NotZero(x, m, k, r);
      Products(1, k, m, m);
      var p, rest := Floor(r, tol);
      Spread(p, 1, tol);
      DivAbove(x, tol, p + 1);
    }
  }

  lemma NotZero(x: nat, m: nat, k: nat, r: nat)
    requires x == k * m + r && r < m <= x
    ensures k > 0
  {}

  /** An image of 42 949 673 bytes that has been sent in full is shown with 0 percent. */
  lemma FullImageShowsNothing(size: nat)
    requires size == 42949673
    ensures Shown(size, size) == 0
  {}

  lemma ProgressBounds(cur: nat, tol: nat, prog: nat)
    requires cur <= tol && tol > 0 && prog * tol <= cur * 100 < prog * tol + tol
    ensures prog <= 100 && (prog == 100 <==> cur == tol)
  {
    if prog > 100 {
      Products(101, prog, tol, tol);
    } else if prog < 100 {
      Products(prog + 1, 100, tol, tol);
      Spread(prog, 1, tol);
    }
  }
}
