/**
 The firmware loader: Intel HEX records become memory elements, neighbouring records are joined while
 loading, and the elements are sorted and compacted at the end. What must not change is the memory
 the records describe.
 */
module HexImage {
  import opened Bytes
  import opened Options
  import opened Sequences

  type u16 = x: int | 0 <= x < 0x1_0000

  /** Bytes per address: some boards count 16-bit words. */
  const SINGLE_BYTE := 1
  const DOUBLE_BYTE := 2

  /** A record as read from the file, named by its type; `Other` is anything the loader rejects. */
  datatype Record =
    | Data(address: u16, data: seq<byte>, checksum: byte)
    | EndOfFile(byteCount: byte, address: u16, checksum: byte)
    | ExtendedSegment(byteCount: byte, address: u16, base: u16, checksum: byte)
    | ExtendedLinear(byteCount: byte, address: u16, upper: u16, checksum: byte)
    | StartSegment(address: u16, data: seq<byte>, checksum: byte)
    | StartLinear(address: u16, data: seq<byte>, checksum: byte)
    | Other

  function Sum(data: seq<byte>): nat {
    if data == [] then 0 else Sum(data[..|data| - 1]) + data[|data| - 1]
  }

  function WordSum(w: u16): nat { w / 256 + w % 256 }

  /**
   The sum over all bytes of a record but its checksum, the type byte included. For a start segment address record
   the code counts the byte count twice.
   */
  function RecordSum(r: Record): nat
    requires !r.Other?
  {
    match r
    case Data(address, data, _) => |data| + WordSum(address) + Sum(data) + 0
    case EndOfFile(count, address, _) => count + WordSum(address) + 1
    case ExtendedSegment(count, address, base, _) => count + WordSum(address) + 2 + WordSum(base)
    case ExtendedLinear(count, address, upper, _) => count + WordSum(address) + 4 + WordSum(upper)
    case StartSegment(address, data, _) => 2 * |data| + WordSum(address) + 3 + Sum(data)
    case StartLinear(address, data, _) => |data| + WordSum(address) + 5 + Sum(data)
  }

  predicate Valid(r: Record) { !r.Other? && (r.checksum + RecordSum(r)) % 256 == 0 }

  function TwoBytes(w: u16): seq<byte> { [w / 256, w % 256] }

  /** A record as it stands in the file: byte count, address, type, what follows, and the checksum. */
  function RecordBytes(r: Record): seq<byte>
    requires !r.Other? && (r.Data? || r.StartSegment? || r.StartLinear? ==> |r.data| < 256)
  {
    match r
    case Data(address, data, checksum) => [|data|] + TwoBytes(address) + [0x00] + data + [checksum]
    case EndOfFile(count, address, checksum) => [count] + TwoBytes(address) + [0x01, checksum]
    case ExtendedSegment(count, address, base, checksum) =>
      [count] + TwoBytes(address) + [0x02] + TwoBytes(base) + [checksum]
    case StartSegment(address, data, checksum) => [|data|] + TwoBytes(address) + [0x03] + data + [checksum]
    case ExtendedLinear(count, address, upper, checksum) =>
      [count] + TwoBytes(address) + [0x04] + TwoBytes(upper) + [checksum]
    case StartLinear(address, data, checksum) => [|data|] + TwoBytes(address) + [0x05] + data + [checksum]
  }

  lemma {:induction false} SumConcat(a: seq<byte>, b: seq<byte>)
    ensures Sum(a + b) == Sum(a) + Sum(b)
  {
    if b == [] {
      assert a + b == a;
    } else {
      assert (a + b)[..|a + b| - 1] == a + b[..|b| - 1];
      SumConcat(a, b[..|b| - 1]);
    }
  }

  lemma SumOfOne(b: byte)
    ensures Sum([b]) == b
  {
    assert [b][..0] == [];
  }

  lemma SumOfTwo(a: byte, b: byte)
    ensures Sum([a, b]) == a + b
  {
    assert [a, b][..1] == [a];
    SumOfOne(a);
  }

  lemma SumOfParts(count: byte, address: u16, kind: byte, rest: seq<byte>, checksum: byte)
    ensures Sum([count] + TwoBytes(address) + [kind] + rest + [checksum])
         == count + WordSum(address) + kind + Sum(rest) + checksum
  {
    SumOfOne(count);
    SumOfOne(kind);
    SumOfOne(checksum);
    SumOfTwo(address / 256, address % 256);
    SumConcat([count], TwoBytes(address));
    SumConcat([count] + TwoBytes(address), [kind]);
    SumConcat([count] + TwoBytes(address) + [kind], rest);
    SumConcat([count] + TwoBytes(address) + [kind] + rest, [checksum]);
    hide Sum;
  }

  /** A record is valid exactly if its bytes add up to zero; only that of type 03 counts its byte count again. */
  lemma ChecksumRule(r: Record)
    requires !r.Other? && (r.Data? || r.StartSegment? || r.StartLinear? ==> |r.data| < 256)
    ensures Valid(r) <==> (Sum(RecordBytes(r)) + if r.StartSegment? then |r.data| else 0) % 256 == 0
  {
    hide Sum;
    match r
    case Data(address, data, checksum) => SumOfParts(|data|, address, 0, data, checksum);
    case EndOfFile(count, address, checksum) =>
      SumOfParts(count, address, 1, [], checksum);
      assert [count] + TwoBytes(address) + [1] + [] + [checksum] == RecordBytes(r);
      SumOfNone();
    case ExtendedSegment(count, address, base, checksum) =>
      SumOfParts(count, address, 2, TwoBytes(base), checksum);
      SumOfTwo(base / 256, base % 256);
    case StartSegment(address, data, checksum) => SumOfParts(|data|, address, 3, data, checksum);
    case ExtendedLinear(count, address, upper, checksum) =>
      SumOfParts(count, address, 4, TwoBytes(upper), checksum);
      SumOfTwo(upper / 256, upper % 256);
    case StartLinear(address, data, checksum) => SumOfParts(|data|, address, 5, data, checksum);
  }

  lemma SumOfNone()
    ensures Sum([]) == 0
  {}

  /** A start segment address record with a correct checksum is accepted exactly if its byte count is zero. */
  lemma StartSegmentRejected(r: Record)
    requires r.StartSegment? && (r.checksum + (|r.data| + WordSum(r.address) + 3 + Sum(r.data))) % 256 == 0
    requires |r.data| < 256
    ensures Valid(r) <==> r.data == []
  {}

  // ----- What a file means ---------------------------------------------------------------------------

  datatype Element = Element(address: nat, data: seq<byte>)

  /** The segment base and upper address in force after some records. */
  function Base(rs: seq<Record>): u16 {
    if rs == [] then 0 else
      var last := rs[|rs| - 1];
      if last.ExtendedSegment? then last.base else Base(rs[..|rs| - 1])
  }

  function Upper(rs: seq<Record>): u16 {
    if rs == [] then 0 else
      var last := rs[|rs| - 1];
      if last.ExtendedLinear? then last.upper else Upper(rs[..|rs| - 1])
  }

  function Target(upper: u16, base: u16, address: u16): nat {
    (upper * 0x1_0000 + base * 16 + address) % 0x1_0000_0000
  }

  /** Every data record as an element of its own, at its absolute address. */
  function DataElements(rs: seq<Record>): seq<Element> {
    if rs == [] then [] else
      var before, last := rs[..|rs| - 1], rs[|rs| - 1];
      DataElements(before)
      + if last.Data? then [Element(Target(Upper(before), Base(before), last.address), last.data)] else []
  }

  /** An upper address is in force: it is that of the last record that sets one, or zero if there is none. */
  predicate UpperInForce(rs: seq<Record>, u: u16) {
    if exists k :: 0 <= k < |rs| && rs[k].ExtendedLinear? then
      exists k :: 0 <= k < |rs| && rs[k].ExtendedLinear? && rs[k].upper == u
                  && forall j :: k < j < |rs| ==> !rs[j].ExtendedLinear?
    else u == 0
  }

  predicate BaseInForce(rs: seq<Record>, b: u16) {
    if exists k :: 0 <= k < |rs| && rs[k].ExtendedSegment? then
      exists k :: 0 <= k < |rs| && rs[k].ExtendedSegment? && rs[k].base == b
                  && forall j :: k < j < |rs| ==> !rs[j].ExtendedSegment?
    else b == 0
  }

  lemma {:induction false} UpperIs(rs: seq<Record>, u: u16)
    requires UpperInForce(rs, u)
    ensures Upper(rs) == u
  {
    if rs != [] && !rs[|rs| - 1].ExtendedLinear? {
      var before := rs[..|rs| - 1];
      if k :| 0 <= k < |rs| && rs[k].ExtendedLinear? && rs[k].upper == u
              && forall j :: k < j < |rs| ==> !rs[j].ExtendedLinear? {
        assert before[k] == rs[k];
      }
      assert forall j :: 0 <= j < |before| ==> before[j] == rs[j];
      UpperIs(before, u);
    }
  }

  lemma {:induction false} BaseIs(rs: seq<Record>, b: u16)
    requires BaseInForce(rs, b)
    ensures Base(rs) == b
  {
    if rs != [] && !rs[|rs| - 1].ExtendedSegment? {
      var before := rs[..|rs| - 1];
      if k :| 0 <= k < |rs| && rs[k].ExtendedSegment? && rs[k].base == b
              && forall j :: k < j < |rs| ==> !rs[j].ExtendedSegment? {
        assert before[k] == rs[k];
      }
      assert forall j :: 0 <= j < |before| ==> before[j] == rs[j];
      BaseIs(before, b);
    }
  }

  /**
   Where a data record goes: upper address times 64 KiB, segment base times 16 and its own address, modulo 2^32. After
   an upper address alone its halves are the two; after a base alone nothing wraps.
   */
  lemma AbsoluteAddress(before: seq<Record>, r: Record, u: u16, b: u16)
    requires r.Data? && UpperInForce(before, u) && BaseInForce(before, b)
    ensures exists e: Element :: DataElements(before + [r]) == DataElements(before) + [e] && PlacedAt(e, r, u, b)
  {
    UpperIs(before, u);
    BaseIs(before, b);
    var rs := before + [r];
    assert rs[..|rs| - 1] == before;
    var e := Element(Target(u, b, r.address), r.data);
    hide UpperInForce, BaseInForce;
    TargetParts(u, b, r.address);
    assert PlacedAt(e, r, u, b);
  }

  predicate PlacedAt(e: Element, r: Record, u: u16, b: u16)
    requires r.Data?
  {
    && e.data == r.data && e.address < 0x1_0000_0000
    && (e.address == 0x1_0000 * u + 0x10 * b + r.address
        || e.address + 0x1_0000_0000 == 0x1_0000 * u + 0x10 * b + r.address)
    && (b == 0 ==> e.address / 0x1_0000 == u && e.address % 0x1_0000 == r.address)
    && (u == 0 ==> e.address == 16 * b + r.address)
  }

  lemma TargetParts(u: u16, b: u16, address: u16)
    ensures var t, sum := Target(u, b, address), 0x1_0000 * u + 0x10 * b + address;
            && t < 0x1_0000_0000 && (t == sum || t + 0x1_0000_0000 == sum)
            && (b == 0 ==> t / 0x1_0000 == u && t % 0x1_0000 == address) && (u == 0 ==> t == 16 * b + address)
  {}

  /** The records up to the first end-of-file record. */
  function Body(rs: seq<Record>): (body: seq<Record>)
    ensures body <= rs && !Ended(body)
    ensures |body| < |rs| ==> rs[|body|].EndOfFile?
  {
    if rs == [] || rs[0].EndOfFile? then [] else [rs[0]] + Body(rs[1..])
  }

  predicate Ended(rs: seq<Record>) { exists i :: 0 <= i < |rs| && rs[i].EndOfFile? }

  predicate AllValid(rs: seq<Record>) { forall i :: 0 <= i < |rs| ==> Valid(rs[i]) }

  /** A file the loader accepts: every record up to and including the end-of-file record is valid. */
  predicate Accepted(rs: seq<Record>) {
    AllValid(Body(rs)) && (|Body(rs)| < |rs| ==> Valid(rs[|Body(rs)|]))
  }

  /** The byte address at which an element starts. */
  function Start(e: Element, unit: nat): nat { unit * e.address }

  predicate Occupies(e: Element, unit: nat, x: int) { Start(e, unit) <= x < Start(e, unit) + |e.data| }

  predicate Stores(e: Element, unit: nat, x: int, v: byte) {
    Occupies(e, unit, x) && e.data[x - Start(e, unit)] == v
  }

  /** Some element stores value v at byte address x: the memory a table describes. */
  predicate Holds(es: seq<Element>, unit: nat, x: int, v: byte) {
    exists i :: 0 <= i < |es| && Stores(es[i], unit, x, v)
  }

  ghost predicate SameMemory(xs: seq<Element>, ys: seq<Element>, unit: nat) {
    forall x, v :: Holds(xs, unit, x, v) <==> Holds(ys, unit, x, v)
  }

  ghost predicate Apart(a: Element, b: Element, unit: nat) {
    forall x :: !(Occupies(a, unit, x) && Occupies(b, unit, x))
  }

  ghost predicate Disjoint(es: seq<Element>, unit: nat) {
    forall i, j :: 0 <= i < j < |es| ==> Apart(es[i], es[j], unit)
  }

  predicate Addressing(unit: nat) { unit == SINGLE_BYTE || unit == DOUBLE_BYTE }

  /** Whole addresses: with two bytes per address every length is even. */
  predicate Whole(es: seq<Element>, unit: nat) { Addressing(unit) && forall e :: e in es ==> |e.data| % unit == 0 }

  function Length(es: seq<Element>): nat {
    if es == [] then 0 else Length(es[..|es| - 1]) + |es[|es| - 1].data|
  }

  lemma {:induction false} DataElementsGrow(rs: seq<Record>, m: nat)
    requires m <= |rs|
    ensures DataElements(rs[..m]) <= DataElements(rs)
  {
    if m == |rs| {
      assert rs[..m] == rs;
    } else {
      var before := rs[..|rs| - 1];
      assert before[..m] == rs[..m];
      DataElementsGrow(before, m);
    }
  }

  lemma PlacedElement(rs: seq<Record>, m: nat, u: u16, b: u16) returns (e: Element)
    requires m < |rs| && rs[m].Data? && UpperInForce(rs[..m], u) && BaseInForce(rs[..m], b)
    ensures PlacedAt(e, rs[m], u, b) && e in DataElements(rs)
  {
    AbsoluteAddress(rs[..m], rs[m], u, b);
    assert rs[..m + 1] == rs[..m] + [rs[m]];
    e :| DataElements(rs[..m + 1]) == DataElements(rs[..m]) + [e] && PlacedAt(e, rs[m], u, b);
    DataElementsGrow(rs, m + 1);
    hide *;
    LastOfPrefix(DataElements(rs[..m]), e, DataElements(rs));
  }

  lemma LastOfPrefix(xs: seq<Element>, e: Element, all: seq<Element>)
    requires xs + [e] <= all
    ensures e in all
  {
    assert all[|xs|] == (xs + [e])[|xs|];
  }

  lemma ElementHolds(es: seq<Element>, e: Element, unit: nat, j: nat)
    requires e in es && j < |e.data|
    ensures Holds(es, unit, unit * e.address + j, e.data[j])
  {
    var i: nat :| i < |es| && es[i] == e;
    assert Stores(e, unit, unit * e.address + j, e.data[j]);
    hide Stores;
  }

  lemma PlacedData(e: Element, r: Record, u: u16, b: u16)
    requires r.Data? && PlacedAt(e, r, u, b)
    ensures e.data == r.data
  {}

  /** Every byte of a data record is held at its byte address, whatever other records say. */
  lemma RecordIsHeld(rs: seq<Record>, m: nat, u: u16, b: u16, unit: nat, j: nat) returns (e: Element)
    requires m < |rs| && rs[m].Data? && UpperInForce(rs[..m], u) && BaseInForce(rs[..m], b) && j < |rs[m].data|
    ensures PlacedAt(e, rs[m], u, b) && Holds(DataElements(rs), unit, unit * e.address + j, rs[m].data[j])
  {
    hide *;
    e := PlacedElement(rs, m, u, b);
    PlacedData(e, rs[m], u, b);
    ElementHolds(DataElements(rs), e, unit, j);
  }

  /** A byte of a record is held where the record says. */
  ghost predicate Held(es: seq<Element>, r: Record, u: u16, b: u16, unit: nat, j: nat)
    requires r.Data? && j < |r.data|
  {
    exists e: Element :: PlacedAt(e, r, u, b) && Holds(es, unit, unit * e.address + j, r.data[j])
  }

  /** A table holds every byte of every data record at its absolute address. */
  ghost predicate AllHeld(es: seq<Element>, rs: seq<Record>, unit: nat) {
    forall m: nat, u: u16, b: u16, j: nat ::
      m < |rs| && rs[m].Data? && UpperInForce(rs[..m], u) && BaseInForce(rs[..m], b) && j < |rs[m].data| ==>
        Held(es, rs[m], u, b, unit, j)
  }

  lemma SameMemoryHolds(es: seq<Element>, rs: seq<Record>, unit: nat)
    requires SameMemory(es, DataElements(rs), unit)
    ensures AllHeld(es, rs, unit)
  {
    hide DataElements, UpperInForce, BaseInForce, Holds, PlacedAt;
    forall m: nat, u: u16, b: u16, j: nat |
      m < |rs| && rs[m].Data? && UpperInForce(rs[..m], u) && BaseInForce(rs[..m], b) && j < |rs[m].data|
      ensures Held(es, rs[m], u, b, unit, j)
    {
      var e := RecordIsHeld(rs, m, u, b, unit, j);
      assert Holds(es, unit, unit * e.address + j, rs[m].data[j]);
    }
  }

  // ----- Reading records -----------------------------------------------------------------------------

  datatype Status = Reading | Finished | Failed

  datatype Loader = Loader(elements: seq<Element>, upper: u16, base: u16, size: nat, status: Status)

  const START := Loader([], 0, 0, 0, Reading)

  function Append(es: seq<Element>, e: Element, unit: nat): seq<Element>
    requires unit > 0
  {
    if es != [] && es[|es| - 1].address + |es[|es| - 1].data| / unit == e.address
    then es[..|es| - 1] + [Element(es[|es| - 1].address, es[|es| - 1].data + e.data)]
    else es + [e]
  }

  function LoadRecord(l: Loader, r: Record, unit: nat): Loader
    requires unit > 0
  {
    if l.status != Reading then l
    else if r.Data? then
      var m := l.(size := l.size + |r.data|);
      if Valid(r) then m.(elements := Append(l.elements, Element(Target(l.upper, l.base, r.address), r.data), unit))
      else m.(status := Failed)
    else if r.ExtendedSegment? then (if Valid(r) then l.(base := r.base) else l.(base := r.base, status := Failed))
    else if r.ExtendedLinear? then (if Valid(r) then l.(upper := r.upper) else l.(upper := r.upper, status := Failed))
    else if !Valid(r) then l.(status := Failed)
    else if r.EndOfFile? then l.(status := Finished)
    else l
  }

  function Load(rs: seq<Record>, unit: nat): Loader
    requires unit > 0
  {
    if rs == [] then START else LoadRecord(Load(rs[..|rs| - 1], unit), rs[|rs| - 1], unit)
  }

  // ----- Joining preserves the memory ------------------------------------------------------------------

  /** Two elements of which the second starts where the first ends. */
  predicate Touching(a: Element, b: Element, unit: nat) { Start(a, unit) + |a.data| == Start(b, unit) }

  /** Joining these two loses nothing: they touch, or one of them is empty. */
  predicate Joinable(a: Element, b: Element, unit: nat) {
    Touching(a, b, unit) || (a.data == [] && a.address == b.address) || b.data == []
  }

  function Join(a: Element, b: Element): Element { Element(a.address, a.data + b.data) }

  lemma JoinStores(a: Element, b: Element, unit: nat, x: int, v: byte)
    requires Joinable(a, b, unit)
    ensures Stores(Join(a, b), unit, x, v) <==> Stores(a, unit, x, v) || Stores(b, unit, x, v)
    ensures Occupies(Join(a, b), unit, x) <==> Occupies(a, unit, x) || Occupies(b, unit, x)
  {}

  lemma HoldsConcat(xs: seq<Element>, ys: seq<Element>, unit: nat, x: int, v: byte)
    ensures Holds(xs + ys, unit, x, v) <==> Holds(xs, unit, x, v) || Holds(ys, unit, x, v)
  {
    hide Stores;
    if i :| 0 <= i < |xs| && Stores(xs[i], unit, x, v) {
      assert (xs + ys)[i] == xs[i];
    }
    if i :| 0 <= i < |ys| && Stores(ys[i], unit, x, v) {
      assert (xs + ys)[|xs| + i] == ys[i];
    }
  }

  lemma HoldsOne(e: Element, unit: nat, x: int, v: byte)
    ensures Holds([e], unit, x, v) <==> Stores(e, unit, x, v)
  {
    hide Stores;
    assert [e][0] == e;
  }

  lemma {:induction false} LengthConcat(xs: seq<Element>, ys: seq<Element>)
    ensures Length(xs + ys) == Length(xs) + Length(ys)
  {
    if ys == [] {
      assert xs + ys == xs;
    } else {
      assert (xs + ys)[..|xs + ys| - 1] == xs + ys[..|ys| - 1];
      LengthConcat(xs, ys[..|ys| - 1]);
    }
  }

  lemma LengthOfOne(e: Element)
    ensures Length([e]) == |e.data|
  {
    assert [e][..0] == [];
  }

  /** Two neighbours and their join describe the same memory in any surroundings. */
  lemma JoinInside(xs: seq<Element>, a: Element, b: Element, ys: seq<Element>, unit: nat)
    requires Joinable(a, b, unit)
    ensures SameMemory(xs + [Join(a, b)] + ys, xs + [a, b] + ys, unit)
    ensures Length(xs + [Join(a, b)] + ys) == Length(xs + [a, b] + ys)
  {
    hide Joinable, Join, Holds, Stores, Occupies;
    assert [a, b] == [a] + [b];
    forall x, v ensures Holds(xs + [Join(a, b)] + ys, unit, x, v) <==> Holds(xs + [a, b] + ys, unit, x, v) {
      HoldsConcat(xs + [Join(a, b)], ys, unit, x, v);
      HoldsConcat(xs, [Join(a, b)], unit, x, v);
      HoldsConcat(xs + [a, b], ys, unit, x, v);
      HoldsConcat(xs, [a, b], unit, x, v);
      HoldsConcat([a], [b], unit, x, v);
      HoldsOne(a, unit, x, v);
      HoldsOne(b, unit, x, v);
      HoldsOne(Join(a, b), unit, x, v);
      JoinStores(a, b, unit, x, v);
    }
    JoinLength(xs, a, b, ys);
  }

  lemma JoinLength(xs: seq<Element>, a: Element, b: Element, ys: seq<Element>)
    ensures Length(xs + [Join(a, b)] + ys) == Length(xs + [a, b] + ys)
  {
    assert [a, b] == [a] + [b];
    LengthConcat(xs + [Join(a, b)], ys);
    LengthConcat(xs, [Join(a, b)]);
    LengthConcat(xs + [a, b], ys);
    LengthConcat(xs, [a, b]);
    LengthConcat([a], [b]);
    LengthOfOne(a);
    LengthOfOne(b);
    LengthOfOne(Join(a, b));
  }

  /** Appending a record, joined or not, gives the same memory as listing it separately. */
  lemma AppendKeepsMemory(es: seq<Element>, e: Element, unit: nat)
    requires Whole(es, unit) && |e.data| % unit == 0
    ensures SameMemory(Append(es, e, unit), es + [e], unit) && Whole(Append(es, e, unit), unit)
  {
    if Append(es, e, unit) != es + [e] {
      var xs, a := es[..|es| - 1], es[|es| - 1];
      assert a in es;
      WholeTouches(a, e, unit);
      JoinInside(xs, a, e, [], unit);
      assert xs + [Join(a, e)] + [] == Append(es, e, unit) && xs + [a, e] + [] == es + [e];
    }
  }

  /** No byte is lost or counted twice, whatever the lengths are. */
  lemma AppendLength(es: seq<Element>, e: Element, unit: nat)
    requires unit > 0
    ensures Length(Append(es, e, unit)) == Length(es) + |e.data|
  {
    LengthConcat(es, [e]);
    LengthOfOne(e);
    if Append(es, e, unit) != es + [e] {
      var xs, a := es[..|es| - 1], es[|es| - 1];
      JoinLength(xs, a, e, []);
      assert xs + [Join(a, e)] + [] == Append(es, e, unit) && xs + [a, e] + [] == es + [e];
    }
  }

  /** The code's test for joining, with whole addresses, is that the elements touch. */
  lemma WholeTouches(a: Element, b: Element, unit: nat)
    requires Addressing(unit) && |a.data| % unit == 0
    ensures a.address + |a.data| / unit == b.address <==> Touching(a, b, unit)
    ensures |b.data| % unit == 0 ==> |Join(a, b).data| % unit == 0
  {
    assert unit == 1 ==> |a.data| / unit == |a.data|;
  }

  lemma SameAfterAppend(xs: seq<Element>, ys: seq<Element>, e: Element, unit: nat)
    requires SameMemory(xs, ys, unit)
    ensures SameMemory(xs + [e], ys + [e], unit)
  {
    hide Holds;
    forall x, v ensures Holds(xs + [e], unit, x, v) <==> Holds(ys + [e], unit, x, v) {
      HoldsConcat(xs, [e], unit, x, v);
      HoldsConcat(ys, [e], unit, x, v);
    }
  }

  // ----- What a load without error leaves in the table --------------------------------------------------

  lemma DataElementsStep(rs: seq<Record>, unit: nat)
    requires rs != [] && Whole(DataElements(rs), unit)
    ensures var before, last := rs[..|rs| - 1], rs[|rs| - 1];
            Whole(DataElements(before), unit) && (last.Data? ==> |last.data| % unit == 0)
  {
    var before, last := rs[..|rs| - 1], rs[|rs| - 1];
    forall e | e in DataElements(before) ensures |e.data| % unit == 0 {
      assert e in DataElements(rs);
    }
    if last.Data? {
      assert DataElements(rs)[|DataElements(before)|] in DataElements(rs);
    }
  }

  lemma AlwaysWhole(es: seq<Element>)
    ensures Whole(es, SINGLE_BYTE)
  {}

  /** The loader's state counts the records read, and if all of them have whole addresses, describes their memory. */
  ghost predicate Means(l: Loader, rs: seq<Record>, unit: nat) {
    l.upper == Upper(rs) && l.base == Base(rs) && l.size == Length(l.elements) == Length(DataElements(rs))
    && (Whole(DataElements(rs), unit) ==> Whole(l.elements, unit) && SameMemory(l.elements, DataElements(rs), unit))
  }

  /** What one more valid record does to the loader and to the records' meaning. */
  lemma RecordStep(l: Loader, before: seq<Record>, r: Record, unit: nat)
    requires unit > 0 && l.status == Reading && Valid(r) && !r.EndOfFile?
    requires l.upper == Upper(before) && l.base == Base(before)
    ensures var m, rs := LoadRecord(l, r, unit), before + [r];
            && m.status == Reading && m.upper == Upper(rs) && m.base == Base(rs)
            && if r.Data? then
                 var e := Element(Target(l.upper, l.base, r.address), r.data);
                 m.elements == Append(l.elements, e, unit) && m.size == l.size + |e.data|
                 && DataElements(rs) == DataElements(before) + [e]
               else m.elements == l.elements && m.size == l.size && DataElements(rs) == DataElements(before)
  {
    var rs := before + [r];
    assert rs[..|rs| - 1] == before;
    hide Valid, Target, Append;
  }

  lemma RecordKeepsMeaning(l: Loader, before: seq<Record>, r: Record, unit: nat)
    requires Addressing(unit) && l.status == Reading && Means(l, before, unit) && Valid(r) && !r.EndOfFile?
    ensures var m := LoadRecord(l, r, unit); m.status == Reading && Means(m, before + [r], unit)
  {
    var rs := before + [r];
    assert rs[..|rs| - 1] == before && unit > 0;
    hide Valid, Target, SameMemory, Whole, Append, Length, DataElements, LoadRecord, Upper, Base;
    RecordStep(l, before, r, unit);
    if Whole(DataElements(rs), unit) {
      DataElementsStep(rs, unit);
    }
    if r.Data? {
      DataCounts(l.elements, DataElements(before), Element(Target(l.upper, l.base, r.address), r.data), unit);
    }
  }

  lemma DataCounts(es: seq<Element>, ds: seq<Element>, e: Element, unit: nat)
    requires Addressing(unit) && Length(es) == Length(ds)
    ensures Length(Append(es, e, unit)) == Length(ds + [e]) == Length(es) + |e.data|
    ensures Whole(es, unit) && SameMemory(es, ds, unit) && |e.data| % unit == 0 ==>
              Whole(Append(es, e, unit), unit) && SameMemory(Append(es, e, unit), ds + [e], unit)
  {
    hide SameMemory, Whole, Append, Length;
    AppendLength(es, e, unit);
    LengthConcat(ds, [e]);
    LengthOfOne(e);
    if Whole(es, unit) && SameMemory(es, ds, unit) && |e.data| % unit == 0 {
      RecordKeepsMemory(es, ds, e, unit);
    }
  }

  lemma RecordKeepsMemory(es: seq<Element>, ds: seq<Element>, e: Element, unit: nat)
    requires Whole(es, unit) && SameMemory(es, ds, unit) && |e.data| % unit == 0
    ensures Whole(Append(es, e, unit), unit) && SameMemory(Append(es, e, unit), ds + [e], unit)
  {
    hide SameMemory, Append;
    AppendKeepsMemory(es, e, unit);
    SameAfterAppend(es, ds, e, unit);
    SameMemoryTransitive(Append(es, e, unit), es + [e], ds + [e], unit);
  }

  lemma SameMemoryTransitive(xs: seq<Element>, ys: seq<Element>, zs: seq<Element>, unit: nat)
    requires SameMemory(xs, ys, unit) && SameMemory(ys, zs, unit)
    ensures SameMemory(xs, zs, unit)
  {
    hide Holds;
  }

  lemma RecordStatus(l: Loader, r: Record, unit: nat)
    requires unit > 0
    ensures l.status != Reading ==> LoadRecord(l, r, unit) == l
    ensures l.status == Reading && !Valid(r) ==> LoadRecord(l, r, unit).status == Failed
  {
    hide Valid, Append;
  }

  lemma LoadSnoc(before: seq<Record>, r: Record, unit: nat)
    requires unit > 0
    ensures Load(before + [r], unit) == LoadRecord(Load(before, unit), r, unit)
  {
    hide LoadRecord;
    var rs := before + [r];
    assert rs[..|rs| - 1] == before;
  }

  lemma EndedSnoc(before: seq<Record>, r: Record)
    ensures Ended(before + [r]) <==> Ended(before) || r.EndOfFile?
    ensures AllValid(before + [r]) <==> AllValid(before) && Valid(r)
  {
    hide Valid;
    var rs := before + [r];
    assert rs[|before|] == r;
    if i :| 0 <= i < |before| && before[i].EndOfFile? {
      assert rs[i] == before[i];
    }
    if AllValid(rs) {
      forall i | 0 <= i < |before| ensures Valid(before[i]) {
        assert rs[i] == before[i];
      }
    }
  }

  lemma MeansNothing(unit: nat)
    ensures Means(START, [], unit)
  {}

  /** Reading goes on exactly as long as all records are valid, and then the loader holds what they mean. */
  lemma {:induction false} LoadMeaning(rs: seq<Record>, unit: nat)
    requires Addressing(unit) && !Ended(rs)
    ensures var l := Load(rs, unit);
            && l.status != Finished && (l.status == Reading <==> AllValid(rs))
            && (l.status == Reading ==> Means(l, rs, unit))
  {
    if rs == [] {
      MeansNothing(unit);
    } else {
      var before, last := rs[..|rs| - 1], rs[|rs| - 1];
      assert rs == before + [last];
      assert unit > 0;
      hide *;
      LoadSnoc(before, last, unit);
      EndedSnoc(before, last);
      LoadMeaning(before, unit);
      var l := Load(before, unit);
      RecordStatus(l, last, unit);
      if l.status == Reading && Valid(last) {
        RecordKeepsMeaning(l, before, last, unit);
      }
    }
  }

  lemma {:induction false} StoppedStays(rs: seq<Record>, k: nat, unit: nat)
    requires unit > 0 && k <= |rs| && Load(rs[..k], unit).status != Reading
    ensures Load(rs, unit) == Load(rs[..k], unit)
  {
    if k == |rs| {
      assert rs[..k] == rs;
    } else {
      var before, last := rs[..|rs| - 1], rs[|rs| - 1];
      assert rs == before + [last] && before[..k] == rs[..k];
      hide *;
      StoppedStays(before, k, unit);
      LoadSnoc(before, last, unit);
      RecordStatus(Load(before, unit), last, unit);
    }
  }

  /** The loader accepts exactly the valid files, and then its table describes the memory of the data records. */
  lemma LoadedImage(rs: seq<Record>, unit: nat)
    requires Addressing(unit)
    ensures Load(rs, unit).status != Failed <==> Accepted(rs)
    ensures Load(rs, unit).status != Failed ==>
      Means(Load(rs, unit), Body(rs), unit)
      && Load(Body(rs), unit).status == Reading && Load(rs, unit).elements == Load(Body(rs), unit).elements
  {
    var body := Body(rs);
    assert rs[..|body|] == body;
    assert Accepted(rs) <==> AllValid(body) && (|body| < |rs| ==> Valid(rs[|body|]));
    assert unit > 0;
    hide *;
    LoadMeaning(body, unit);
    var l := Load(body, unit);
    if l.status != Reading {
      StoppedStays(rs, |body|, unit);
    } else if |body| < |rs| {
      var end := rs[|body|];
      assert rs[..|body| + 1] == body + [end];
      LoadSnoc(body, end, unit);
      LoadEnd(l, end, body, unit);
      StoppedStays(rs, |body| + 1, unit);
    } else {
      assert rs == body;
    }
  }

  lemma LoadEnd(l: Loader, end: Record, body: seq<Record>, unit: nat)
    requires unit > 0 && l.status == Reading && end.EndOfFile? && Means(l, body, unit)
    ensures var m := LoadRecord(l, end, unit);
            m.status == (if Valid(end) then Finished else Failed) && Means(m, body, unit) && m.elements == l.elements
  {
    hide Valid, SameMemory, DataElements, Whole;
  }

  // ----- Compaction ------------------------------------------------------------------------------------

  /** The code's test for merging neighbours, which always counts two bytes per address. */
  predicate Adjacent(a: Element, b: Element) { a.address + |a.data| / 2 == b.address }

  /**
   One pass from position i. A merged element is not looked at again, and merging the last pair moves the
   loop past its end condition: from there on the code runs off the table, and nothing is defined.
   */
  function Compact(es: seq<Element>, i: nat): Option<seq<Element>>
    requires i < |es|
    decreases |es| - i
  {
    if i == |es| - 1 then Some(es)
    else if !Adjacent(es[i], es[i + 1]) then Compact(es, i + 1)
    else if i + 1 == |es| - 1 then None
    else Compact(es[..i] + [Join(es[i], es[i + 1])] + es[i + 2..], i + 1)
  }

  /**
   The pass over three elements: the first two are merged if, with two bytes per address, the second begins where the
   first ends; the result is not tried again with the third. Nothing is defined if only the last two would merge.
   */
  lemma ThreeElements(a: Element, b: Element, c: Element)
    ensures var first := a.address + |a.data| / 2 == b.address;
            var second := b.address + |b.data| / 2 == c.address;
            Compact([a, b, c], 0) == if first then Some([Element(a.address, a.data + b.data), c])
                                     else if second then None
                                     else Some([a, b, c])
  {
    var es, joined := [a, b, c], Join(a, b);
    assert es[..0] + [joined] + es[2..] == [joined, c];
    TwoElements(joined, c);
    MiddleOfThree(a, b, c);
  }

  lemma TwoElements(a: Element, b: Element)
    ensures Compact([a, b], 1) == Some([a, b])
  {}

  lemma MiddleOfThree(a: Element, b: Element, c: Element)
    ensures Compact([a, b, c], 1) == if Adjacent(b, c) then None else Some([a, b, c])
  {
    hide Adjacent, Join;
  }

  /** How many neighbouring pairs at the end of the table would merge, one after the other. */
  function TrailingRun(es: seq<Element>): nat {
    if |es| < 2 || !Adjacent(es[|es| - 2], es[|es| - 1]) then 0 else 1 + TrailingRun(es[..|es| - 1])
  }

  lemma {:induction false} TrailingRunDrop(es: seq<Element>)
    requires |es| >= 2
    ensures TrailingRun(es[1..]) <= |es| - 2
    ensures TrailingRun(es) == if TrailingRun(es[1..]) == |es| - 2 && Adjacent(es[0], es[1])
                               then |es| - 1 else TrailingRun(es[1..])
  {
    hide Adjacent;
    if |es| > 2 && Adjacent(es[|es| - 2], es[|es| - 1]) {
      TrailingRunDrop(es[..|es| - 1]);
      assert es[..|es| - 1][1..] == es[1..][..|es| - 2];
    }
  }

  /** Exactly when the pass is defined: an even number of mergeable pairs at the end of the table. */
  lemma {:induction false} CompactDefined(es: seq<Element>, i: nat)
    requires i < |es|
    ensures Compact(es, i).Some? <==> TrailingRun(es[i..]) % 2 == 0
    decreases |es| - i
  {
    hide Adjacent, Join;
    var rest := es[i..];
    if |rest| >= 2 {
      TrailingRunDrop(rest);
      assert rest[1..] == es[i + 1..] && rest[0] == es[i] && rest[1] == es[i + 1];
      if !Adjacent(es[i], es[i + 1]) {
        CompactDefined(es, i + 1);
      } else if |rest| > 2 {
        TrailingRunDrop(rest[1..]);
        assert rest[1..][1..] == es[i + 2..];
        MergedRest(es, i, Join(es[i], es[i + 1]));
        CompactDefined(es[..i] + [Join(es[i], es[i + 1])] + es[i + 2..], i + 1);
      }
    }
  }

  lemma MergedRest(es: seq<Element>, i: nat, e: Element)
    requires i + 2 <= |es|
    ensures var merged := es[..i] + [e] + es[i + 2..];
            |merged| == |es| - 1 && merged[i + 1..] == es[i + 2..]
  {}

  /** From position i on, every pair the pass would merge can be joined without loss. */
  predicate NeighboursJoin(es: seq<Element>, i: nat, unit: nat) {
    forall k :: i <= k < |es| - 1 && Adjacent(es[k], es[k + 1]) ==> Joinable(es[k], es[k + 1], unit)
  }

  /** The halved length is right for 16-bit addresses, and harmless for disjoint byte-addressed elements. */
  lemma AdjacentJoins(a: Element, b: Element, unit: nat)
    requires Adjacent(a, b)
    requires (unit == DOUBLE_BYTE && |a.data| % 2 == 0) || (unit == SINGLE_BYTE && Apart(a, b, unit))
    ensures Joinable(a, b, unit)
  {
    if unit == SINGLE_BYTE {
      NotBoth(a, b, unit, b.address);
    }
  }

  lemma NotBoth(a: Element, b: Element, unit: nat, x: int)
    requires Apart(a, b, unit)
    ensures !Occupies(a, unit, x) || !Occupies(b, unit, x)
  {}

  lemma {:induction false} CompactKeepsMemory(es: seq<Element>, i: nat, unit: nat)
    requires i < |es| && NeighboursJoin(es, i, unit) && Compact(es, i).Some?
    ensures SameMemory(Compact(es, i).value, es, unit) && Length(Compact(es, i).value) == Length(es)
    decreases |es| - i
  {
    if i + 1 < |es| {
      hide SameMemory, Joinable, Join, Length;
      if !Adjacent(es[i], es[i + 1]) {
        CompactKeepsMemory(es, i + 1, unit);
      } else {
        var merged := es[..i] + [Join(es[i], es[i + 1])] + es[i + 2..];
        assert es == es[..i] + [es[i], es[i + 1]] + es[i + 2..];
        JoinInside(es[..i], es[i], es[i + 1], es[i + 2..], unit);
        forall k | i + 1 <= k < |merged| - 1 && Adjacent(merged[k], merged[k + 1])
          ensures Joinable(merged[k], merged[k + 1], unit)
        {
          assert merged[k] == es[k + 1] && merged[k + 1] == es[k + 2];
        }
        CompactKeepsMemory(merged, i + 1, unit);
        SameMemoryTransitive(Compact(es, i).value, merged, es, unit);
      }
    } else {
      assert SameMemory(es, es, unit);
    }
  }

  // ----- Sorting ---------------------------------------------------------------------------------------

  /** The address as it is compared: in a signed word. */
  function Rank(e: Element): int { AsInt(e.address) }

  predicate Sorted(es: seq<Element>) {
    forall i, j :: 0 <= i < j < |es| ==> Rank(es[i]) <= Rank(es[j])
  }

  lemma RearrangedMemory(xs: seq<Element>, ys: seq<Element>, unit: nat)
    requires multiset(xs) == multiset(ys)
    ensures SameMemory(xs, ys, unit)
  {
    hide Stores;
    forall x, v ensures Holds(xs, unit, x, v) <==> Holds(ys, unit, x, v) {
      if i :| 0 <= i < |xs| && Stores(xs[i], unit, x, v) {
        var k := InBoth(xs, ys, i);
      }
      if i :| 0 <= i < |ys| && Stores(ys[i], unit, x, v) {
        var k := InBoth(ys, xs, i);
      }
    }
  }

  lemma RearrangedDisjoint(xs: seq<Element>, ys: seq<Element>, unit: nat)
    requires multiset(xs) == multiset(ys) && Disjoint(xs, unit)
    ensures Disjoint(ys, unit)
  {
    hide Apart;
    forall i, j | 0 <= i < j < |ys| ensures Apart(ys[i], ys[j], unit) {
      var k, l := PairInBoth(ys, xs, i, j);
      ApartSymmetric(xs[k], xs[l], unit);
      assert if k < l then Apart(xs[k], xs[l], unit) else Apart(xs[l], xs[k], unit);
    }
  }

  lemma ApartSymmetric(a: Element, b: Element, unit: nat)
    ensures Apart(a, b, unit) <==> Apart(b, a, unit)
  {}

  lemma RearrangedWhole(xs: seq<Element>, ys: seq<Element>, unit: nat)
    requires multiset(xs) == multiset(ys) && Whole(xs, unit)
    ensures Whole(ys, unit)
  {
    forall e | e in ys ensures e in xs {
      assert e in multiset(xs);
    }
  }

  lemma {:induction false} RearrangedLength(xs: seq<Element>, ys: seq<Element>)
    requires multiset(xs) == multiset(ys)
    ensures Length(xs) == Length(ys)
  {
    if xs == [] {
      assert |multiset(ys)| == 0;
      assert ys == [];
    } else {
      var n := |xs| - 1;
      var k := InBoth(xs, ys, n);
      var rest := ys[..k] + ys[k + 1..];
      WithoutOne(xs, ys, n, k);
      RearrangedLength(xs[..n], rest);
      LengthWithout(ys, k);
    }
  }

  lemma WithoutOne(xs: seq<Element>, ys: seq<Element>, n: nat, k: nat)
    requires multiset(xs) == multiset(ys) && n == |xs| - 1 && k < |ys| && ys[k] == xs[n]
    ensures multiset(ys[..k] + ys[k + 1..]) == multiset(xs[..n])
  {
    var rest := ys[..k] + ys[k + 1..];
    assert ys == ys[..k] + [ys[k]] + ys[k + 1..];
    assert xs == xs[..n] + [xs[n]];
    assert multiset(ys) == multiset(rest) + multiset{ys[k]};
    assert multiset(xs) == multiset(xs[..n]) + multiset{xs[n]};
    assert multiset(rest) == multiset(ys) - multiset{ys[k]};
    assert multiset(xs[..n]) == multiset(xs) - multiset{xs[n]};
  }

  lemma LengthWithout(ys: seq<Element>, k: nat)
    requires k < |ys|
    ensures Length(ys) == Length(ys[..k] + ys[k + 1..]) + |ys[k].data|
  {
    assert ys == ys[..k] + [ys[k]] + ys[k + 1..];
    LengthConcat(ys[..k] + [ys[k]], ys[k + 1..]);
    LengthConcat(ys[..k], [ys[k]]);
    LengthConcat(ys[..k], ys[k + 1..]);
    LengthOfOne(ys[k]);
  }

  // ----- Disjoint records give disjoint elements --------------------------------------------------------

  lemma OccupiedHolds(es: seq<Element>, i: nat, unit: nat, x: int)
    requires i < |es| && Occupies(es[i], unit, x)
    ensures exists v :: Holds(es, unit, x, v)
  {
    var v := es[i].data[x - Start(es[i], unit)];
    assert Stores(es[i], unit, x, v);
    assert Holds(es, unit, x, v);
  }

  lemma ApartFromAll(xs: seq<Element>, ys: seq<Element>, e: Element, unit: nat)
    requires SameMemory(xs, ys, unit) && Disjoint(ys + [e], unit)
    ensures forall i :: 0 <= i < |xs| ==> Apart(xs[i], e, unit)
  {
    var all := ys + [e];
    forall i, x | 0 <= i < |xs| ensures !(Occupies(xs[i], unit, x) && Occupies(e, unit, x)) {
      if Occupies(xs[i], unit, x) {
        OccupiedHolds(xs, i, unit, x);
        var v :| Holds(xs, unit, x, v);
        assert Holds(ys, unit, x, v);
        var k :| 0 <= k < |ys| && Stores(ys[k], unit, x, v);
        assert all[k] == ys[k] && all[|ys|] == e;
        NotBoth(all[k], all[|ys|], unit, x);
      }
    }
  }

  lemma DisjointAppend(es: seq<Element>, e: Element, unit: nat)
    requires Whole(es, unit) && Disjoint(es, unit) && forall i :: 0 <= i < |es| ==> Apart(es[i], e, unit)
    ensures Disjoint(Append(es, e, unit), unit)
  {
    var r := Append(es, e, unit);
    if r != es + [e] {
      var n := |es| - 1;
      assert es[n] in es;
      WholeTouches(es[n], e, unit);
      assert r == es[..n] + [Join(es[n], e)];
      hide Append, Apart, Touching;
      forall i | 0 <= i < n ensures Apart(r[i], r[n], unit) {
        ApartFromJoin(es[i], es[n], e, unit);
      }
      forall i, j | 0 <= i < j < n ensures Apart(r[i], r[j], unit) {
        assert Apart(es[i], es[j], unit);
      }
    }
  }

  lemma ApartFromJoin(c: Element, a: Element, b: Element, unit: nat)
    requires Touching(a, b, unit) && Apart(c, a, unit) && Apart(c, b, unit)
    ensures Apart(c, Join(a, b), unit)
  {
    forall x ensures !(Occupies(c, unit, x) && Occupies(Join(a, b), unit, x)) {
      JoinOccupies(a, b, unit, x);
      NotBoth(c, a, unit, x);
      NotBoth(c, b, unit, x);
    }
  }

  lemma JoinOccupies(a: Element, b: Element, unit: nat, x: int)
    requires Touching(a, b, unit)
    ensures Occupies(Join(a, b), unit, x) <==> Occupies(a, unit, x) || Occupies(b, unit, x)
  {}

  lemma SnocElements(before: seq<Record>, r: Record, unit: nat)
    requires unit > 0 && Valid(r) && !r.EndOfFile? && Load(before, unit).status == Reading
             && Means(Load(before, unit), before, unit)
    ensures DataElements(before) <= DataElements(before + [r])
    ensures var es, next := Load(before, unit).elements, Load(before + [r], unit).elements;
            if r.Data? then
              var e := Element(Target(Upper(before), Base(before), r.address), r.data);
              next == Append(es, e, unit) && DataElements(before + [r]) == DataElements(before) + [e]
            else next == es && DataElements(before + [r]) == DataElements(before)
  {
    LoadSnoc(before, r, unit);
    var rs := before + [r];
    assert rs[..|rs| - 1] == before;
    hide Valid, Append, Load, SameMemory;
  }

  lemma {:induction false} DisjointLoad(rs: seq<Record>, unit: nat)
    requires Whole(DataElements(rs), unit) && !Ended(rs) && AllValid(rs) && Disjoint(DataElements(rs), unit)
    ensures Disjoint(Load(rs, unit).elements, unit)
  {
    if rs != [] {
      var before, last := rs[..|rs| - 1], rs[|rs| - 1];
      assert rs == before + [last];
      DataElementsStep(rs, unit);
      EndedSnoc(before, last);
      LoadMeaning(before, unit);
      SnocElements(before, last, unit);
      DisjointPrefix(DataElements(before), DataElements(rs), unit);
      DisjointLoad(before, unit);
      var l := Load(before, unit);
      hide Load, Valid, DataElements, Apart, SameMemory, Append, Target;
      if last.Data? {
        var e := Element(Target(Upper(before), Base(before), last.address), last.data);
        ApartFromAll(l.elements, DataElements(before), e, unit);
        DisjointAppend(l.elements, e, unit);
      }
    }
  }

  lemma DisjointPrefix(xs: seq<Element>, ys: seq<Element>, unit: nat)
    requires xs <= ys && Disjoint(ys, unit)
    ensures Disjoint(xs, unit)
  {
    hide Apart;
    forall i, j | 0 <= i < j < |xs| ensures Apart(xs[i], xs[j], unit) {
      assert Apart(ys[i], ys[j], unit);
    }
  }

  // ----- Addresses stay 32 bits wide -----------------------------------------------------------------------

  predicate Narrow(es: seq<Element>) { forall i :: 0 <= i < |es| ==> es[i].address < 0x1_0000_0000 }

  lemma {:induction false} NarrowLoad(rs: seq<Record>, unit: nat)
    requires unit > 0
    ensures Narrow(Load(rs, unit).elements)
  {
    hide Valid;
    if rs != [] {
      NarrowLoad(rs[..|rs| - 1], unit);
    }
  }

  lemma {:induction false} NarrowCompact(es: seq<Element>, i: nat)
    requires i < |es| && Narrow(es) && Compact(es, i).Some?
    ensures Narrow(Compact(es, i).value)
    decreases |es| - i
  {
    if i + 1 < |es| {
      NarrowCompact(if Adjacent(es[i], es[i + 1]) then es[..i] + [Join(es[i], es[i + 1])] + es[i + 2..] else es, i + 1);
    }
  }

  lemma NarrowArrangement(s: seq<Element>, es: seq<Element>)
    requires multiset(s) == multiset(es) && Narrow(es)
    ensures Narrow(s)
  {
    forall i | 0 <= i < |s| ensures s[i].address < 0x1_0000_0000 {
      var k := InBoth(s, es, i);
    }
  }

  // ----- Which tables can be compacted ---------------------------------------------------------------------

  ghost predicate Arrangement(s: seq<Element>, es: seq<Element>) { Sorted(s) && multiset(s) == multiset(es) }

  /** Whatever order the sort leaves equal addresses in, the pass over the table is defined. */
  ghost predicate SafeToCompact(es: seq<Element>) {
    forall s :: Arrangement(s, es) ==> s != [] && Compact(s, 0).Some?
  }

  function InsertByAddress(e: Element, es: seq<Element>): seq<Element> {
    if es == [] || Rank(e) < Rank(es[0]) then [e] + es else [es[0]] + InsertByAddress(e, es[1..])
  }

  lemma SortedCons(e: Element, es: seq<Element>)
    requires Sorted(es) && forall x :: x in es ==> Rank(e) <= Rank(x)
    ensures Sorted([e] + es)
  {
    assert forall i :: 0 <= i < |es| ==> es[i] in es;
  }

  lemma {:induction false} InsertedByAddress(e: Element, es: seq<Element>)
    requires Sorted(es)
    ensures Sorted(InsertByAddress(e, es)) && multiset(InsertByAddress(e, es)) == multiset(es) + multiset{e}
  {
    if es == [] {
    } else if Rank(e) < Rank(es[0]) {
      SortedCons(e, es);
    } else {
      var first, rest := es[0], es[1..];
      var r := InsertByAddress(e, rest);
      InsertedByAddress(e, rest);
      assert es == [first] + rest;
      forall x | x in r ensures Rank(first) <= Rank(x) {
        assert x in multiset(r);
        assert x == e || x in rest;
      }
      SortedCons(first, r);
      assert InsertByAddress(e, es) == [first] + r;
      assert multiset([first] + r) == multiset{first} + multiset(r);
    }
  }

  function SortedTable(es: seq<Element>): seq<Element> {
    if es == [] then [] else InsertByAddress(es[|es| - 1], SortedTable(es[..|es| - 1]))
  }

  lemma {:induction false} SortedTableArranges(es: seq<Element>)
    ensures Arrangement(SortedTable(es), es)
  {
    if es != [] {
      var before, e := es[..|es| - 1], es[|es| - 1];
      assert es == before + [e];
      SortedTableArranges(before);
      InsertedByAddress(e, SortedTable(before));
    }
  }

  predicate Distinct(es: seq<Element>) { forall i, j :: 0 <= i < j < |es| ==> es[i].address != es[j].address }

  /** A strictly ascending table is the only sorted arrangement of its elements. */
  lemma {:induction false} SortedOnlyOnce(es: seq<Element>, s: seq<Element>)
    requires forall i, j :: 0 <= i < j < |es| ==> Rank(es[i]) < Rank(es[j])
    requires Sorted(s) && multiset(s) == multiset(es)
    ensures s == es
  {
    if es == [] {
      assert |multiset(s)| == 0;
    } else {
      var n := |es| - 1;
      var k := InBoth(es, s, n);
      var m := |s| - 1;
      var l := InBoth(s, es, m);
      assert s[m] == es[n];
      DropLast(s, es);
      SortedOnlyOnce(es[..n], s[..m]);
    }
  }

  lemma RanksRise(es: seq<Element>, t: seq<Element>)
    requires Narrow(es) && Distinct(es) && Arrangement(t, es)
    ensures forall i, j :: 0 <= i < j < |t| ==> Rank(t[i]) < Rank(t[j])
  {
    forall i, j | 0 <= i < j < |t| ensures Rank(t[i]) < Rank(t[j]) {
      var k, l := PairInBoth(t, es, i, j);
      assert es[k].address != es[l].address;
      assert Rank(t[i]) <= Rank(t[j]);
    }
  }

  /** With distinct addresses there is one sorted arrangement. */
  lemma OnlyArrangement(es: seq<Element>, s: seq<Element>)
    requires Narrow(es) && Distinct(es)
    ensures Arrangement(s, es) <==> s == SortedTable(es)
  {
    SortedTableArranges(es);
    RanksRise(es, SortedTable(es));
    hide Rank, SortedTable, Narrow, Distinct, Sorted;
    if Arrangement(s, es) {
      SortedOnlyOnce(SortedTable(es), s);
    }
  }

  /** Sorting leaves a table with distinct addresses alone exactly if it is sorted. */
  lemma KeptExactlyWhenSorted(es: seq<Element>)
    requires Narrow(es) && Distinct(es)
    ensures (forall s :: Arrangement(s, es) ==> s == es) <==> Sorted(es)
  {
    hide Narrow, Distinct, SortedTable;
    SortedTableArranges(es);
    OnlyArrangement(es, es);
    forall s | Arrangement(s, es) ensures s == SortedTable(es) {
      OnlyArrangement(es, s);
    }
    hide Sorted;
  }

  /** Exactly when a table with distinct addresses can be compacted. */
  lemma SafeExactlyWhenEven(es: seq<Element>)
    requires Narrow(es) && Distinct(es)
    ensures SafeToCompact(es) <==> es != [] && TrailingRun(SortedTable(es)) % 2 == 0
  {
    var t := SortedTable(es);
    hide SortedTable, Compact, TrailingRun, Distinct, Narrow, Sorted;
    SortedTableArranges(es);
    forall s | Arrangement(s, es) ensures s == t {
      OnlyArrangement(es, s);
    }
    assert |multiset(t)| == |multiset(es)|;
    if es != [] {
      CompactDefined(t, 0);
      assert t[0..] == t;
    }
  }

  /** No two elements pass the test for merging, in whatever order they stand. */
  predicate Loose(es: seq<Element>) {
    forall i, j :: 0 <= i < |es| && 0 <= j < |es| && i != j ==> !Adjacent(es[i], es[j])
  }

  lemma {:induction false} NothingToCompact(es: seq<Element>, i: nat)
    requires i < |es| && forall k :: i <= k < |es| - 1 ==> !Adjacent(es[k], es[k + 1])
    ensures Compact(es, i) == Some(es)
    decreases |es| - i
  {
    if i + 1 < |es| {
      NothingToCompact(es, i + 1);
    }
  }

  lemma LooseIsSafe(es: seq<Element>)
    requires es != [] && Loose(es)
    ensures SafeToCompact(es) && forall s :: Arrangement(s, es) ==> Compact(s, 0) == Some(s)
  {
    hide Adjacent, Compact, Sorted;
    forall s | Arrangement(s, es) ensures s != [] && Compact(s, 0) == Some(s) {
      assert |multiset(s)| == |multiset(es)|;
      forall k | 0 <= k < |s| - 1 ensures !Adjacent(s[k], s[k + 1]) {
        var i, j := PairInBoth(s, es, k, k + 1);
      }
      NothingToCompact(s, 0);
    }
  }

  predicate NoneEmpty(es: seq<Element>) { forall e :: e in es ==> e.data != [] }

  lemma DisjointIsDistinct(es: seq<Element>, unit: nat)
    requires NoneEmpty(es) && Disjoint(es, unit)
    ensures Distinct(es)
  {
    forall i, j | 0 <= i < j < |es| ensures es[i].address != es[j].address {
      NotBoth(es[i], es[j], unit, Start(es[i], unit));
    }
  }

  /** Half the length of a byte-addressed element is inside it, where no disjoint element starts. */
  lemma DisjointBytesAreLoose(es: seq<Element>)
    requires NoneEmpty(es) && Disjoint(es, SINGLE_BYTE)
    ensures Loose(es)
  {
    forall i, j | 0 <= i < |es| && 0 <= j < |es| && i != j ensures !Adjacent(es[i], es[j]) {
      ApartSymmetric(es[i], es[j], SINGLE_BYTE);
      NotBoth(es[i], es[j], SINGLE_BYTE, es[j].address);
    }
  }

  lemma NoneEmptySnoc(es: seq<Element>, e: Element)
    ensures NoneEmpty(es + [e]) <==> NoneEmpty(es) && e.data != []
  {
    assert forall x :: x in es + [e] <==> x in es || x == e;
  }

  lemma NoneEmptyAppend(es: seq<Element>, e: Element, unit: nat)
    requires unit > 0 && NoneEmpty(es) && e.data != []
    ensures NoneEmpty(Append(es, e, unit))
  {}

  lemma {:induction false} NoneEmptyLoad(rs: seq<Record>, unit: nat)
    requires Addressing(unit) && !Ended(rs) && AllValid(rs) && NoneEmpty(DataElements(rs))
    ensures NoneEmpty(Load(rs, unit).elements)
  {
    if rs != [] {
      var before, last := rs[..|rs| - 1], rs[|rs| - 1];
      assert rs == before + [last] && unit > 0;
      hide *;
      EndedSnoc(before, last);
      LoadMeaning(before, unit);
      SnocElements(before, last, unit);
      var es := Load(before, unit).elements;
      if last.Data? {
        var e := Element(Target(Upper(before), Base(before), last.address), last.data);
        NoneEmptySnoc(DataElements(before), e);
        NoneEmptyLoad(before, unit);
        NoneEmptyAppend(es, e, unit);
      } else {
        NoneEmptyLoad(before, unit);
      }
    }
  }

  /**
   Records that are disjoint and not empty, in any order. Byte-addressed ones never merge, and the pass is always
   defined; with two bytes per address it is defined exactly if an even number of pairs at the end of the sorted
   table would merge.
   */
  lemma DisjointFile(rs: seq<Record>, unit: nat)
    requires Accepted(rs) && Whole(DataElements(Body(rs)), unit) && Disjoint(DataElements(Body(rs)), unit)
    requires DataElements(Body(rs)) != [] && NoneEmpty(DataElements(Body(rs)))
    ensures var es := Load(rs, unit).elements;
            && (unit == SINGLE_BYTE ==>
                  SafeToCompact(es) && forall s :: Arrangement(s, es) ==> Compact(s, 0) == Some(s))
            && (SafeToCompact(es) <==> TrailingRun(SortedTable(es)) % 2 == 0)
  {
    LoadedImage(rs, unit);
    DisjointLoad(Body(rs), unit);
    NoneEmptyLoad(Body(rs), unit);
    NarrowLoad(rs, unit);
    var es, ds := Load(rs, unit).elements, DataElements(Body(rs));
    SomeLength(ds);
    assert Length(es) == Length(ds) && es != [];
    hide Load, DataElements, Body, Accepted, SafeToCompact, Narrow, Disjoint, NoneEmpty, Length, TrailingRun,
        SortedTable;
    DisjointIsDistinct(es, unit);
    SafeExactlyWhenEven(es);
    if unit == SINGLE_BYTE {
      DisjointBytesAreLoose(es);
      LooseIsSafe(es);
    }
  }

  lemma SomeLength(es: seq<Element>)
    requires es != [] && NoneEmpty(es)
    ensures Length(es) > 0
  {
    assert es[|es| - 1] in es;
  }

  // ----- Files in ascending order -----------------------------------------------------------------------

  function End(e: Element, unit: nat): nat { Start(e, unit) + |e.data| }

  /** Non-empty elements in ascending order that do not overlap. */
  predicate Rising(es: seq<Element>, unit: nat) {
    Whole(es, unit) && (forall i :: 0 <= i < |es| ==> es[i].data != [])
    && forall i :: 0 < i < |es| ==> End(es[i - 1], unit) <= Start(es[i], unit)
  }

  /** No element starts where the one before it ends: every element is a maximal run. */
  predicate Maximal(es: seq<Element>, unit: nat) {
    forall i :: 0 < i < |es| ==> End(es[i - 1], unit) != Start(es[i], unit)
  }

  lemma RisingSnoc(es: seq<Element>, e: Element, unit: nat)
    requires Addressing(unit) && Rising(es, unit) && Maximal(es, unit)
    requires e.data != [] && |e.data| % unit == 0 && (es != [] ==> End(es[|es| - 1], unit) < Start(e, unit))
    ensures Rising(es + [e], unit) && Maximal(es + [e], unit)
  {
    hide Start, End;
    var r := es + [e];
    forall x | x in r ensures |x.data| % unit == 0 {
      assert x in es || x == e;
    }
    forall i | 0 < i < |r|
      ensures End(r[i - 1], unit) <= Start(r[i], unit) && End(r[i - 1], unit) != Start(r[i], unit)
    {
      assert r[i - 1] == es[i - 1];
    }
  }

  lemma RisingReplaceLast(es: seq<Element>, j: Element, unit: nat)
    requires Rising(es, unit) && Maximal(es, unit) && es != [] && Start(j, unit) == Start(es[|es| - 1], unit)
    requires j.data != [] && |j.data| % unit == 0
    ensures Rising(es[..|es| - 1] + [j], unit) && Maximal(es[..|es| - 1] + [j], unit)
  {
    hide Start, End;
    var r := es[..|es| - 1] + [j];
    forall x | x in r ensures |x.data| % unit == 0 {
      assert x in es || x == j;
    }
  }

  lemma RisingAppend(es: seq<Element>, e: Element, unit: nat)
    requires Rising(es, unit) && Maximal(es, unit) && e.data != [] && |e.data| % unit == 0
    requires es != [] ==> End(es[|es| - 1], unit) <= Start(e, unit)
    ensures var r := Append(es, e, unit);
            Rising(r, unit) && Maximal(r, unit) && r != [] && End(r[|r| - 1], unit) == End(e, unit)
  {
    if es == [] {
      RisingSnoc(es, e, unit);
    } else {
      var a := es[|es| - 1];
      assert a in es;
      WholeTouches(a, e, unit);
      if Touching(a, e, unit) {
        assert Start(Join(a, e), unit) == Start(a, unit) && End(Join(a, e), unit) == End(e, unit);
        RisingReplaceLast(es, Join(a, e), unit);
      } else {
        RisingSnoc(es, e, unit);
      }
    }
    hide Start, End, Rising, Maximal;
  }

  /** The table ends where the records end. */
  predicate SameEnd(es: seq<Element>, ds: seq<Element>, unit: nat) {
    if ds == [] then es == [] else es != [] && End(es[|es| - 1], unit) == End(ds[|ds| - 1], unit)
  }

  lemma RisingPrefix(ds: seq<Element>, e: Element, unit: nat)
    requires Rising(ds + [e], unit)
    ensures Rising(ds, unit) && e.data != [] && |e.data| % unit == 0
    ensures ds != [] ==> End(ds[|ds| - 1], unit) <= Start(e, unit)
  {
    hide Start, End;
    var all := ds + [e];
    assert forall i :: 0 <= i < |ds| ==> ds[i] == all[i] && all[i] in all;
    assert all[|ds|] == e && e in all;
    assert forall x :: x in ds ==> x in all;
    if ds != [] {
      assert all[|ds| - 1] == ds[|ds| - 1];
    }
  }

  lemma RisingRecord(es: seq<Element>, ds: seq<Element>, e: Element, unit: nat)
    requires Rising(es, unit) && Maximal(es, unit) && SameEnd(es, ds, unit) && Rising(ds + [e], unit)
    ensures var r := Append(es, e, unit); Rising(r, unit) && Maximal(r, unit) && SameEnd(r, ds + [e], unit)
  {
    RisingPrefix(ds, e, unit);
    hide Rising, Maximal, Append, End, Start;
    RisingAppend(es, e, unit);
  }

  lemma {:induction false} RisingLoad(rs: seq<Record>, unit: nat)
    requires !Ended(rs) && AllValid(rs) && Rising(DataElements(rs), unit)
    ensures var es := Load(rs, unit).elements;
            Rising(es, unit) && Maximal(es, unit) && SameEnd(es, DataElements(rs), unit)
  {
    if rs != [] {
      var before, last := rs[..|rs| - 1], rs[|rs| - 1];
      assert rs == before + [last];
      assert Whole(DataElements(rs), unit);
      hide *;
      DataElementsStep(rs, unit);
      EndedSnoc(before, last);
      LoadMeaning(before, unit);
      SnocElements(before, last, unit);
      var es, ds := Load(before, unit).elements, DataElements(before);
      if last.Data? {
        var e := Element(Target(Upper(before), Base(before), last.address), last.data);
        RisingPrefix(ds, e, unit);
        RisingLoad(before, unit);
        RisingRecord(es, ds, e, unit);
      } else {
        RisingLoad(before, unit);
      }
    }
  }

  lemma {:induction false} RisingApart(es: seq<Element>, unit: nat, i: nat, j: nat)
    requires Rising(es, unit) && Maximal(es, unit) && i < j < |es|
    ensures End(es[i], unit) < Start(es[j], unit)
  {
    if i + 1 < j {
      RisingApart(es, unit, i, j - 1);
    }
    assert End(es[j - 1], unit) <= Start(es[j], unit) && End(es[j - 1], unit) != Start(es[j], unit);
  }

  /** No maximal run continues another one, in either order, even with halved lengths. */
  lemma RisingIsLoose(es: seq<Element>, unit: nat)
    requires Rising(es, unit) && Maximal(es, unit)
    ensures Loose(es) && Distinct(es)
  {
    hide Rising, Maximal;
    assert Addressing(unit) by { RisingIsWhole(es, unit); }
    forall i, j | 0 <= i < j < |es|
      ensures !Adjacent(es[i], es[j]) && !Adjacent(es[j], es[i]) && es[i].address != es[j].address
    {
      RisingApart(es, unit, i, j);
    }
  }

  lemma RisingIsWhole(es: seq<Element>, unit: nat)
    requires Rising(es, unit)
    ensures Addressing(unit)
  {}

  /** All addresses are below 2 GiB, or all are not: as signed words they have the same order. */
  predicate OneSided(es: seq<Element>) {
    (forall e :: e in es ==> e.address < 0x8000_0000) || forall e :: e in es ==> e.address >= 0x8000_0000
  }

  lemma RisingSorted(es: seq<Element>, unit: nat)
    requires Rising(es, unit) && Maximal(es, unit) && Narrow(es)
    ensures Sorted(es) <==> OneSided(es)
  {
    hide Rising, Maximal;
    assert Addressing(unit) by { RisingIsWhole(es, unit); }
    forall i, j | 0 <= i < j < |es| ensures es[i].address < es[j].address {
      RisingApart(es, unit, i, j);
    }
    if !OneSided(es) {
      var low, high :| low in es && high in es && low.address < 0x8000_0000 <= high.address;
      var i :| 0 <= i < |es| && es[i] == low;
      var j :| 0 <= j < |es| && es[j] == high;
      assert i < j && Rank(es[i]) > Rank(es[j]);
    }
  }

  /**
   For data records in strictly ascending order compaction leaves the table alone, however it is sorted, and every
   element is a maximal run. Sorting leaves it alone too exactly if no address is on the other side of 2 GiB.
   */
  lemma AscendingFile(rs: seq<Record>, unit: nat)
    requires Accepted(rs) && Rising(DataElements(Body(rs)), unit) && DataElements(Body(rs)) != []
    ensures var es := Load(rs, unit).elements;
            && SafeToCompact(es) && Maximal(es, unit)
            && (forall s :: Arrangement(s, es) ==> Compact(s, 0) == Some(s))
            && ((forall s :: Arrangement(s, es) ==> s == es) <==> OneSided(es))
  {
    RisingIsWhole(DataElements(Body(rs)), unit);
    LoadedImage(rs, unit);
    RisingLoad(Body(rs), unit);
    NarrowLoad(rs, unit);
    var es := Load(rs, unit).elements;
    assert es != [];
    hide *;
    RisingIsLoose(es, unit);
    LooseIsSafe(es);
    RisingSorted(es, unit);
    KeptExactlyWhenSorted(es);
  }

  // ----- The code -----------------------------------------------------------------------------------------

  /** When the load succeeds and the pass is defined, sorting and compaction keep the memory and the size. */
  lemma ArrangedImage(es: seq<Element>, s: seq<Element>, unit: nat)
    requires Arrangement(s, es) && s != [] && Compact(s, 0).Some?
    requires Whole(es, unit) && (unit == DOUBLE_BYTE || Disjoint(es, unit))
    ensures SameMemory(Compact(s, 0).value, es, unit) && Length(Compact(s, 0).value) == Length(es)
  {
    RearrangedWhole(es, s, unit);
    RearrangedMemory(s, es, unit);
    RearrangedLength(s, es);
    if unit == SINGLE_BYTE {
      RearrangedDisjoint(es, s, unit);
    }
    hide Apart, Joinable, SameMemory, Holds, Length;
    forall k | 0 <= k < |s| - 1 && Adjacent(s[k], s[k + 1]) ensures Joinable(s[k], s[k + 1], unit) {
      assert s[k] in s;
      AdjacentJoins(s[k], s[k + 1], unit);
    }
    CompactKeepsMemory(s, 0, unit);
    SameMemoryTransitive(Compact(s, 0).value, s, es, unit);
  }

  lemma {:induction false} CompactLength(es: seq<Element>, i: nat)
    requires i < |es| && Compact(es, i).Some?
    ensures Length(Compact(es, i).value) == Length(es)
    decreases |es| - i
  {
    hide Adjacent, Length, Join;
    if i + 1 < |es| {
      if !Adjacent(es[i], es[i + 1]) {
        CompactLength(es, i + 1);
      } else {
        var merged := es[..i] + [Join(es[i], es[i + 1])] + es[i + 2..];
        assert es == es[..i] + [es[i], es[i + 1]] + es[i + 2..];
        JoinLength(es[..i], es[i], es[i + 1], es[i + 2..]);
        CompactLength(merged, i + 1);
      }
    }
  }

  class Image {
    var elements: seq<Element>
    var dataSize: nat

    constructor ()
      ensures elements == [] && dataSize == 0
    {
      elements, dataSize := [], 0;
    }

    /** Orders the table by address, elements at equal addresses in some order. */
    method SortElements()
      modifies this`elements
      ensures Arrangement(elements, old(elements))
    {
      var sorted := [];
      var k := 0;
      while k < |elements|
        invariant k <= |elements| && elements == old(elements)
        invariant Sorted(sorted) && multiset(sorted) == multiset(elements[..k])
      {
        InsertedByAddress(elements[k], sorted);
        assert elements[..k + 1] == elements[..k] + [elements[k]];
        sorted := InsertByAddress(elements[k], sorted);
        k := k + 1;
      }
      assert elements[..k] == elements;
      elements := sorted;
    }

    /** The merging pass over a sorted table on which it is defined. */
    method CompactPass()
      requires elements != [] && Compact(elements, 0).Some?
      modifies this`elements
      ensures Some(elements) == Compact(old(elements), 0)
    {
      hide Join, Adjacent;
      var it := 0;
      while it != |elements| - 1
        invariant it < |elements|
        invariant Compact(elements, it) == Compact(old(elements), 0)
        decreases |elements| - it
      {
        var e1, e2 := elements[it], elements[it + 1];
        if Adjacent(e1, e2) {
          elements := elements[..it] + [Join(e1, e2)] + elements[it + 2..];
        }
        it := it + 1;
      }
    }

    method CompactElements()
      requires SafeToCompact(elements)
      modifies this`elements
      ensures exists s :: Arrangement(s, old(elements)) && s != [] && Some(elements) == Compact(s, 0)
    {
      hide Compact;
      SortElements();
      CompactPass();
    }

    /** The reading loop: the table and size of the specification, or a failure. */
    method ReadRecords(records: seq<Record>, addrBytes: nat) returns (ok: bool)
      requires Addressing(addrBytes)
      modifies this
      ensures var l := Load(records, addrBytes);
              elements == l.elements && dataSize == l.size && ok == (l.status != Failed)
    {
      hide Valid, Target;
      elements, dataSize := [], 0;
      var base, upper: u16 := 0, 0;
      var i := 0;
      ok := true;
      assert records[..0] == [];
      while i < |records|
        invariant i <= |records| && ok
        invariant Load(records[..i], addrBytes) == Loader(elements, upper, base, dataSize, Reading)
      {
        var r := records[i];
        assert records[..i + 1] == records[..i] + [r];
        LoadSnoc(records[..i], r, addrBytes);
        i := i + 1;
        ghost var status := Load(records[..i], addrBytes).status;
        if status != Reading {
          StoppedStays(records, i, addrBytes);
        }
        hide Load;
        match r
        case Data(address, data, _) =>
          dataSize := dataSize + |data|;
          if !Valid(r) {
            ok := false;
            return;
          }
          elements := Append(elements, Element(Target(upper, base, address), data), addrBytes);
        case EndOfFile(_, _, _) =>
          ok := Valid(r);
          return;
        case ExtendedSegment(_, _, b, _) =>
          base := b;
          if !Valid(r) {
            ok := false;
            return;
          }
        case ExtendedLinear(_, _, u, _) =>
          upper := u;
          if !Valid(r) {
            ok := false;
            return;
          }
        case _ =>
          if !Valid(r) {
            ok := false;
            return;
          }
      }
      assert records[..i] == records;
    }

    /**
     Loads a file. It is accepted exactly if its records are valid up to the end-of-file record; then the
     size is the number of bytes in the table and, if no record ends within an address, the table describes the
     memory of the data records. Without a defined compaction pass the code's behaviour is undefined.
     */
    method LoadHex(records: seq<Record>, addrBytes: nat) returns (ok: bool)
      requires Addressing(addrBytes)
      requires Accepted(records) ==> SafeToCompact(Load(records, addrBytes).elements)
      modifies this
      ensures ok == Accepted(records)
      ensures ok ==> dataSize == Length(elements) == Length(DataElements(Body(records))) && Narrow(elements)
      ensures ok && (if addrBytes == DOUBLE_BYTE then Whole(DataElements(Body(records)), addrBytes)
                     else Disjoint(DataElements(Body(records)), addrBytes)) ==>
                SameMemory(elements, DataElements(Body(records)), addrBytes)
                && AllHeld(elements, Body(records), addrBytes)
    {
      ok := ReadRecords(records, addrBytes);
      LoadedImage(records, addrBytes);
      NarrowLoad(records, addrBytes);
      if ok {
        ghost var body, es := Body(records), elements;
        ghost var intact := if addrBytes == DOUBLE_BYTE then Whole(DataElements(body), addrBytes)
                            else Disjoint(DataElements(body), addrBytes);
        LoadMeaning(body, addrBytes);
        if addrBytes == SINGLE_BYTE {
          AlwaysWhole(DataElements(body));
        }
        if intact && addrBytes == SINGLE_BYTE {
          DisjointLoad(body, addrBytes);
        }
        assert Means(Load(records, addrBytes), body, addrBytes);
        assert intact ==> Whole(es, addrBytes) && SameMemory(es, DataElements(body), addrBytes);
        assert intact && addrBytes == SINGLE_BYTE ==> Disjoint(es, addrBytes);
        hide Whole, Means;
        hide Load, DataElements, Body, Compact, SameMemory, Disjoint, Accepted;
        CompactElements();
        ghost var s :| Arrangement(s, es) && s != [] && Some(elements) == Compact(s, 0);
        CompactLength(s, 0);
        RearrangedLength(s, es);
        NarrowArrangement(s, es);
        NarrowCompact(s, 0);
        if intact {
          ArrangedImage(es, s, addrBytes);
          SameMemoryTransitive(elements, es, DataElements(body), addrBytes);
          SameMemoryHolds(elements, body, addrBytes);
        }
      }
    }
  }
}
