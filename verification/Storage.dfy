/**
 Firmware images on storage: reading files and partitions, the CRC check, writing an item to a partition in
 zero-padded 16 KiB blocks, and the comparison that follows every write.
 */
module Storage {
  import opened Arithmetic
  import opened Bytes

  const SECTOR := 512
  const BLOCK := 0x4000
  const COPY_DISTANCE := 0x8_0000
  const COMPARE_BUFFER_SIZE := 0x10_0000

  // ----- Bytes at an offset --------------------------------------------------------------------------

  /** The bytes a read of n at offset o can deliver. */
  function Available(d: seq<byte>, o: nat, n: nat): (a: seq<byte>)
    ensures |a| <= n && (o + |a| <= |d| || a == [])
  {
    if o >= |d| then [] else if o + n <= |d| then d[o..o + n] else d[o..]
  }

  predicate Has(d: seq<byte>, o: nat, n: nat) { n == 0 || o + n <= |d| }

  /** The data after bytes have been stored at an offset; what does not fit is not stored. */
  function Stored(d: seq<byte>, o: nat, b: seq<byte>): (r: seq<byte>)
    ensures |r| == |d|
  {
    if o + |b| <= |d| then d[..o] + b + d[o + |b|..] else d
  }

  predicate SameElsewhere(d: seq<byte>, e: seq<byte>, o: nat, n: nat) {
    |d| == |e| && forall i :: 0 <= i < |d| && !(o <= i < o + n) ==> d[i] == e[i]
  }

  predicate Holds(d: seq<byte>, o: nat, b: seq<byte>) { b == [] || (o + |b| <= |d| && d[o..o + |b|] == b) }

  lemma StoredThere(d: seq<byte>, o: nat, b: seq<byte>)
    requires o + |b| <= |d|
    ensures Stored(d, o, b)[o..o + |b|] == b && SameElsewhere(d, Stored(d, o, b), o, |b|)
  {
    var r := Stored(d, o, b);
    assert forall i :: o <= i < o + |b| ==> r[i] == b[i - o];
  }

  lemma StoredTwice(d: seq<byte>, o: nat, a: seq<byte>, b: seq<byte>)
    requires o + |a| + |b| <= |d|
    ensures Stored(Stored(d, o, a), o + |a|, b) == Stored(d, o, a + b)
  {
    var once := d[..o] + a + d[o + |a|..];
    assert once[..o + |a|] == d[..o] + a;
    assert once[o + |a| + |b|..] == d[o + |a| + |b|..];
  }

  lemma AvailableParts(d: seq<byte>, o: nat, k: nat, n: nat)
    requires o + k + n <= |d|
    ensures Available(d, o, k + n) == Available(d, o, k) + Available(d, o + k, n)
    ensures |Available(d, o, k)| == k
  {}

  // ----- Files and partitions ---------------------------------------------------------------------------

  /**
   An open file or partition. A steady one transfers as much as there is; a faithful one stores what it says
   it stored. Any other may transfer less, and may leave anything in the range it was told to write. `shorts`
   counts the reads that delivered less than asked for.
   */
  class Device {
    var data: seq<byte>
    var pos: nat
    ghost var shorts: nat
    const faithful: bool
    const steady: bool

    constructor (data: seq<byte>, faithful: bool, steady: bool)
      ensures this.data == data && pos == 0 && this.faithful == faithful && this.steady == steady
    {
      this.data, this.pos, this.faithful, this.steady := data, 0, faithful, steady;
      this.shorts := 0;
    }

    method Seek(offset: nat)
      modifies this`pos
      ensures pos == offset
    {
      pos := offset;
    }

    method Read(n: nat) returns (got: seq<byte>)
      modifies this`pos, this`shorts
      ensures got <= Available(data, old(pos), n) && pos == old(pos) + |got|
      ensures steady ==> got == Available(data, old(pos), n)
      ensures shorts == old(shorts) + if |got| < n then 1 else 0
    {
      got := Available(data, pos, n);
      var count: int := *;
      if !steady && 0 <= count < |got| {
        got := got[..count];
      }
      if |got| < n {
        shorts := shorts + 1;
      }
      pos := pos + |got|;
    }

    method Write(bytes: seq<byte>) returns (count: nat)
      modifies this`data, this`pos
      ensures count <= |bytes| && Has(old(data), old(pos), count) && pos == old(pos) + count
      ensures SameElsewhere(old(data), data, old(pos), |bytes|)
      ensures faithful ==> data == Stored(old(data), old(pos), bytes[..count])
      ensures steady && Has(old(data), old(pos), |bytes|) ==> count == |bytes|
    {
      var room := |Available(data, pos, |bytes|)|;
      count := room;
      var partial: int := *;
      if !steady && 0 <= partial < room {
        count := partial;
      }
      var landed: seq<byte> := *;
      if faithful || |landed| > |bytes| {
        landed := bytes[..count];
      }
      if pos + |landed| <= |data| {
        StoredThere(data, pos, landed);
      }
      data := Stored(data, pos, landed);
      pos := pos + count;
    }
  }

  method CopyInto(buffer: array<byte>, at: nat, bytes: seq<byte>)
    requires at + |bytes| <= buffer.Length
    modifies buffer
    ensures buffer[..] == Stored(old(buffer[..]), at, bytes)
  {
    forall i | 0 <= i < |bytes| {
      buffer[at + i] := bytes[i];
    }
    assert buffer[..] == Stored(old(buffer[..]), at, bytes);
  }

  /** Where a read starts: at the offset, or where the last one stopped if the offset is negative. */
  function StartOf(offset: int, pos: nat): nat { if offset >= 0 then offset else pos }

  method ReadFile(fd: Device, offset: int, buffer: array<byte>, size: nat) returns (ret: int)
    requires size <= buffer.Length
    modifies fd`pos, fd`shorts, buffer
    ensures fd.shorts >= old(fd.shorts)
    ensures ret == 0 || ret == -1
    ensures var at := StartOf(offset, old(fd.pos));
            && (ret == 0 ==> Gathered(fd.data, at, size, buffer[..size]) && fd.pos == at + size)
            && (fd.steady && Has(fd.data, at, size) ==> ret == 0)
    ensures ret == 0 <==> fd.shorts == old(fd.shorts)
    ensures buffer[size..] == old(buffer[size..])
  {
    if offset >= 0 {
      fd.Seek(offset);
    }
    var r := fd.Read(size);
    CopyInto(buffer, 0, r);
    ret := if |r| != size then -1 else 0;
  }

  predicate AtSector(pos: nat): (at: bool)
    ensures at <==> pos % 512 == 0
  {
    pos % SECTOR == 0
  }

  /** How many bytes of the sector at an unaligned offset remain; those are read without looking at the outcome. */
  function Lead(offset: nat): (n: nat)
    ensures n < SECTOR
  {
    if offset % SECTOR == 0 then 0 else SECTOR - offset % SECTOR
  }

  predicate WholeSectors(d: seq<byte>) { |d| % SECTOR == 0 }

  /** When a read from a steady partition of whole sectors succeeds. */
  predicate PartitionReadSucceeds(d: seq<byte>, offset: nat, size: nat) { Has(d, offset, size) || size <= Lead(offset) }

  /** There the unchecked first sector matters exactly for short reads that start behind the partition's end. */
  lemma UncheckedReads(d: seq<byte>, offset: nat, size: nat)
    requires WholeSectors(d)
    ensures PartitionReadSucceeds(d, offset, size) && !Has(d, offset, size)
        <==> |d| < offset && 0 < size <= Lead(offset)
  {}

  function SectorStart(offset: nat): nat { offset / SECTOR * SECTOR }

  lemma SectorStarts(offset: nat)
    ensures SectorStart(offset) + offset % SECTOR == offset && SectorStart(offset) % SECTOR == 0
    ensures Lead(offset) > 0 ==> SectorStart(offset) + SECTOR == offset + Lead(offset)
  {}

  lemma LeadBytes(d: seq<byte>, offset: nat, sector: seq<byte>)
    requires sector == Available(d, SectorStart(offset), SECTOR) && |sector| == SECTOR && Lead(offset) > 0
    ensures offset + Lead(offset) <= |d| && Available(d, offset, Lead(offset)) == sector[offset % SECTOR..]
  {
    SectorStarts(offset);
    var start, n := SectorStart(offset), offset % SECTOR;
    assert d[start..start + SECTOR][n..] == d[offset..start + SECTOR];
  }

  lemma SectorThere(d: seq<byte>, offset: nat)
    requires WholeSectors(d)
    ensures |Available(d, SectorStart(offset), SECTOR)| == SECTOR <==> offset < |d|
    ensures offset >= |d| ==> |d| <= SectorStart(offset)
  {
    SectorStarts(offset);
  }

  /**
   The sector an unaligned offset lies in, unchecked. If the read comes short, the bytes are not those at the
   offset, and the next sector is read from too early a position.
   */
  method ReadLead(fd: Device, offset: nat, buffer: array<byte>) returns (next: nat)
    requires Lead(offset) <= buffer.Length
    modifies fd`pos, fd`shorts, buffer
    ensures next == Lead(offset) && old(fd.shorts) <= fd.shorts <= old(fd.shorts) + 1
    ensures fd.shorts == old(fd.shorts) ==>
              fd.pos == offset + next && Has(fd.data, offset, next)
                  && buffer[..next] == Available(fd.data, offset, next)
    ensures fd.shorts != old(fd.shorts) ==> Lead(offset) > 0 && SectorStart(offset) <= fd.pos < offset + next
    ensures fd.steady && WholeSectors(fd.data) ==>
              (fd.shorts == old(fd.shorts) <==> Lead(offset) == 0 || offset < |fd.data|)
              && AtSector(fd.pos) && (fd.shorts != old(fd.shorts) ==> |fd.data| <= fd.pos)
  {
    var m, n := offset / SECTOR, offset % SECTOR;
    ghost var sector := Available(fd.data, SectorStart(offset), SECTOR);
    SectorStarts(offset);
    fd.Seek(m * SECTOR);
    next := 0;
    if n != 0 {
      if |sector| == SECTOR {
        LeadBytes(fd.data, offset, sector);
      }
      if WholeSectors(fd.data) {
        SectorThere(fd.data, offset);
        NextSector(SectorStart(offset));
      }
      hide Available, WholeSectors;
      next := LeadSector(fd, n, buffer, sector);
    }
  }

  /** The unchecked read itself. */
  method LeadSector(fd: Device, n: nat, buffer: array<byte>, ghost sector: seq<byte>) returns (next: nat)
    requires 0 < n < SECTOR && SECTOR - n <= buffer.Length && sector == Available(fd.data, fd.pos, SECTOR)
    modifies fd`pos, fd`shorts, buffer
    ensures next == SECTOR - n
    ensures fd.shorts == old(fd.shorts) + if fd.pos == old(fd.pos) + SECTOR then 0 else 1
    ensures old(fd.pos) <= fd.pos <= old(fd.pos) + |sector|
    ensures fd.steady ==> fd.pos == old(fd.pos) + |sector|
    ensures fd.pos == old(fd.pos) + SECTOR ==> |sector| == SECTOR && buffer[..next] == sector[n..]
  {
    var buf := new byte[SECTOR];
    hide *;
    var r := fd.Read(SECTOR);
    WholeSector(buf[..], r);
    CopyInto(buf, 0, r);
    ghost var was, part := buffer[..], buf[n..];
    FrontStored(was, part);
    CopyInto(buffer, 0, buf[n..]);
    next := SECTOR - n;
    assert buffer[..next] == buffer[..][..next];
    assert |r| == SECTOR ==> r == sector && part == r[n..];
  }

  lemma WholeSector(was: seq<byte>, r: seq<byte>)
    ensures |r| == |was| ==> Stored(was, 0, r) == r
  {}

  lemma FrontStored(was: seq<byte>, part: seq<byte>)
    requires |part| <= |was|
    ensures Stored(was, 0, part)[..|part|] == part
  {}

  lemma NextSector(pos: nat)
    requires AtSector(pos)
    ensures AtSector(pos + SECTOR)
  {}

  /** One whole sector into a buffer; only the wanted bytes are kept. */
  method ReadSector(fd: Device, buffer: array<byte>, next: nat, wanted: nat) returns (ok: bool)
    requires wanted <= SECTOR && next + wanted <= buffer.Length
    modifies fd`pos, fd`shorts, buffer
    ensures fd.shorts >= old(fd.shorts)
    ensures ok <==> fd.shorts == old(fd.shorts)
    ensures ok ==> fd.pos == old(fd.pos) + SECTOR && old(fd.pos) + SECTOR <= |fd.data|
    ensures fd.steady ==> (ok <==> old(fd.pos) + SECTOR <= |fd.data|)
    ensures ok ==> buffer[..next + wanted] == old(buffer[..next]) + fd.data[old(fd.pos)..old(fd.pos) + wanted]
  {
    var buf := new byte[SECTOR];
    var r := fd.Read(SECTOR);
    ok := |r| == SECTOR;
    if ok {
      CopyInto(buf, 0, r);
      assert buf[..] == r;
      CopyInto(buffer, next, buf[..wanted]);
      assert buffer[..next + wanted] == old(buffer[..next]) + r[..wanted];
    }
  }

  /** Bytes that have been read one after the other from a position on. */
  predicate Gathered(d: seq<byte>, base: nat, done: nat, got: seq<byte>) {
    Has(d, base, done) && got == Available(d, base, done)
  }

  lemma AvailableThere(d: seq<byte>, o: nat, n: nat)
    requires o + n <= |d|
    ensures Available(d, o, n) == d[o..o + n]
  {}

  lemma GatheredMore(d: seq<byte>, base: nat, mid: seq<byte>, pos: nat, wanted: nat)
    requires Gathered(d, base, |mid|, mid) && pos == base + |mid| && pos + SECTOR <= |d| && wanted <= SECTOR
    ensures Gathered(d, base, |mid| + wanted, mid + d[pos..pos + wanted])
  {
    hide Available;
    AvailableThere(d, pos, wanted);
    AvailableParts(d, base, |mid|, wanted);
  }

  lemma Behind(before: seq<byte>, more: seq<byte>, start: nat)
    requires start <= |before|
    ensures (before + more)[start..] == before[start..] + more && (before + more)[..start] == before[..start]
  {}

  lemma GatheredNext(d: seq<byte>, base: nat, start: nat, before: seq<byte>, now: seq<byte>, pos: nat, wanted: nat)
    requires start <= |before| && pos == base + (|before| - start)
             && Gathered(d, base, |before| - start, before[start..])
    requires pos + SECTOR <= |d| && wanted <= SECTOR && now == before + d[pos..pos + wanted]
    ensures now[..start] == before[..start] && Gathered(d, base, |now| - start, now[start..])
  {
    hide *;
    GatheredMore(d, base, before[start..], pos, wanted);
    Behind(before, d[pos..pos + wanted], start);
  }

  lemma SectorMissing(d: seq<byte>, base: nat, done: nat, size: nat)
    requires WholeSectors(d) && AtSector(base + done) && done < size && |d| < base + done + SECTOR
    ensures !Has(d, base, size)
  {}

  /** A buffer with its first bytes untouched and, behind them, what has been read. */
  ghost predicate Reading(d: seq<byte>, base: nat, lead: seq<byte>, buffer: array<byte>, start: nat, next: nat)
    requires start <= next <= buffer.Length
    reads buffer
  {
    buffer[..start] == lead && Gathered(d, base, next - start, buffer[start..next])
  }

  lemma ReadingSays(d: seq<byte>, base: nat, lead: seq<byte>, buffer: array<byte>, start: nat, next: nat,
                    before: seq<byte>)
    requires start <= next <= buffer.Length && before == buffer[..next] && Reading(d, base, lead, buffer, start, next)
    ensures before[..start] == lead && Gathered(d, base, next - start, before[start..])
  {
    hide Gathered;
    assert before[start..] == buffer[start..next] && before[..start] == buffer[..start];
  }

  lemma ReadingNext(d: seq<byte>, base: nat, lead: seq<byte>, buffer: array<byte>, start: nat, next: nat,
                    before: seq<byte>, pos: nat, wanted: nat)
    requires start <= next == |before| && next + wanted <= buffer.Length
    requires before[..start] == lead && Gathered(d, base, next - start, before[start..])
    requires pos == base + (next - start) && pos + SECTOR <= |d| && wanted <= SECTOR
    requires buffer[..next + wanted] == before + d[pos..pos + wanted]
    ensures Reading(d, base, lead, buffer, start, next + wanted)
  {
    hide Gathered;
    var now := buffer[..next + wanted];
    GatheredNext(d, base, start, before, now, pos, wanted);
    assert buffer[start..next + wanted] == now[start..] && buffer[..start] == now[..start];
  }

  /** The next sector, with the position it leaves behind. */
  method ReadNext(fd: Device, ghost base: nat, ghost lead: seq<byte>, buffer: array<byte>, start: nat, next: nat,
                  size: nat, wanted: nat)
    returns (ok: bool)
    requires start <= next < size <= buffer.Length && fd.pos == base + (next - start)
    requires wanted == if size - next > SECTOR then SECTOR else size - next
    requires Reading(fd.data, base, lead, buffer, start, next)
    modifies fd`pos, fd`shorts, buffer
    ensures fd.shorts >= old(fd.shorts)
    ensures ok <==> fd.shorts == old(fd.shorts)
    ensures ok ==> fd.pos == old(fd.pos) + SECTOR && (AtSector(old(fd.pos)) ==> AtSector(fd.pos))
    ensures ok ==> Reading(fd.data, base, lead, buffer, start, next + wanted)
    ensures !ok && fd.steady && WholeSectors(fd.data) && AtSector(old(fd.pos)) ==> !Has(fd.data, base, size - start)
  {
    ghost var d, pos, before := fd.data, fd.pos, buffer[..next];
    hide *;
    ReadingSays(d, base, lead, buffer, start, next, before);
    if AtSector(pos) {
      NextSector(pos);
    }
    ok := ReadSector(fd, buffer, next, wanted);
    if ok {
      ReadingNext(d, base, lead, buffer, start, next, before, pos, wanted);
    } else if fd.steady && WholeSectors(d) && AtSector(pos) {
      SectorMissing(d, base, next - start, size - start);
    }
  }

  lemma ReadingNothing(d: seq<byte>, base: nat, buffer: array<byte>, start: nat)
    requires start <= buffer.Length
    ensures Reading(d, base, buffer[..start], buffer, start, start)
  {
    assert buffer[start..start] == [];
  }

  /** A whole number of sectors ends with a whole sector. */
  lemma LastSector(start: nat, next: nat, size: nat)
    requires start <= next < size
    ensures AtSector(size - start) && AtSector(next - start) ==> SECTOR <= size - next
    ensures AtSector(next - start) ==> AtSector(next - start + SECTOR)
  {}

  /** The sectors that follow, each of them checked. */
  method ReadSectors(fd: Device, buffer: array<byte>, start: nat, size: nat) returns (ret: int)
    requires start <= size <= buffer.Length
    modifies fd`pos, fd`shorts, buffer
    ensures fd.shorts >= old(fd.shorts)
    ensures ret == 0 || ret == -1
    ensures ret == 0 ==> fd.shorts == old(fd.shorts)
    ensures ret == 0 ==> Reading(fd.data, old(fd.pos), old(buffer[..start]), buffer, start, size)
    ensures ret == 0 && AtSector(size - start) ==> fd.pos == old(fd.pos) + (size - start)
    ensures ret == -1 && fd.steady && WholeSectors(fd.data) && AtSector(old(fd.pos)) ==>
              !Has(fd.data, old(fd.pos), size - start)
  {
    var next, remain := start, size - start;
    ghost var base, d, lead := fd.pos, fd.data, buffer[..start];
    assert 0 < SECTOR && AtSector(0);
    hide *;
    ReadingNothing(d, base, buffer, start);
    while remain > 0
      invariant start <= next <= size && remain == size - next && fd.data == d && fd.shorts == old(fd.shorts)
      invariant next < size || AtSector(size - start) ==> fd.pos == base + (next - start)
      invariant next < size && AtSector(base) ==> AtSector(fd.pos)
      invariant Reading(d, base, lead, buffer, start, next)
      invariant AtSector(next - start) || next == size
    {
      var wanted := if remain > SECTOR then SECTOR else remain;
      LastSector(start, next, size);
      var ok := ReadNext(fd, base, lead, buffer, start, next, size, wanted);
      if !ok {
        return -1;
      }
      next, remain := next + wanted, remain - wanted;
    }
    ret := 0;
  }

  /** Bytes from a position in the sector of an offset, before the place they were wanted from. */
  predicate FromBefore(d: seq<byte>, at: nat, base: nat, tail: seq<byte>) {
    SectorStart(at) <= base < at + Lead(at) && Gathered(d, base, |tail|, tail)
  }

  /** What a read delivers behind a short first sector. */
  predicate Displaced(d: seq<byte>, at: nat, tail: seq<byte>) {
    exists base :: 0 <= base <= |d| && FromBefore(d, at, base, tail)
  }

  /**
   Sector by sector, the wanted bytes: the same as reading them at once, unless the first sector is unaligned
   and came short. That is the only read whose outcome is not looked at; the rest is then displaced. A steady
   partition of whole sectors succeeds exactly as specified.
   */
  method ReadPartition(fd: Device, offset: int, buffer: array<byte>, size: nat) returns (ret: int)
    requires size <= buffer.Length && (offset >= 0 ==> Lead(offset) <= buffer.Length)
    modifies fd`pos, fd`shorts, buffer
    ensures fd.shorts >= old(fd.shorts)
    ensures ret == 0 || ret == -1
    ensures var at := StartOf(offset, old(fd.pos));
            && (ret == 0 && fd.shorts == old(fd.shorts) ==> Gathered(fd.data, at, size, buffer[..size]))
            && (ret == 0 && fd.shorts != old(fd.shorts) ==>
                  fd.shorts == old(fd.shorts) + 1 && offset >= 0 && Lead(at) > 0
                  && (size > Lead(at) ==> Displaced(fd.data, at, buffer[Lead(at)..size])))
            && (fd.steady && WholeSectors(fd.data) && (offset >= 0 || AtSector(at)) ==>
                  (ret == 0 <==> PartitionReadSucceeds(fd.data, at, size))
                  && (ret == 0 && at <= |fd.data| ==> fd.shorts == old(fd.shorts)))
            && (ret == 0 && AtSector(at) && AtSector(size) ==> fd.pos == at + size)
  {
    ghost var at, d := StartOf(offset, fd.pos), fd.data;
    var next := 0;
    NoLead(d, offset, fd.pos, size);
    if offset >= 0 {
      next := ReadLead(fd, offset, buffer);
    }
    ghost var whole, base, lead := fd.shorts == old(fd.shorts), fd.pos, buffer[..next];
    assert whole ==> base == at + next && Has(d, at, next) && lead == Available(d, at, next);
    hide *;
    if size <= next {
      if whole {
        FewBytes(d, at, size, next, lead);
      }
      assert buffer[..size] == lead[..size];
      return 0;
    }
    ret := ReadRest(fd, buffer, next, size, at, whole);
    if ret == 0 {
      GatheredIsThere(d, base, size - next, buffer[next..size]);
    }
    if !whole {
      if |d| <= at {
        NotThere(d, at, size);
      }
      if ret == 0 {
        TailDisplaced(d, at, base, size - next, buffer[next..size]);
      }
    }
  }

  /** The sectors behind the first one, and what they make together with it. */
  method ReadRest(fd: Device, buffer: array<byte>, next: nat, size: nat, ghost at: nat, ghost whole: bool)
    returns (ret: int)
    requires next < size <= buffer.Length
    requires whole ==> fd.pos == at + next && Has(fd.data, at, next) && buffer[..next] == Available(fd.data, at, next)
    modifies fd`pos, fd`shorts, buffer
    ensures fd.shorts >= old(fd.shorts)
    ensures ret == 0 || ret == -1
    ensures ret == 0 ==> fd.shorts == old(fd.shorts) && Gathered(fd.data, old(fd.pos), size - next, buffer[next..size])
    ensures ret == 0 && whole ==> Gathered(fd.data, at, size, buffer[..size]) && Has(fd.data, at, size)
    ensures ret == 0 && AtSector(size - next) ==> fd.pos == old(fd.pos) + (size - next)
    ensures ret == -1 && fd.steady && WholeSectors(fd.data) && AtSector(old(fd.pos)) ==>
              !Has(fd.data, old(fd.pos), size - next) && (whole ==> !Has(fd.data, at, size))
  {
    ghost var lead, d, base := buffer[..next], fd.data, fd.pos;
    hide *;
    ret := ReadSectors(fd, buffer, next, size);
    if ret == 0 {
      ReadingDone(d, base, lead, buffer, next, size);
    }
    if whole {
      AllBytes(d, at, next, size, lead, buffer[next..size]);
      if ret == 0 {
        assert buffer[..size] == buffer[..next] + buffer[next..size];
        GatheredIsThere(d, at, size, buffer[..size]);
      }
    }
  }

  lemma ReadingDone(d: seq<byte>, base: nat, lead: seq<byte>, buffer: array<byte>, start: nat, next: nat)
    requires start <= next <= buffer.Length && Reading(d, base, lead, buffer, start, next)
    ensures buffer[..start] == lead && Gathered(d, base, next - start, buffer[start..next])
  {}

  lemma NoLead(d: seq<byte>, offset: int, pos: nat, size: nat)
    ensures var at := StartOf(offset, pos);
            && at == (if offset >= 0 then offset else pos)
            && (offset < 0 && AtSector(pos) ==> Lead(at) == 0)
            && (PartitionReadSucceeds(d, at, size) <==> Has(d, at, size) || size <= Lead(at))
            && (AtSector(at) <==> Lead(at) == 0)
    ensures WholeSectors(d) ==> Lead(|d|) == 0
    ensures size == 0 ==> Has(d, StartOf(offset, pos), size)
  {}

  lemma GatheredIsThere(d: seq<byte>, base: nat, n: nat, got: seq<byte>)
    requires Gathered(d, base, n, got)
    ensures Has(d, base, n) && (|d| <= base ==> n == 0)
  {}

  lemma NotThere(d: seq<byte>, at: nat, size: nat)
    requires |d| <= at && size > 0
    ensures !Has(d, at, size)
  {}

  lemma TailDisplaced(d: seq<byte>, at: nat, base: nat, n: nat, tail: seq<byte>)
    requires SectorStart(at) <= base < at + Lead(at) && n > 0 && Gathered(d, base, n, tail)
    ensures Displaced(d, at, tail)
  {
    assert FromBefore(d, at, base, tail);
  }

  lemma FewBytes(d: seq<byte>, at: nat, size: nat, next: nat, lead: seq<byte>)
    requires size <= next && Has(d, at, next) && lead == Available(d, at, next)
    ensures |lead| == next && Gathered(d, at, size, lead[..size])
  {}

  lemma AllBytes(d: seq<byte>, at: nat, next: nat, size: nat, lead: seq<byte>, tail: seq<byte>)
    requires next < size && Has(d, at, next) && lead == Available(d, at, next)
    ensures Has(d, at + next, size - next) <==> Has(d, at, size)
    ensures Gathered(d, at + next, size - next, tail) ==> Gathered(d, at, size, lead + tail)
  {
    if at + size <= |d| {
      AvailableParts(d, at, next, size - next);
    }
  }

  /** Reads from the package, which is a file read on from its position, or a partition. */
  method ReadSource(fd: Device, isFile: bool, fileOffset: int, buffer: array<byte>, size: nat) returns (ret: int)
    requires size <= buffer.Length && SECTOR <= buffer.Length
    modifies fd`pos, fd`shorts, buffer
    ensures ret == 0 || ret == -1
    ensures fd.shorts >= old(fd.shorts)
    ensures var at := if isFile then old(fd.pos) else StartOf(fileOffset, old(fd.pos));
            var placed := isFile || fileOffset >= 0 || AtSector(at);
            && (ret == 0 && fd.shorts == old(fd.shorts) ==> Gathered(fd.data, at, size, buffer[..size]))
            && (ret == 0 && (isFile || AtSector(at)) ==> fd.shorts == old(fd.shorts))
            && (ret == 0 && fd.steady && WholeSectors(fd.data) && placed && at <= |fd.data| ==>
                  fd.shorts == old(fd.shorts))
            && (fd.steady && (isFile || WholeSectors(fd.data)) && placed && Has(fd.data, at, size) ==> ret == 0)
            && (ret == 0 && (isFile || (AtSector(at) && AtSector(size))) ==> fd.pos == at + size)
  {
    if isFile {
      ret := ReadFile(fd, -1, buffer, size);
    } else {
      AlignedLead(StartOf(fileOffset, fd.pos));
      hide Available, Gathered, WholeSectors, Has, AtSector, Displaced, Lead;
      ret := ReadPartition(fd, fileOffset, buffer, size);
    }
  }

  lemma AlignedLead(at: nat)
    ensures (AtSector(at) <==> Lead(at) == 0) && Lead(at) <= SECTOR
  {}

  // ----- The CRC of an image ----------------------------------------------------------------------------

  /** A checksum as a fold over bytes; how one byte enters it is left open. */
  function Fold(step: (nat, byte) -> nat, crc: nat, bytes: seq<byte>): nat {
    if bytes == [] then crc else step(Fold(step, crc, bytes[..|bytes| - 1]), bytes[|bytes| - 1])
  }

  lemma {:induction false} FoldConcat(step: (nat, byte) -> nat, crc: nat, a: seq<byte>, b: seq<byte>)
    ensures Fold(step, Fold(step, crc, a), b) == Fold(step, crc, a + b)
  {
    if b == [] {
      assert a + b == a;
    } else {
      assert (a + b)[..|a + b| - 1] == a + b[..|b| - 1];
      FoldConcat(step, crc, a, b[..|b| - 1]);
    }
  }

  /** A word of the 32-bit machine, low byte first. */
  function Word(b: seq<byte>): nat
    requires |b| == 4
  {
    (b[0] as nat) + 0x100 * (b[1] as nat) + 0x1_0000 * (b[2] as nat) + 0x100_0000 * (b[3] as nat)
  }

  function Covered(imageSize: nat): nat { if AsInt(imageSize) > 0 then AsInt(imageSize) else 0 }

  /** The image at an offset is followed by its own checksum. */
  predicate ChecksumFollows(step: (nat, byte) -> nat, d: seq<byte>, offset: nat, n: nat) {
    Has(d, offset, n + 4) && Fold(step, 0, Available(d, offset, n)) == Word(Available(d, offset + n, 4))
  }

  /** Four bytes at a position that are a number, low byte first; larger numbers have none. */
  predicate NumberAt(d: seq<byte>, p: nat, crc: nat) {
    && p + 4 <= |d|
    && d[p] == crc % 0x100 && d[p + 1] == crc / 0x100 % 0x100
    && d[p + 2] == crc / 0x1_0000 % 0x100 && d[p + 3] == crc / 0x100_0000
  }

  lemma WordIs(d: seq<byte>, p: nat, crc: nat)
    requires p + 4 <= |d|
    ensures Word(d[p..p + 4]) == crc <==> NumberAt(d, p, crc)
  {
    var b := d[p..p + 4];
    WordParts(b, Word(b));
    PartsOfWord(crc);
    hide Word;
  }

  lemma WordParts(b: seq<byte>, w: nat)
    requires |b| == 4 && w == Word(b)
    ensures w % 0x100 == b[0] && w / 0x100 % 0x100 == b[1] && w / 0x1_0000 % 0x100 == b[2] && w / 0x100_0000 == b[3]
  {
    var b0: nat, b1: nat, b2: nat, b3: nat := b[0], b[1], b[2], b[3];
    Next(w, b0, 0x100, b1 + 0x100 * b2 + 0x1_0000 * b3, b1, b2 + 0x100 * b3);
    Next(w, b0 + 0x100 * b1, 0x1_0000, b2 + 0x100 * b3, b2, b3);
    DivideBy(w, 0x100_0000, b3, b0 + 0x100 * b1 + 0x1_0000 * b2);
  }

  lemma Next(w: nat, low: nat, size: nat, rest: nat, digit: nat, more: nat)
    requires low < size && w == low + size * rest && rest == digit + 0x100 * more && digit < 0x100
    ensures w / size == rest && w / size % 0x100 == digit && w % size == low
  {
    DivideBy(w, size, rest, low);
  }

  lemma PartsOfWord(crc: nat)
    ensures crc == crc % 0x100 + 0x100 * (crc / 0x100 % 0x100) + 0x1_0000 * (crc / 0x1_0000 % 0x100)
                   + 0x100_0000 * (crc / 0x100_0000)
  {
    var q1, q2, q3 := crc / 0x100, crc / 0x1_0000, crc / 0x100_0000;
    assert q1 / 0x100 == q2 && q2 / 0x100 == q3;
  }

  /** The four bytes behind n bytes are the checksum of these, low byte first. */
  predicate Trailed(step: (nat, byte) -> nat, d: seq<byte>, at: nat, n: nat) {
    at + n + 4 <= |d| && NumberAt(d, at + n, Fold(step, 0, d[at..at + n]))
  }

  lemma ChecksumMeans(step: (nat, byte) -> nat, d: seq<byte>, at: nat, n: nat)
    ensures ChecksumFollows(step, d, at, n) <==> Trailed(step, d, at, n)
  {
    if at + n + 4 <= |d| {
      WordIs(d, at + n, Fold(step, 0, d[at..at + n]));
      assert Available(d, at, n) == d[at..at + n];
    }
    hide Fold, Word, NumberAt;
  }

  lemma NextChunk(step: (nat, byte) -> nat, d: seq<byte>, offset: nat, done: nat, n: nat)
    requires Has(d, offset, done) && n > 0 && Has(d, offset + done, n)
    ensures Has(d, offset, done + n)
    ensures Fold(step, Fold(step, 0, Available(d, offset, done)), Available(d, offset + done, n))
         == Fold(step, 0, Available(d, offset, done + n))
  {
    AvailableParts(d, offset, done, n);
    FoldConcat(step, 0, Available(d, offset, done), Available(d, offset + done, n));
  }

  /** What has been checked so far. */
  predicate Checked(step: (nat, byte) -> nat, d: seq<byte>, offset: nat, done: nat, crc: nat) {
    Has(d, offset, done) && crc == Fold(step, 0, Available(d, offset, done))
  }

  lemma NothingChecked(step: (nat, byte) -> nat, d: seq<byte>, offset: nat)
    ensures Checked(step, d, offset, 0, 0)
  {}

  /** Every chunk of an image that is followed by its checksum can be read. */
  lemma ChunkThere(step: (nat, byte) -> nat, d: seq<byte>, offset: nat, done: nat, count: nat, n: nat)
    requires 0 < count && done + count <= n
    ensures ChecksumFollows(step, d, offset, n) ==> Has(d, offset + done, count)
  {}

  /** Where the checks of an image begin: its offset is an unsigned word, but nothing seeks to a negative position. */
  function FrontOf(offset: u32): nat { if AsInt(offset) >= 0 then offset else 0 }

  /** An image whose place and size are whole sectors. */
  predicate Aligned(offset: u32, n: nat) { AtSector(FrontOf(offset)) && AtSector(n) }

  /**
   Every read goes on where the one before it ended, although the offset is counted in an int: in a file always; in a
   partition as long as the int is not negative, and for whole sectors as long as it does not change its sign to
   become positive.
   */
  predicate Continuous(isFile: bool, offset: u32, n: nat) {
    isFile || offset + n < 0x8000_0000 || (Aligned(offset, n) && (offset < 0x8000_0000 || offset + n < 0x1_0000_0000))
  }

  /** The next read of a package is from a position. */
  predicate Ready(isFile: bool, fileOffset: int, pos: nat, at: nat) {
    if isFile then pos == at else if fileOffset >= 0 then fileOffset == at else pos == at && AtSector(at)
  }

  lemma ReadyAt(isFile: bool, offset: u32, n: nat, done: nat, pos: nat)
    requires Continuous(isFile, offset, n) && done <= n < 0x8000_0000
    requires (isFile || Aligned(offset, n) ==> pos == FrontOf(offset) + done)
    requires Aligned(offset, n) ==> AtSector(FrontOf(offset) + done)
    ensures Ready(isFile, Wrap(AsInt(offset) + done), pos, FrontOf(offset) + done)
  {
    WrapIs(AsInt(offset) + done);
    hide AtSector, Wrap;
  }

  lemma WrapIs(x: int)
    requires -0x8000_0000 <= x < 0x1_0000_0000
    ensures Wrap(x) == if x < 0x8000_0000 then x else x - 0x1_0000_0000
  {
    assert x < 0 ==> x % 0x1_0000_0000 == x + 0x1_0000_0000;
  }

  lemma WrapAdds(x: int, n: nat)
    ensures Wrap(Wrap(x) + n) == Wrap(x + n)
  {}

  lemma AlignedNext(at: nat, n: nat, done: nat, count: nat)
    requires AtSector(at + done) && AtSector(at) && AtSector(n) && (count == BLOCK || done + count == n)
    ensures AtSector(count) && AtSector(at + done + count)
  {
    assert AtSector(BLOCK);
    hide AtSector;
    SectorsLeft(at + done, at);
    if count != BLOCK {
      SectorsLeft(n, done);
    }
    SectorsMore(at + done, count);
  }

  lemma SectorsMore(a: nat, b: nat)
    requires AtSector(a) && AtSector(b)
    ensures AtSector(a + b)
  {}

  lemma SectorsLeft(a: nat, b: nat)
    requires AtSector(a) && AtSector(b) && b <= a
    ensures AtSector(a - b)
  {}

  /** No read of an image from this position on comes short unnoticed. */
  predicate Noticed(steady: bool, d: seq<byte>, isFile: bool, aligned: bool, at: nat) {
    isFile || aligned || (steady && WholeSectors(d) && at <= |d|)
  }

  /** The state of the checks after some bytes; `whole` says that no read has come short. */
  predicate Underway(step: (nat, byte) -> nat, d: seq<byte>, isFile: bool, offset: u32, n: nat, done: nat,
                     fileOffset: int, pos: nat, crc: nat, whole: bool) {
    && Continuous(isFile, offset, n) && done <= n < 0x8000_0000 && fileOffset == Wrap(AsInt(offset) + done)
    && Ready(isFile, fileOffset, pos, FrontOf(offset) + done)
    && (Aligned(offset, n) ==> AtSector(FrontOf(offset) + done))
    && (whole ==> Checked(step, d, FrontOf(offset), done, crc))
  }

  lemma UnderwaySays(step: (nat, byte) -> nat, d: seq<byte>, isFile: bool, offset: u32, n: nat, done: nat,
                     fileOffset: int, pos: nat, crc: nat, whole: bool)
    requires Underway(step, d, isFile, offset, n, done, fileOffset, pos, crc, whole)
    ensures Continuous(isFile, offset, n) && done <= n < 0x8000_0000 && fileOffset == Wrap(AsInt(offset) + done)
    ensures Ready(isFile, fileOffset, pos, FrontOf(offset) + done)
    ensures Aligned(offset, n) ==> AtSector(FrontOf(offset) + done) && AtSector(FrontOf(offset)) && AtSector(n)
    ensures whole ==> Checked(step, d, FrontOf(offset), done, crc) && Has(d, FrontOf(offset), done)
  {}

  lemma UnderwayNext(step: (nat, byte) -> nat, d: seq<byte>, isFile: bool, offset: u32, n: nat, done: nat,
                     fileOffset: int, before: nat, crc: nat, was: bool, count: nat, pos: nat, next: nat, whole: bool)
    requires Underway(step, d, isFile, offset, n, done, fileOffset, before, crc, was) && done + count <= n
    requires isFile || Aligned(offset, n) ==> pos == FrontOf(offset) + done + count
    requires Aligned(offset, n) ==> AtSector(FrontOf(offset) + done + count)
    requires whole ==> Checked(step, d, FrontOf(offset), done + count, next)
    ensures Underway(step, d, isFile, offset, n, done + count, Wrap(fileOffset + count), pos, next, whole)
  {
    hide *;
    UnderwaySays(step, d, isFile, offset, n, done, fileOffset, before, crc, was);
    WrapAdds(AsInt(offset) + done, count);
    ReadyAt(isFile, offset, n, done + count, pos);
    UnderwayFrom(step, d, isFile, offset, n, done + count, Wrap(fileOffset + count), pos, next, whole);
  }

  lemma UnderwayFrom(step: (nat, byte) -> nat, d: seq<byte>, isFile: bool, offset: u32, n: nat, done: nat,
                     fileOffset: int, pos: nat, crc: nat, whole: bool)
    requires Continuous(isFile, offset, n) && done <= n < 0x8000_0000 && fileOffset == Wrap(AsInt(offset) + done)
    requires Ready(isFile, fileOffset, pos, FrontOf(offset) + done)
    requires Aligned(offset, n) ==> AtSector(FrontOf(offset) + done)
    requires whole ==> Checked(step, d, FrontOf(offset), done, crc)
    ensures Underway(step, d, isFile, offset, n, done, fileOffset, pos, crc, whole)
  {}

  lemma UnderwayStart(step: (nat, byte) -> nat, d: seq<byte>, isFile: bool, offset: u32, n: nat)
    requires Continuous(isFile, offset, n) && n < 0x8000_0000
    ensures Underway(step, d, isFile, offset, n, 0, AsInt(offset), FrontOf(offset), 0, true)
  {
    NothingChecked(step, d, FrontOf(offset));
    WrapIs(AsInt(offset));
    ReadyAt(isFile, offset, n, 0, FrontOf(offset));
    hide Checked, Continuous, Ready, Wrap;
  }

  /** What the next read has to deliver, if all went well so far. */
  method ReadUnderway(step: (nat, byte) -> nat, fd: Device, isFile: bool, ghost sound: bool, ghost offset: u32,
                      ghost n: nat, ghost done: nat, fileOffset: int, buffer: array<byte>, count: nat, ghost crc: nat,
                      ghost whole: bool)
    returns (ret: int)
    requires count <= buffer.Length == BLOCK
    requires sound ==> Underway(step, fd.data, isFile, offset, n, done, fileOffset, fd.pos, crc, whole)
    requires sound && Noticed(fd.steady, fd.data, isFile, Aligned(offset, n), FrontOf(offset)) ==> whole
    modifies fd`pos, fd`shorts, buffer
    ensures ret == 0 || ret == -1
    ensures fd.shorts >= old(fd.shorts)
    ensures sound && ret == 0 && fd.shorts == old(fd.shorts) ==>
              Gathered(fd.data, FrontOf(offset) + done, count, buffer[..count])
    ensures sound && ret == 0 && Noticed(fd.steady, fd.data, isFile, Aligned(offset, n), FrontOf(offset)) ==>
              fd.shorts == old(fd.shorts)
    ensures sound && ret == 0 && (isFile || (Aligned(offset, n) && AtSector(count))) ==>
              fd.pos == FrontOf(offset) + done + count
    ensures sound && fd.steady && (isFile || WholeSectors(fd.data)) && Has(fd.data, FrontOf(offset) + done, count) ==>
              ret == 0
  {
    if sound {
      UnderwaySays(step, fd.data, isFile, offset, n, done, fileOffset, fd.pos, crc, whole);
      Reached(fd.steady, fd.data, isFile, Aligned(offset, n), FrontOf(offset), done);
    }
    assert SECTOR <= BLOCK;
    hide Available, Gathered, WholeSectors, Has, AtSector, Lead, Underway, Checked, Aligned, Continuous, FrontOf,
        Noticed;
    ret := ReadSource(fd, isFile, fileOffset, buffer, count);
  }

  lemma Reached(steady: bool, d: seq<byte>, isFile: bool, aligned: bool, at: nat, done: nat)
    ensures Noticed(steady, d, isFile, aligned, at) && Has(d, at, done) ==>
              isFile || aligned || (steady && WholeSectors(d) && at + done <= |d|)
    ensures aligned ==> Noticed(steady, d, isFile, aligned, at)
  {}

  /**
   One more chunk: its bytes enter the checksum, if no read came short; or some byte of the image is missing.
   */
  method CheckChunk(step: (nat, byte) -> nat, fd: Device, isFile: bool, ghost sound: bool, ghost offset: u32,
                    ghost n: nat, ghost done: nat, fileOffset: int, buffer: array<byte>, count: nat, crc: nat,
                    ghost whole: bool)
    returns (ok: bool, next: nat)
    requires 0 < count <= buffer.Length == BLOCK && done + count <= n && (count == BLOCK || done + count == n)
    requires sound ==> Underway(step, fd.data, isFile, offset, n, done, fileOffset, fd.pos, crc, whole)
    requires sound && Noticed(fd.steady, fd.data, isFile, Aligned(offset, n), FrontOf(offset)) ==> whole
    modifies fd`pos, fd`shorts, buffer
    ensures fd.shorts >= old(fd.shorts)
    ensures sound && ok ==>
              Underway(step, fd.data, isFile, offset, n, done + count, Wrap(fileOffset + count), fd.pos, next,
                       whole && fd.shorts == old(fd.shorts))
    ensures sound && ok && Noticed(fd.steady, fd.data, isFile, Aligned(offset, n), FrontOf(offset)) ==>
              fd.shorts == old(fd.shorts)
    ensures sound && !ok && fd.steady && (isFile || WholeSectors(fd.data)) ==>
              !ChecksumFollows(step, fd.data, FrontOf(offset), n)
  {
    ghost var d, pos := fd.data, fd.pos;
    hide *;
    ChunkThere(step, d, FrontOf(offset), done, count, n);
    var r := ReadUnderway(step, fd, isFile, sound, offset, n, done, fileOffset, buffer, count, crc, whole);
    ok := r == 0;
    next := Fold(step, crc, buffer[..count]);
    if sound && ok {
      ChunkEntered(step, d, isFile, offset, n, done, fileOffset, pos, crc, whole, count, fd.pos, buffer[..count],
                   fd.shorts == old(fd.shorts));
    }
  }

  lemma ChunkEntered(step: (nat, byte) -> nat, d: seq<byte>, isFile: bool, offset: u32, n: nat, done: nat,
                     fileOffset: int, before: nat, crc: nat, was: bool, count: nat, pos: nat, got: seq<byte>,
                     quiet: bool)
    requires Underway(step, d, isFile, offset, n, done, fileOffset, before, crc, was)
    requires 0 < count && done + count <= n && (count == BLOCK || done + count == n)
    requires isFile || (Aligned(offset, n) && AtSector(count)) ==> pos == FrontOf(offset) + done + count
    requires quiet ==> Gathered(d, FrontOf(offset) + done, count, got)
    ensures Underway(step, d, isFile, offset, n, done + count, Wrap(fileOffset + count), pos, Fold(step, crc, got),
                     was && quiet)
  {
    hide *;
    UnderwaySays(step, d, isFile, offset, n, done, fileOffset, before, crc, was);
    if Aligned(offset, n) {
      AlignedNext(FrontOf(offset), n, done, count);
    }
    if was && quiet {
      CheckedNext(step, d, FrontOf(offset), done, count, crc, got);
    }
    UnderwayNext(step, d, isFile, offset, n, done, fileOffset, before, crc, was, count, pos, Fold(step, crc, got),
                 was && quiet);
  }

  lemma CheckedNext(step: (nat, byte) -> nat, d: seq<byte>, offset: nat, done: nat, n: nat, crc: nat, got: seq<byte>)
    requires n > 0 && Checked(step, d, offset, done, crc) && Gathered(d, offset + done, n, got)
    ensures Checked(step, d, offset, done + n, Fold(step, crc, got))
  {
    hide Fold, Available;
    NextChunk(step, d, offset, done, n);
  }

  lemma TrailerThere(step: (nat, byte) -> nat, d: seq<byte>, offset: nat, n: nat, crc: nat, got: seq<byte>)
    requires Checked(step, d, offset, n, crc) && Gathered(d, offset + n, 4, got)
    ensures |got| == 4 && (crc == Word(got) <==> ChecksumFollows(step, d, offset, n))
  {
    hide Fold, Word;
  }

  /** The word read behind the image decides. */
  method CheckTrailer(step: (nat, byte) -> nat, fd: Device, isFile: bool, ghost sound: bool, ghost offset: u32,
                      ghost n: nat, fileOffset: int, buffer: array<byte>, crc: nat, ghost whole: bool)
    returns (ret: int)
    requires buffer.Length == BLOCK
    requires sound ==> Underway(step, fd.data, isFile, offset, n, n, fileOffset, fd.pos, crc, whole)
    requires sound && Noticed(fd.steady, fd.data, isFile, Aligned(offset, n), FrontOf(offset)) ==> whole
    modifies fd`pos, fd`shorts, buffer
    ensures ret == 0 || ret == -1
    ensures fd.shorts >= old(fd.shorts)
    ensures sound && ret == 0 && whole && fd.shorts == old(fd.shorts) ==>
              ChecksumFollows(step, fd.data, FrontOf(offset), n)
    ensures sound && ret == 0 && Noticed(fd.steady, fd.data, isFile, Aligned(offset, n), FrontOf(offset)) ==>
              fd.shorts == old(fd.shorts)
    ensures sound && fd.steady && (isFile || WholeSectors(fd.data)) && whole ==>
              ChecksumFollows(step, fd.data, FrontOf(offset), n) ==> ret == 0
  {
    ghost var d, at := fd.data, FrontOf(offset);
    if sound && whole {
      UnderwaySays(step, d, isFile, offset, n, n, fileOffset, fd.pos, crc, whole);
    }
    RightImage(step, d, fd.steady, isFile, Aligned(offset, n), at, n);
    assert 4 <= BLOCK;
    hide *;
    var r := ReadUnderway(step, fd, isFile, sound, offset, n, n, fileOffset, buffer, 4, crc, whole);
    if r != 0 {
      return -1;
    }
    if sound && whole && fd.shorts == old(fd.shorts) {
      TrailerThere(step, d, at, n, crc, buffer[..4]);
    }
    ret := if crc != Word(buffer[..4]) then -1 else 0;
  }

  lemma RightImage(step: (nat, byte) -> nat, d: seq<byte>, steady: bool, isFile: bool, aligned: bool, at: nat, n: nat)
    ensures ChecksumFollows(step, d, at, n) ==> Has(d, at + n, 4)
    ensures ChecksumFollows(step, d, at, n) && steady && (isFile || WholeSectors(d)) ==>
              Noticed(steady, d, isFile, aligned, at)
  {}

  /** All chunks of an image of n bytes, as far as they can be read. */
  method CheckChunks(step: (nat, byte) -> nat, fd: Device, isFile: bool, ghost sound: bool, offset: u32, size: int,
                     ghost n: nat, buffer: array<byte>)
    returns (ok: bool, crc: nat, fileOffset: int)
    requires n == (if size > 0 then size else 0) && buffer.Length == BLOCK
    requires sound ==> Underway(step, fd.data, isFile, offset, n, 0, AsInt(offset), fd.pos, 0, true)
    modifies fd`pos, fd`shorts, buffer
    ensures fd.shorts >= old(fd.shorts)
    ensures sound && ok ==>
              Underway(step, fd.data, isFile, offset, n, n, fileOffset, fd.pos, crc, fd.shorts == old(fd.shorts))
    ensures sound && ok && Noticed(fd.steady, fd.data, isFile, Aligned(offset, n), FrontOf(offset)) ==>
              fd.shorts == old(fd.shorts)
    ensures sound && !ok && fd.steady && (isFile || WholeSectors(fd.data)) ==>
              !ChecksumFollows(step, fd.data, FrontOf(offset), n)
  {
    ghost var d, done := fd.data, 0;
    ghost var noticed := Noticed(fd.steady, fd.data, isFile, Aligned(offset, n), FrontOf(offset));
    var remain := size;
    crc, fileOffset := 0, AsInt(offset);
    assert 0 < BLOCK;
    hide *;
    while remain > 0
      invariant fd.data == d && if remain > 0 then remain == n - done else done == n
      invariant fd.shorts >= old(fd.shorts) && (sound && noticed ==> fd.shorts == old(fd.shorts))
      invariant sound ==>
                  Underway(step, d, isFile, offset, n, done, fileOffset, fd.pos, crc, fd.shorts == old(fd.shorts))
    {
      var count := if remain > BLOCK then BLOCK else remain;
      var more, next := CheckChunk(step, fd, isFile, sound, offset, n, done, fileOffset, buffer, count, crc,
                                   fd.shorts == old(fd.shorts));
      if !more {
        return false, crc, fileOffset;
      }
      fileOffset, crc, remain, done := Wrap(fileOffset + count), next, remain - count, done + count;
    }
    ok := true;
  }

  /**
   Checks an image of a given size. If its reads go on one after the other, acceptance with no read short means that
   the checksum ran over exactly the bytes from the image's front on and is the word behind them. No read comes short
   unnoticed from a file, from a partition whose image is aligned to sectors, or from a steady partition that
   reaches up to the image. On a steady device the four bytes behind the image decide, the low byte first.
   */
  method CheckImageCrc(step: (nat, byte) -> nat, fd: Device, isFile: bool, offset: u32, imageSize: u32)
    returns (ret: int)
    modifies fd`pos, fd`shorts
    ensures ret == 0 || ret == -1
    ensures var at, n := FrontOf(offset), Covered(imageSize);
            Continuous(isFile, offset, n) ==>
              && (ret == 0 && fd.shorts == old(fd.shorts) ==> ChecksumFollows(step, fd.data, at, n))
              && (ret == 0 && (isFile || Aligned(offset, n)) ==> fd.shorts == old(fd.shorts))
              && (ret == 0 && fd.steady && WholeSectors(fd.data) && at <= |fd.data| ==> fd.shorts == old(fd.shorts))
              && (fd.steady && (isFile || WholeSectors(fd.data)) ==> ChecksumFollows(step, fd.data, at, n) ==> ret == 0)
    ensures var at, n := FrontOf(offset), Covered(imageSize);
            Continuous(isFile, offset, n) && fd.steady && (isFile || (WholeSectors(fd.data) && at <= |fd.data|)) ==>
              (ret == 0 <==> Trailed(step, fd.data, at, n))
  {
    var buffer := new byte[BLOCK];
    fd.Seek(0);
    if AsInt(offset) >= 0 {
      fd.Seek(offset);
    }
    ghost var d, at, n := fd.data, FrontOf(offset), Covered(imageSize);
    ghost var sound, aligned := Continuous(isFile, offset, n), Aligned(offset, n);
    RightImage(step, d, fd.steady, isFile, aligned, at, n);
    ChecksumMeans(step, d, at, n);
    NoticedIs(fd.steady, d, isFile, aligned, at);
    var remain := AsInt(imageSize);
    assert fd.pos == at && n < 0x8000_0000 && n == if remain > 0 then remain else 0;
    hide *;
    if sound {
      UnderwayStart(step, d, isFile, offset, n);
    }
    var ok, crc, fileOffset := CheckChunks(step, fd, isFile, sound, offset, remain, n, buffer);
    if !ok {
      return -1;
    }
    ret := CheckTrailer(step, fd, isFile, sound, offset, n, fileOffset, buffer, crc, fd.shorts == old(fd.shorts));
  }

  lemma NoticedIs(steady: bool, d: seq<byte>, isFile: bool, aligned: bool, at: nat)
    ensures Noticed(steady, d, isFile, aligned, at) <==> isFile || aligned || (steady && WholeSectors(d) && at <= |d|)
  {}

  /** Whatever is read, the word behind the bytes from the front on is the checksum of the image itself. */
  ghost predicate FrontIsImage(offset: u32) {
    forall step: (nat, byte) -> nat, d: seq<byte>, n: nat ::
      ChecksumFollows(step, d, FrontOf(offset), n) ==> ChecksumFollows(step, d, offset, n)
  }

  /** An accepted image is the one at the offset exactly for offsets below 2 GiB. */
  lemma FrontIsImageExactly(offset: u32)
    ensures FrontIsImage(offset) <==> offset < 0x8000_0000
  {
    if offset >= 0x8000_0000 {
      var step: (nat, byte) -> nat := (crc: nat, b: byte) => 0;
      var d: seq<byte> := [0, 0, 0, 0];
      assert d[0..4] == d;
      assert Available(d, 0, 0) == [];
      assert ChecksumFollows(step, d, FrontOf(offset), 0);
      assert !ChecksumFollows(step, d, offset, 0);
    }
  }

  /** Sizes from 2 GiB on do not fit the int that counts the bytes left: nothing of such an image is checked. */
  lemma HugeImagesAreUnchecked(step: (nat, byte) -> nat, d: seq<byte>, offset: nat, imageSize: nat)
    requires imageSize < 0x1_0000_0000
    ensures Covered(imageSize) == imageSize <==> imageSize < 0x8000_0000
    ensures imageSize >= 0x8000_0000 ==>
              (ChecksumFollows(step, d, offset, Covered(imageSize))
               <==> offset + 4 <= |d| && Word(d[offset..offset + 4]) == 0)
  {
  }
}
