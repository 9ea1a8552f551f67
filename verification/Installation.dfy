/**
 Installing a firmware package: every item is written to its partition in zero-padded 16 KiB blocks and then
 compared with the package, and later partitions are touched only after earlier ones have passed.
 */
module Installation {
  import opened Bytes
  import opened Options
  import opened Storage

  /** An entry of the package header; offset and size are 32-bit words. */
  datatype Item = Item(name: string, offset: u32, size: u32)

  predicate IsFirst(items: seq<Item>, name: string, k: int) {
    0 <= k < |items| && items[k].name == name && forall i :: 0 <= i < k ==> items[i].name != name
  }

  /** The first item of a name. */
  function Lookup(items: seq<Item>, name: string): (found: Option<Item>)
    ensures forall k :: IsFirst(items, name, k) ==> found == Some(items[k])
    ensures found.Some? ==> exists k :: IsFirst(items, name, k)
    ensures found == None <==> forall i :: 0 <= i < |items| ==> items[i].name != name
  {
    if items == [] then None
    else if items[0].name == name then
      assert IsFirst(items, name, 0);
      Some(items[0])
    else
      var found := Lookup(items[1..], name);
      assert forall k :: IsFirst(items, name, k) ==> IsFirst(items[1..], name, k - 1);
      assert forall k :: IsFirst(items[1..], name, k) ==> IsFirst(items, name, k + 1);
      found
  }

  /** The item found has the name asked for, and no earlier one has it; nothing is found only if no item has it. */
  method FindItem(items: seq<Item>, name: string) returns (found: Option<Item>)
    ensures found == Lookup(items, name)
    ensures found == None <==> forall i :: 0 <= i < |items| ==> items[i].name != name
    ensures found.Some? ==>
              exists k :: 0 <= k < |items| && items[k] == found.value && items[k].name == name
                          && forall i :: 0 <= i < k ==> items[i].name != name
  {
    var i := 0;
    while i < |items|
      invariant i <= |items| && forall j :: 0 <= j < i ==> items[j].name != name
    {
      if items[i].name == name {
        assert IsFirst(items, name, i);
        return Some(items[i]);
      }
      i := i + 1;
    }
    found := None;
  }

  // ----- What a written partition holds ---------------------------------------------------------------

  function ZeroBytes(n: nat): (z: seq<byte>)
    ensures |z| == n && forall i :: 0 <= i < n ==> z[i] == 0
  {
    if n == 0 then [] else ZeroBytes(n - 1) + [0]
  }

  /** The next multiple of 16 KiB. */
  function PaddedSize(n: nat): (size: nat)
    ensures n <= size < n + 0x4000 && size % 0x4000 == 0
  {
    n + (BLOCK - n % BLOCK) % BLOCK
  }

  /** Bytes padded with zeros to a multiple of the block size. */
  function Padded(b: seq<byte>): (p: seq<byte>)
    ensures |p| == PaddedSize(|b|)
  {
    b + ZeroBytes(PaddedSize(|b|) - |b|)
  }

  /** The first bytes of an item in one block. */
  function Block(b: seq<byte>): (p: seq<byte>)
    requires |b| <= BLOCK
    ensures |p| == BLOCK
  {
    b + ZeroBytes(BLOCK - |b|)
  }

  /** A block stored at the first k copy positions. */
  function Copies(d: seq<byte>, block: seq<byte>, k: nat): (r: seq<byte>)
    ensures |r| == |d|
  {
    if k == 0 then d else Stored(Copies(d, block, k - 1), COPY_DISTANCE * (k - 1), block)
  }

  const COPIES := 4

  /** A partition after bytes have been written to it; the parameter partition gets its first block four times. */
  function Written(d: seq<byte>, at: nat, b: seq<byte>, isParameter: bool): seq<byte> {
    if !isParameter then Stored(d, at, Padded(b))
    else if b == [] then d
    else Copies(d, Block(if |b| < BLOCK then b else b[..BLOCK]), COPIES)
  }

  predicate Fits(d: seq<byte>, at: nat, size: nat, isParameter: bool) {
    size == 0 || (if isParameter then COPY_DISTANCE * (COPIES - 1) + BLOCK else at + PaddedSize(size)) <= |d|
  }

  lemma {:induction false} CopiesHold(d: seq<byte>, block: seq<byte>, k: nat)
    requires |block| == BLOCK && (k > 0 ==> COPY_DISTANCE * (k - 1) + BLOCK <= |d|)
    ensures forall j :: 0 <= j < k ==> Holds(Copies(d, block, k), COPY_DISTANCE * j, block)
    ensures forall i :: COPY_DISTANCE * k <= i < |d| ==> Copies(d, block, k)[i] == d[i]
  {
    if k > 0 {
      CopiesHold(d, block, k - 1);
      var before, after := Copies(d, block, k - 1), Copies(d, block, k);
      StoredThere(before, COPY_DISTANCE * (k - 1), block);
      forall j | 0 <= j < k ensures Holds(after, COPY_DISTANCE * j, block) {
        if j < k - 1 {
          var o := COPY_DISTANCE * j;
          assert Holds(before, o, block);
          assert after[o..o + BLOCK] == before[o..o + BLOCK];
        }
      }
    }
  }

  lemma PaddedStep(b: seq<byte>, done: nat, count: nat)
    requires done % BLOCK == 0 && 0 < count <= BLOCK && done + count <= |b| && (count == BLOCK || done + count == |b|)
    ensures Padded(b[..done]) == b[..done]
    ensures Padded(b[..done + count]) == b[..done] + Block(b[done..done + count])
    ensures PaddedSize(done + count) == done + BLOCK && (count == BLOCK ==> (done + count) % BLOCK == 0)
  {
    assert PaddedSize(done) == done;
    assert b[..done + count] == b[..done] + b[done..done + count];
    if count == BLOCK {
      assert (done + BLOCK) % BLOCK == 0;
    } else {
      assert (done + count) % BLOCK == count;
    }
  }

  /** A partition that has been written holds the item's bytes, is padded with zeros, and is otherwise as before. */
  lemma WrittenHolds(d: seq<byte>, at: nat, b: seq<byte>)
    requires Fits(d, at, |b|, false)
    ensures Holds(Written(d, at, b, false), at, b)
    ensures SameElsewhere(d, Written(d, at, b, false), at, PaddedSize(|b|))
    ensures forall i :: at + |b| <= i < at + PaddedSize(|b|) ==> i < |d| && Written(d, at, b, false)[i] == 0
  {
    if b != [] {
      StoredThere(d, at, Padded(b));
      var r := Written(d, at, b, false);
      assert r[at..at + |Padded(b)|][..|b|] == b;
      forall i | at + |b| <= i < at + PaddedSize(|b|) ensures r[i] == 0 {
        assert r[i] == r[at..at + |Padded(b)|][i - at];
      }
    }
  }

  /** Every byte of the parameter partition after a write: a copy of the first block, or as before. */
  lemma {:induction false} CopiesAt(d: seq<byte>, block: seq<byte>, k: nat, i: nat)
    requires |block| == BLOCK && i < |d| && (k > 0 ==> COPY_DISTANCE * (k - 1) + BLOCK <= |d|)
    ensures Copies(d, block, k)[i]
         == if i / COPY_DISTANCE < k && i % COPY_DISTANCE < BLOCK then block[i % COPY_DISTANCE] else d[i]
  {
    if k > 0 {
      var o := COPY_DISTANCE * (k - 1);
      CopiesAt(d, block, k - 1, i);
      StoredThere(Copies(d, block, k - 1), o, block);
      if o <= i < o + BLOCK {
        assert Copies(d, block, k)[o..o + BLOCK][i - o] == block[i - o];
      }
    }
  }

  /** The first 16 KiB of an item at a place, with zeros behind its end. */
  predicate CopyAt(d: seq<byte>, o: nat, b: seq<byte>) {
    o + 0x4000 <= |d| && forall i :: 0 <= i < 0x4000 ==> d[o + i] == if i < |b| then b[i] else 0
  }

  lemma BlockThere(d: seq<byte>, o: nat, b: seq<byte>)
    requires Holds(d, o, Block(if |b| < BLOCK then b else b[..BLOCK]))
    ensures CopyAt(d, o, b)
  {
    var block := Block(if |b| < BLOCK then b else b[..BLOCK]);
    assert d[o..o + 0x4000] == block;
    hide Block;
    assert forall i :: 0 <= i < 0x4000 ==> d[o + i] == block[i];
  }

  /** The parameter partition: the first block at 0, 512 KiB, 1 MiB and 1.5 MiB, and all else as it was. */
  lemma ParameterCopies(d: seq<byte>, at: nat, b: seq<byte>)
    requires b != [] && 0x18_4000 <= |d|
    ensures var r := Written(d, at, b, true);
            && |r| == |d| && CopyAt(r, 0, b) && CopyAt(r, 0x8_0000, b) && CopyAt(r, 0x10_0000, b)
            && CopyAt(r, 0x18_0000, b)
            && forall i :: 0 <= i < |d| && (i % 0x8_0000 >= 0x4000 || i >= 0x20_0000) ==> r[i] == d[i]
  {
    var block, r := Block(if |b| < BLOCK then b else b[..BLOCK]), Written(d, at, b, true);
    CopiesHold(d, block, COPIES);
    forall i | 0 <= i < |d| && (i % 0x8_0000 >= 0x4000 || i >= 0x20_0000) ensures r[i] == d[i] {
      CopiesAt(d, block, COPIES, i);
    }
    hide Copies, Written, Block, Holds;
    BlockThere(r, COPY_DISTANCE * 0, b);
    BlockThere(r, COPY_DISTANCE * 1, b);
    BlockThere(r, COPY_DISTANCE * 2, b);
    BlockThere(r, COPY_DISTANCE * 3, b);
    hide CopyAt;
  }

  /**
   The check after a parameter write covers the whole item although only its first block is written: it passes
   exactly if what lies behind the first block is already there, in the partition or in one of the copies.
   */
  lemma ParameterPasses(d: seq<byte>, b: seq<byte>)
    requires b != [] && Fits(d, 0, |b|, true)
    ensures Holds(Written(d, 0, b, true), 0, b) <==>
              |b| <= |d| && forall i :: BLOCK <= i < |b| ==>
                b[i] == if i / COPY_DISTANCE < COPIES && i % COPY_DISTANCE < BLOCK then b[i % COPY_DISTANCE] else d[i]
  {
    var block := Block(if |b| < BLOCK then b else b[..BLOCK]);
    var r := Copies(d, block, COPIES);
    assert Written(d, 0, b, true) == r;
    forall i | 0 <= i < |d| && i < |b|
      ensures r[i] == if i / COPY_DISTANCE < COPIES && i % COPY_DISTANCE < BLOCK then b[i % COPY_DISTANCE] else d[i]
    {
      CopiesAt(d, block, COPIES, i);
    }
    hide Copies, Written, Block;
    if |b| <= |d| {
      assert Holds(r, 0, b) <==> r[..|b|] == b;
      assert forall i :: 0 <= i < |b| && i < BLOCK ==> r[i] == b[i];
      if r[..|b|] == b {
        assert forall i :: 0 <= i < |b| ==> r[i] == r[..|b|][i];
      }
    }
  }

  // ----- Reading an item through int counters -------------------------------------------------------------

  /**
   Where the loops read after `done` bytes. The header's words are kept in ints: an offset from 2 GiB on is
   negative, and as long as it is, nothing seeks and the file is read on from its beginning.
   */
  function At(offset: int, done: nat): nat { if offset + done >= 0 then offset + done else done }

  function ChunkSize(done: nat, size: nat, step: nat): nat
    requires done < size
  {
    if size - done > step then step else size - done
  }

  predicate AllFrom(p: seq<byte>, offset: int, done: nat, size: nat, step: nat)
    requires step > 0
    decreases size - done
  {
    done >= size || (Has(p, At(offset, done), ChunkSize(done, size, step))
                     && AllFrom(p, offset, done + ChunkSize(done, size, step), size, step))
  }

  /** The bytes that reads in chunks of `step` deliver. */
  function From(p: seq<byte>, offset: int, done: nat, size: nat, step: nat): seq<byte>
    requires step > 0
    decreases size - done
  {
    if done >= size then [] else
      var n := ChunkSize(done, size, step);
      Available(p, At(offset, done), n) + From(p, offset, done + n, size, step)
  }

  /** All the bytes the loops read of an item, and whether they are there. */
  function Source(p: seq<byte>, offset: int, size: nat, step: nat): seq<byte>
    requires step > 0
  {
    From(p, offset, 0, size, step)
  }

  predicate Readable(p: seq<byte>, offset: int, size: nat, step: nat)
    requires step > 0
  {
    AllFrom(p, offset, 0, size, step)
  }

  lemma FirstChunk(p: seq<byte>, offset: int, done: nat, size: nat, step: nat)
    requires step > 0 && done < size
    ensures var n := ChunkSize(done, size, step);
            && (AllFrom(p, offset, done, size, step)
                <==> Has(p, At(offset, done), n) && AllFrom(p, offset, done + n, size, step))
            && From(p, offset, done, size, step)
               == Available(p, At(offset, done), n) + From(p, offset, done + n, size, step)
  {}

  /** From a non-negative offset, reading in chunks is reading at once. */
  lemma {:induction false} SourceIsPlain(p: seq<byte>, offset: nat, done: nat, size: nat, step: nat)
    requires step > 0 && done <= size
    ensures AllFrom(p, offset, done, size, step) <==> Has(p, offset + done, size - done)
    ensures Has(p, offset + done, size - done) ==>
              From(p, offset, done, size, step) == Available(p, offset + done, size - done)
    decreases size - done
  {
    hide *;
    if done < size {
      var n, at := ChunkSize(done, size, step), offset + done;
      ChunkFits(offset, done, size, step);
      FirstChunk(p, offset, done, size, step);
      SourceIsPlain(p, offset, done + n, size, step);
      PartsThere(p, at, n, size - done);
      PartsJoin(p, at, n, size - done);
      assert offset + (done + n) == at + n;
    } else {
      NoChunk(p, offset, size, step);
      NothingThere(p, offset + done);
    }
  }

  lemma ChunkFits(offset: nat, done: nat, size: nat, step: nat)
    requires done < size && step > 0
    ensures 0 < ChunkSize(done, size, step) <= size - done && At(offset, done) == offset + done
  {}

  lemma NoChunk(p: seq<byte>, offset: int, size: nat, step: nat)
    requires step > 0
    ensures AllFrom(p, offset, size, size, step) && From(p, offset, size, size, step) == []
  {}

  lemma NothingThere(p: seq<byte>, o: nat)
    ensures Has(p, o, 0) && Available(p, o, 0) == []
  {}

  lemma PartsJoin(p: seq<byte>, o: nat, n: nat, size: nat)
    requires 0 < n <= size
    ensures Has(p, o, size) ==> Available(p, o, size) == Available(p, o, n) + Available(p, o + n, size - n)
  {
    if Has(p, o, size) {
      AvailableParts(p, o, n, size - n);
    }
  }

  lemma PartsThere(p: seq<byte>, o: nat, n: nat, size: nat)
    requires 0 < n <= size
    ensures Has(p, o, size) <==> Has(p, o, n) && Has(p, o + n, size - n)
    ensures Has(p, o, size) ==> o + size <= |p|
  {}

  lemma WrapAdds(x: int, n: nat)
    ensures Wrap(Wrap(x) + n) == Wrap(x + n)
  {}

  /** The position of the open package from which the next chunk comes when the int offset is negative. */
  predicate Following(offset: int, done: nat, pos: nat) { offset >= 0 || offset + done < 0 ==> pos == At(offset, done) }

  lemma ReadsAt(offset: int, done: nat, pos: nat)
    requires -0x8000_0000 <= offset < 0x8000_0000 && done < 0x8000_0000 && Following(offset, done, pos)
    ensures StartOf(Wrap(offset + done), pos) == At(offset, done)
  {
    var x := offset + done;
    assert x < 0 ==> x % 0x1_0000_0000 == x + 0x1_0000_0000;
  }

  lemma FollowingNext(offset: int, done: nat, n: nat)
    ensures Following(offset, done + n, At(offset, done) + n)
  {}

  function Count(size: int): nat { if size > 0 then size else 0 }

  /** The bytes an item names. */
  function ItemBytes(package: seq<byte>, item: Item): seq<byte> { Available(package, item.offset, item.size) }

  // ----- Writing an item --------------------------------------------------------------------------------

  /** One chunk of the package in a zeroed block buffer. */
  method ReadBlock(package: Device, offset: int, buffer: array<byte>, count: nat) returns (ret: int)
    requires buffer.Length == BLOCK && count <= BLOCK
    modifies package`pos, package`shorts, buffer
    ensures ret == 0 || ret == -1
    ensures var at := StartOf(offset, old(package.pos));
            && (ret == 0 ==> Has(package.data, at, count) && |Available(package.data, at, count)| == count
                             && buffer[..] == Block(Available(package.data, at, count)) && package.pos == at + count)
            && (package.steady && Has(package.data, at, count) ==> ret == 0)
  {
    forall i | 0 <= i < BLOCK {
      buffer[i] := 0;
    }
    ret := ReadFile(package, offset, buffer, count);
    assert buffer[..] == buffer[..count] + buffer[count..];
    assert buffer[count..] == ZeroBytes(BLOCK - count);
  }

  /** A block written to a partition at a position, or as four copies. */
  predicate BlockPlaced(mid: seq<byte>, now: seq<byte>, pos: nat, block: seq<byte>, isParameter: bool, faithful: bool) {
    if isParameter then
      && |mid| == |now| && COPY_DISTANCE * (COPIES - 1) + BLOCK <= |now|
      && (faithful ==> now == Copies(mid, block, COPIES))
    else
      SameElsewhere(mid, now, pos, BLOCK) && pos + BLOCK <= |now| && (faithful ==> now == Stored(mid, pos, block))
  }

  /** One block at the current position, or at the four copy positions. */
  method WriteBlock(dest: Device, block: seq<byte>, isParameter: bool) returns (ok: bool)
    requires |block| == BLOCK
    modifies dest`data, dest`pos
    ensures |dest.data| == |old(dest.data)|
    ensures !isParameter ==> SameElsewhere(old(dest.data), dest.data, old(dest.pos), BLOCK)
    ensures ok ==> BlockPlaced(old(dest.data), dest.data, old(dest.pos), block, isParameter, dest.faithful)
    ensures ok && !isParameter ==> dest.pos == old(dest.pos) + BLOCK
    ensures dest.steady ==>
              (if isParameter then COPY_DISTANCE * (COPIES - 1) else old(dest.pos)) + BLOCK <= |dest.data| ==> ok
  {
    hide Stored, Available;
    if isParameter {
      var i := 0;
      while i <= 3
        invariant 0 <= i <= 4 && |dest.data| == |old(dest.data)|
        invariant i > 0 ==> COPY_DISTANCE * (i - 1) + BLOCK <= |dest.data|
        invariant dest.faithful ==> dest.data == Copies(old(dest.data), block, i)
      {
        dest.Seek(COPY_DISTANCE * i);
        var count := dest.Write(block);
        if count != BLOCK {
          return false;
        }
        assert block[..count] == block;
        i := i + 1;
      }
    } else {
      var count := dest.Write(block);
      if count != BLOCK {
        return false;
      }
      assert block[..count] == block;
    }
    ok := true;
  }

  /** The bytes of an item that a write reads: all of them, or the first block for the parameter partition. */
  function Needed(size: nat, isParameter: bool): nat { if isParameter && size > BLOCK then BLOCK else size }

  /** Where the write loop can be: block by block through the item, or before or after the only parameter block. */
  predicate Stage(size: nat, isParameter: bool, done: nat, destRemain: int) {
    && done <= size
    && if isParameter then destRemain == (if done == 0 then BLOCK else 0) && (done == 0 || done == Needed(size, true))
       else (size > 0 ==> destRemain == size - done) && (done == size || done % BLOCK == 0)
  }

  /** The partition once the given bytes of an item have been written. */
  predicate Reached(before: seq<byte>, now: seq<byte>, at: nat, got: seq<byte>, isParameter: bool, faithful: bool) {
    && |before| == |now| && Fits(now, at, |got|, isParameter)
    && (faithful ==> now == Written(before, at, got, isParameter))
    && (!isParameter ==> SameElsewhere(before, now, at, PaddedSize(|got|)))
  }

  lemma NothingReached(before: seq<byte>, at: nat, isParameter: bool, size: nat, faithful: bool)
    ensures Reached(before, before, at, [], isParameter, faithful)
    ensures Stage(size, isParameter, 0, if isParameter then BLOCK else size)
  {
    if !isParameter && at <= |before| {
      var e := Padded([]);
      assert e == [];
      assert before[..at] + e + before[at + |e|..] == before;
    }
  }

  lemma SamePrefixes(a: seq<byte>, b: seq<byte>, c: seq<byte>, o: nat, n: nat, m: nat, total: nat)
    requires SameElsewhere(a, b, o, n) && SameElsewhere(b, c, o + n, m) && n + m <= total
    ensures SameElsewhere(a, c, o, total)
  {}

  /** Another block of an ordinary partition. */
  lemma OrdinaryNext(before: seq<byte>, mid: seq<byte>, now: seq<byte>, at: nat, all: seq<byte>, done: nat,
                     count: nat, faithful: bool)
    requires done % BLOCK == 0 && 0 < count <= BLOCK && done + count == |all|
    requires Reached(before, mid, at, all[..done], false, faithful)
    requires SameElsewhere(mid, now, at + done, BLOCK) && at + done + BLOCK <= |now|
    requires faithful ==> now == Stored(mid, at + done, Block(all[done..]))
    ensures Reached(before, now, at, all, false, faithful)
  {
    var got, block := all[..done], Block(all[done..]);
    PaddedStep(all, done, count);
    assert all[..done + count] == all && all[done..done + count] == all[done..];
    assert Padded(got) == got && Padded(all) == got + block && PaddedSize(|all|) == done + BLOCK;
    hide Padded, Block, PaddedSize, Stored, SameElsewhere;
    SamePrefixes(before, mid, now, at, done, BLOCK, done + BLOCK);
    if faithful {
      StoredTwice(before, at, got, block);
    }
  }

  /** The only block of the parameter partition. */
  lemma ParameterNext(before: seq<byte>, mid: seq<byte>, now: seq<byte>, at: nat, all: seq<byte>, faithful: bool)
    requires 0 < |all| <= BLOCK && |mid| == |now|
    requires Reached(before, mid, at, [], true, faithful)
    requires COPY_DISTANCE * (COPIES - 1) + BLOCK <= |now|
    requires faithful ==> now == Copies(mid, Block(all), COPIES)
    ensures Reached(before, now, at, all, true, faithful)
  {
    assert |all| == BLOCK ==> all[..BLOCK] == all;
  }

  lemma ChunkDone(before: seq<byte>, mid: seq<byte>, now: seq<byte>, at: nat, got: seq<byte>, more: seq<byte>,
                  isParameter: bool, faithful: bool)
    requires 0 < |more| <= BLOCK && (if isParameter then got == [] else |got| % BLOCK == 0)
    requires Reached(before, mid, at, got, isParameter, faithful)
    requires BlockPlaced(mid, now, at + |got|, Block(more), isParameter, faithful)
    ensures Reached(before, now, at, got + more, isParameter, faithful)
  {
    var all := got + more;
    assert all[..|got|] == got && all[|got|..] == more;
    hide Reached, Block;
    if isParameter {
      assert all == more;
      ParameterNext(before, mid, now, at, all, faithful);
    } else {
      OrdinaryNext(before, mid, now, at, all, |got|, |more|, faithful);
    }
  }

  /** A failed chunk leaves traces only in the range the item is written to. */
  lemma ChunkFailed(before: seq<byte>, mid: seq<byte>, now: seq<byte>, at: nat, got: seq<byte>, size: nat,
                    faithful: bool)
    requires Reached(before, mid, at, got, false, faithful) && |got| % BLOCK == 0 && |got| < size
    requires mid == now || SameElsewhere(mid, now, at + |got|, BLOCK)
    ensures SameElsewhere(before, now, at, PaddedSize(size))
  {
    ChunkSizes(size, |got|, if size - |got| > BLOCK then BLOCK else size - |got|);
    SamePrefixes(before, mid, now, at, |got|, BLOCK, PaddedSize(size));
  }

  lemma BlockMissing(d: seq<byte>, at: nat, done: nat, count: nat, isParameter: bool)
    requires 0 < count <= BLOCK && if isParameter then done == 0 else done % BLOCK == 0
    requires (if isParameter then COPY_DISTANCE * (COPIES - 1) else at + done) + BLOCK > |d|
    ensures !Fits(d, at, done + count, isParameter)
  {
    if !isParameter {
      assert PaddedSize(done + count) >= done + BLOCK by {
        ChunkSizes(done + count, done, count);
      }
    }
  }

  /** Reads one chunk and writes it as one block: 0, or -2 if the read failed, or -1 if the write did. */
  method CopyChunk(package: Device, dest: Device, isParameter: bool, fileOffset: int, count: nat, buffer: array<byte>,
                   ghost before: seq<byte>, ghost at: nat, ghost size: nat, ghost got: seq<byte>) returns (ret: int)
    requires package != dest && buffer.Length == BLOCK
    requires |got| < size && count == ChunkSize(|got|, size, BLOCK)
    requires if isParameter then got == [] else |got| % BLOCK == 0
    requires !isParameter ==> dest.pos == at + |got|
    requires Reached(before, dest.data, at, got, isParameter, dest.faithful)
    modifies package`pos, package`shorts, dest`data, dest`pos, buffer
    ensures ret == 0 || ret == -1 || ret == -2
    ensures ret == -2 ==> dest.data == old(dest.data)
    ensures ret == -2 && package.steady ==> !Has(package.data, StartOf(fileOffset, old(package.pos)), count)
    ensures ret != 0 && !isParameter ==> SameElsewhere(before, dest.data, at, PaddedSize(size))
    ensures ret == -1 && dest.steady ==> !Fits(dest.data, at, |got| + count, isParameter)
    ensures ret == 0 ==> Has(package.data, StartOf(fileOffset, old(package.pos)), count)
                         && package.pos == StartOf(fileOffset, old(package.pos)) + count
    ensures ret == 0 && !isParameter ==> dest.pos == at + |got| + BLOCK
    ensures ret == 0 ==> var more := Available(package.data, StartOf(fileOffset, old(package.pos)), count);
                         |more| == count && Reached(before, dest.data, at, got + more, isParameter, dest.faithful)
  {
    ghost var mid, from := dest.data, StartOf(fileOffset, package.pos);
    ghost var more := Available(package.data, from, count);
    ghost var pos: nat := if isParameter then dest.pos else at + |got|;
    ghost var done := |got|;
    assert 0 < count <= BLOCK;
    assert isParameter ==> |got| % BLOCK == 0;
    hide *;
    ret := ReadBlock(package, fileOffset, buffer, count);
    if ret != 0 {
      if !isParameter {
        ChunkFailed(before, mid, mid, at, got, size, dest.faithful);
      }
      return -2;
    }
    var ok := WriteBlock(dest, buffer[..], isParameter);
    if !ok {
      if dest.steady {
        BlockMissing(dest.data, at, done, count, isParameter);
      }
      if !isParameter {
        ChunkFailed(before, mid, dest.data, at, got, size, dest.faithful);
      }
      return -1;
    }
    ParameterPosition(mid, dest.data, pos, at + done, buffer[..], isParameter, dest.faithful);
    ChunkDone(before, mid, dest.data, at, got, more, isParameter, dest.faithful);
  }

  lemma ParameterPosition(mid: seq<byte>, now: seq<byte>, pos: nat, other: nat, block: seq<byte>, isParameter: bool,
                          faithful: bool)
    requires BlockPlaced(mid, now, pos, block, isParameter, faithful) && (!isParameter ==> pos == other)
    ensures BlockPlaced(mid, now, other, block, isParameter, faithful)
  {}

  lemma ChunkSizes(size: nat, done: nat, count: nat)
    requires done < size && count == if size - done > BLOCK then BLOCK else size - done
    requires done % BLOCK == 0
    ensures PaddedSize(done) == done && done + BLOCK <= PaddedSize(size) && PaddedSize(done + count) == done + BLOCK
  {}

  lemma StageNext(size: nat, isParameter: bool, done: nat, destRemain: int, count: nat)
    requires Stage(size, isParameter, done, destRemain) && done < size && destRemain > 0
    requires count == if size - done > BLOCK then BLOCK else size - done
    ensures if isParameter then done == 0 else done % BLOCK == 0
    ensures done + count <= Needed(size, isParameter)
    ensures Stage(size, isParameter, done + count, destRemain - if done + count == size then destRemain else BLOCK)
  {}

  lemma StageEnd(size: nat, isParameter: bool, done: nat, destRemain: int)
    requires Stage(size, isParameter, done, destRemain) && (done == size || destRemain <= 0)
    ensures done == Needed(size, isParameter)
  {}

  lemma WriteNeeded(d: seq<byte>, at: nat, k: nat, needed: nat, isParameter: bool)
    requires 0 < k <= needed && !Fits(d, at, k, isParameter)
    ensures !Fits(d, at, needed, isParameter)
  {}

  /** What a finished write has done. */
  lemma ReachedEnd(before: seq<byte>, now: seq<byte>, at: nat, got: seq<byte>, size: nat, isParameter: bool,
                   faithful: bool)
    requires Reached(before, now, at, got, isParameter, faithful) && (!isParameter ==> |got| == size)
    ensures |before| == |now| && Fits(now, at, |got|, isParameter)
    ensures faithful ==> now == Written(before, at, got, isParameter)
    ensures !isParameter ==> SameElsewhere(before, now, at, PaddedSize(size))
  {}

  lemma NeededWhole(size: nat)
    ensures Needed(size, false) == size
  {}

  /** What has been read so far and what is still to be read make up the source. */
  predicate Halfway(p: seq<byte>, offset: int, got: seq<byte>, size: nat, step: nat)
    requires step > 0
  {
    && got + From(p, offset, |got|, size, step) == Source(p, offset, size, step)
    && (Readable(p, offset, size, step) <==> AllFrom(p, offset, |got|, size, step))
  }

  lemma HalfwayStart(p: seq<byte>, offset: int, size: nat, step: nat)
    requires step > 0
    ensures Halfway(p, offset, [], size, step)
  {}

  lemma HalfwayNext(p: seq<byte>, offset: int, got: seq<byte>, size: nat, step: nat, count: nat)
    requires step > 0 && |got| < size && count == ChunkSize(|got|, size, step)
    requires Halfway(p, offset, got, size, step)
    ensures !Has(p, At(offset, |got|), count) ==> !Readable(p, offset, size, step)
    ensures var more := Available(p, At(offset, |got|), count);
            |more| == count && Has(p, At(offset, |got|), count) ==> Halfway(p, offset, got + more, size, step)
  {
    hide Source, Readable, Available, Has, ChunkSize, At;
    var more, rest := Available(p, At(offset, |got|), count), From(p, offset, |got| + count, size, step);
    assert (got + more) + rest == got + (more + rest);
  }

  lemma HalfwayEnd(p: seq<byte>, offset: int, got: seq<byte>, size: nat, step: nat)
    requires step > 0 && |got| == size && Halfway(p, offset, got, size, step)
    ensures Readable(p, offset, size, step) && Source(p, offset, size, step) == got
  {
    assert got + [] == got;
  }

  /** The write loop between two rounds, as far as reading and counting go. */
  predicate Copying(p: seq<byte>, offset: int, got: seq<byte>, total: nat, isParameter: bool, destRemain: int,
                    fileOffset: int, pos: nat) {
    && Stage(total, isParameter, |got|, destRemain) && Halfway(p, offset, got, Needed(total, isParameter), BLOCK)
    && fileOffset == Wrap(offset + |got|) && Following(offset, |got|, pos)
  }

  lemma CopyingStart(p: seq<byte>, offset: int, size: int, isParameter: bool, pos: nat)
    requires -0x8000_0000 <= offset < 0x8000_0000 && pos == (if offset >= 0 then offset else 0)
    ensures Copying(p, offset, [], Count(size), isParameter, if isParameter then BLOCK else size, offset, pos)
  {
    HalfwayStart(p, offset, Needed(Count(size), isParameter), BLOCK);
    assert offset < 0 ==> offset % 0x1_0000_0000 == offset + 0x1_0000_0000;
    hide Halfway;
  }

  /** One round: where it reads, how much, and what it leaves if the bytes are there. */
  lemma CopyingNext(p: seq<byte>, offset: int, got: seq<byte>, total: nat, isParameter: bool, destRemain: int,
                    fileOffset: int, pos: nat, count: nat)
    requires Copying(p, offset, got, total, isParameter, destRemain, fileOffset, pos)
    requires |got| < total < 0x8000_0000 && destRemain > 0 && -0x8000_0000 <= offset < 0x8000_0000
    requires count == if total - |got| > BLOCK then BLOCK else total - |got|
    ensures 0 < count == ChunkSize(|got|, total, BLOCK) && |got| + count <= Needed(total, isParameter)
    ensures if isParameter then got == [] else |got| % BLOCK == 0
    ensures var from, more := StartOf(fileOffset, pos), Available(p, StartOf(fileOffset, pos), count);
            && (!Has(p, from, count) ==> !Readable(p, offset, Needed(total, isParameter), BLOCK))
            && (Has(p, from, count) && |more| == count ==>
                  Copying(p, offset, got + more, total, isParameter,
                          destRemain - if |got| + count == total then destRemain else BLOCK,
                          Wrap(fileOffset + count), from + count))
  {
    hide *;
    var needed, at := Needed(total, isParameter), At(offset, |got|);
    CopyingSays(p, offset, got, total, isParameter, destRemain, fileOffset, pos);
    StageNext(total, isParameter, |got|, destRemain, count);
    SameChunk(|got|, total, isParameter, count);
    ReadsAt(offset, |got|, pos);
    FollowingNext(offset, |got|, count);
    WrapAdds(offset + |got|, count);
    HalfwayNext(p, offset, got, needed, BLOCK, count);
    var more := Available(p, at, count);
    if Has(p, at, count) && |more| == count {
      assert |got + more| == |got| + count;
      CopyingWith(p, offset, got + more, total, isParameter,
                  destRemain - if |got| + count == total then destRemain else BLOCK,
                  Wrap(fileOffset + count), at + count);
    }
  }

  lemma CopyingSays(p: seq<byte>, offset: int, got: seq<byte>, total: nat, isParameter: bool, destRemain: int,
                    fileOffset: int, pos: nat)
    requires Copying(p, offset, got, total, isParameter, destRemain, fileOffset, pos)
    ensures Stage(total, isParameter, |got|, destRemain) && Halfway(p, offset, got, Needed(total, isParameter), BLOCK)
    ensures fileOffset == Wrap(offset + |got|) && Following(offset, |got|, pos)
  {}

  lemma SameChunk(done: nat, total: nat, isParameter: bool, count: nat)
    requires done < total && count == (if total - done > BLOCK then BLOCK else total - done)
    requires (isParameter ==> done == 0) && done + count <= Needed(total, isParameter)
    ensures 0 < count == ChunkSize(done, total, BLOCK) == ChunkSize(done, Needed(total, isParameter), BLOCK)
  {}

  lemma CopyingWith(p: seq<byte>, offset: int, got: seq<byte>, total: nat, isParameter: bool, destRemain: int,
                    fileOffset: int, pos: nat)
    requires Stage(total, isParameter, |got|, destRemain) && Halfway(p, offset, got, Needed(total, isParameter), BLOCK)
    requires fileOffset == Wrap(offset + |got|) && Following(offset, |got|, pos)
    ensures Copying(p, offset, got, total, isParameter, destRemain, fileOffset, pos)
  {}

  lemma CopyingEnd(p: seq<byte>, offset: int, got: seq<byte>, total: nat, isParameter: bool, destRemain: int,
                   fileOffset: int, pos: nat)
    requires Copying(p, offset, got, total, isParameter, destRemain, fileOffset, pos)
    ensures |got| <= total
    ensures |got| == total || destRemain <= 0 ==>
              |got| == Needed(total, isParameter) && (!isParameter ==> |got| == total)
              && Readable(p, offset, |got|, BLOCK) && Source(p, offset, |got|, BLOCK) == got
  {
    if |got| == total || destRemain <= 0 {
      StageEnd(total, isParameter, |got|, destRemain);
      HalfwayEnd(p, offset, got, Needed(total, isParameter), BLOCK);
    }
    hide Halfway, Readable, Source;
  }

  /** One round of the write loop. */
  method CopyRound(package: Device, dest: Device, isParameter: bool, fileOffset: int, count: nat, buffer: array<byte>,
                   ghost before: seq<byte>, ghost at: nat, ghost offset: int, ghost total: nat,
                   ghost got: seq<byte>, ghost destRemain: int)
    returns (ret: int, ghost more: seq<byte>)
    requires package != dest && buffer.Length == BLOCK
    requires |got| < total < 0x8000_0000 && destRemain > 0 && -0x8000_0000 <= offset < 0x8000_0000
    requires count == if total - |got| > BLOCK then BLOCK else total - |got|
    requires Copying(package.data, offset, got, total, isParameter, destRemain, fileOffset, package.pos)
    requires Reached(before, dest.data, at, got, isParameter, dest.faithful)
    requires !isParameter ==> dest.pos == at + |got|
    modifies package`pos, package`shorts, dest`data, dest`pos, buffer
    ensures ret == 0 || ret == -1 || ret == -2
    ensures ret == -2 ==> dest.data == old(dest.data)
    ensures ret == -2 && package.steady ==> !Readable(package.data, offset, Needed(total, isParameter), BLOCK)
    ensures ret == -1 && dest.steady ==> !Fits(dest.data, at, Needed(total, isParameter), isParameter)
    ensures ret != 0 && !isParameter ==> SameElsewhere(before, dest.data, at, PaddedSize(total))
    ensures ret == 0 ==> |more| == count
    ensures ret == 0 ==> Copying(package.data, offset, got + more, total, isParameter,
                                 destRemain - (if |got| + count == total then destRemain else BLOCK),
                                 Wrap(fileOffset + count), package.pos)
    ensures ret == 0 ==> Reached(before, dest.data, at, got + more, isParameter, dest.faithful)
    ensures ret == 0 && !isParameter && |got| + count < total ==> dest.pos == at + |got| + count
  {
    CopyingNext(package.data, offset, got, total, isParameter, destRemain, fileOffset, package.pos, count);
    hide *;
    more := Available(package.data, StartOf(fileOffset, package.pos), count);
    ret := CopyChunk(package, dest, isParameter, fileOffset, count, buffer, before, at, total, got);
    if ret == -1 && dest.steady {
      WriteNeeded(dest.data, at, |got| + count, Needed(total, isParameter), isParameter);
    }
  }

  /** Copies an item block by block, with the offset and the size as the ints of the code. */
  method CopyItem(package: Device, offset: int, size: int, dest: Device, isParameter: bool, woffset: nat)
    returns (ret: int)
    requires dest != package && -0x8000_0000 <= offset < 0x8000_0000 && size < 0x8000_0000
    modifies package`pos, package`shorts, dest`data, dest`pos
    ensures ret == 0 || ret == -1 || ret == -2
    ensures ret == -2 ==> dest.data == old(dest.data)
    ensures !isParameter ==> SameElsewhere(old(dest.data), dest.data, woffset, PaddedSize(Count(size)))
    ensures var needed := Needed(Count(size), isParameter);
            && (ret == 0 ==>
                  Readable(package.data, offset, needed, BLOCK) && Fits(dest.data, woffset, needed, isParameter))
            && (ret == 0 && dest.faithful ==>
                  dest.data == Written(old(dest.data), woffset, Source(package.data, offset, needed, BLOCK),
                                       isParameter))
            && (package.steady && dest.steady && Readable(package.data, offset, needed, BLOCK) ==>
                  Fits(dest.data, woffset, needed, isParameter) ==> ret == 0)
  {
    package.Seek(0);
    if offset >= 0 {
      package.Seek(offset);
    }
    dest.Seek(woffset);
    var srcRemain, destRemain := size, if isParameter then BLOCK else size;
    var buffer := new byte[BLOCK];
    var fileOffset, written := offset, false;
    ghost var total, got, p, before := Count(size), [], package.data, dest.data;
    ghost var needed := Needed(total, isParameter);
    NothingReached(before, woffset, isParameter, total, dest.faithful);
    CopyingStart(p, offset, size, isParameter, package.pos);
    assert total == if size > 0 then size else 0;
    hide *;
    while srcRemain > 0 && destRemain > 0
      invariant package.data == p && srcRemain == size - |got| && |got| <= total
      invariant written == (got != []) && (!written ==> dest.data == before)
      invariant Copying(p, offset, got, total, isParameter, destRemain, fileOffset, package.pos)
      invariant Reached(before, dest.data, woffset, got, isParameter, dest.faithful)
      invariant !isParameter && srcRemain > 0 ==> dest.pos == woffset + |got|
      decreases srcRemain
    {
      var count := if srcRemain > BLOCK then BLOCK else srcRemain;
      var r, more := CopyRound(package, dest, isParameter, fileOffset, count, buffer, before, woffset, offset, total,
                               got, destRemain);
      if r != 0 {
        return if r == -2 && !written then -2 else -1;
      }
      written := true;
      srcRemain, fileOffset, got := srcRemain - count, Wrap(fileOffset + count), got + more;
      var writeCount := if srcRemain == 0 then destRemain else BLOCK;
      destRemain := destRemain - writeCount;
    }
    CopyingEnd(p, offset, got, total, isParameter, destRemain, fileOffset, package.pos);
    ReachedEnd(before, dest.data, woffset, got, total, isParameter, dest.faithful);
    ret := 0;
  }

  // ----- Comparing an item with its partition -------------------------------------------------------------

  /** The first difference of two buffers, if there is one. */
  method MemCmp(a: array<byte>, b: array<byte>, n: nat) returns (r: int, index: nat)
    requires n <= a.Length && n <= b.Length
    ensures r == 0 <==> a[..n] == b[..n]
    ensures r != 0 ==> r == 1 && index < n && a[..n][..index] == b[..n][..index] && a[..n][index] != b[..n][index]
  {
    index := 0;
    while index < n
      invariant index <= n && a[..index] == b[..index]
    {
      if a[index] != b[index] {
        assert a[..n][..index] == a[..index] && b[..n][..index] == b[..index];
        return 1, index;
      }
      index := index + 1;
    }
    r := 0;
  }

  /** How far the whole reads of a comparison go. */
  /** The next multiple of 1 MiB. */
  function ComparedSize(n: nat): (size: nat)
    ensures n <= size < n + 0x10_0000 && size % 0x10_0000 == 0
  {
    n + (COMPARE_BUFFER_SIZE - n % COMPARE_BUFFER_SIZE) % COMPARE_BUFFER_SIZE
  }

  predicate Comparable(d: seq<byte>, at: nat, size: nat) { size == 0 || at + ComparedSize(size) <= |d| }

  lemma ComparedStep(size: nat, done: nat, count: nat)
    requires done < size && done % COMPARE_BUFFER_SIZE == 0
    requires count == if size - done > COMPARE_BUFFER_SIZE then COMPARE_BUFFER_SIZE else size - done
    ensures ComparedSize(done + count) == done + COMPARE_BUFFER_SIZE <= ComparedSize(size)
    ensures done + count == size || (done + count) % COMPARE_BUFFER_SIZE == 0
  {}

  /** The bytes compared so far are those of the partition. */
  predicate Agreed(got: seq<byte>, d: seq<byte>, at: nat) {
    Comparable(d, at, |got|) && got == Available(d, at, |got|)
  }

  lemma AgreedNext(got: seq<byte>, more: seq<byte>, d: seq<byte>, at: nat)
    requires Agreed(got, d, at) && 0 < |more| <= COMPARE_BUFFER_SIZE
    requires at + |got| + COMPARE_BUFFER_SIZE <= |d|
    requires ComparedSize(|got| + |more|) == |got| + COMPARE_BUFFER_SIZE
    requires more == Available(d, at + |got|, COMPARE_BUFFER_SIZE)[..|more|]
    ensures Agreed(got + more, d, at)
  {
    AvailableParts(d, at, |got|, |more|);
    assert Available(d, at + |got|, COMPARE_BUFFER_SIZE)[..|more|] == Available(d, at + |got|, |more|);
  }

  lemma AgreedHolds(got: seq<byte>, d: seq<byte>, at: nat)
    requires Agreed(got, d, at)
    ensures Comparable(d, at, |got|) && Holds(d, at, got)
  {}

  predicate DiffersAt(source: seq<byte>, d: seq<byte>, at: nat, k: int) {
    0 <= k < |source| && at + k < |d| && source[k] != d[at + k]
  }

  predicate Differs(source: seq<byte>, d: seq<byte>, at: nat) {
    exists k :: 0 <= k < |source| && DiffersAt(source, d, at, k)
  }

  lemma DifferenceFound(source: seq<byte>, got: seq<byte>, more: seq<byte>, rest: seq<byte>, d: seq<byte>, at: nat,
                        k: nat)
    requires source == got + (more + rest) && k < |more| <= COMPARE_BUFFER_SIZE
             && at + |got| + COMPARE_BUFFER_SIZE <= |d|
    requires more[k] != Available(d, at + |got|, COMPARE_BUFFER_SIZE)[..|more|][k]
    ensures Differs(source, d, at)
  {
    assert source[|got| + k] == more[k];
    assert DiffersAt(source, d, at, |got| + k);
  }

  lemma DifferenceRefutes(source: seq<byte>, d: seq<byte>, at: nat)
    requires Differs(source, d, at)
    ensures !Holds(d, at, source)
  {
    var k :| 0 <= k < |source| && DiffersAt(source, d, at, k);
    if at + |source| <= |d| {
      assert d[at..at + |source|][k] != source[k];
    }
  }

  lemma ComparableNeeds(d: seq<byte>, at: nat, done: nat, size: nat)
    requires done < size && done + COMPARE_BUFFER_SIZE <= ComparedSize(size) && at + done + COMPARE_BUFFER_SIZE > |d|
    ensures !Comparable(d, at, size)
  {}

  lemma ReadWhole(d: seq<byte>, o: nat, n: nat)
    ensures |Available(d, o, n)| == n && n > 0 ==> o + n <= |d|
    ensures o + n <= |d| ==> |Available(d, o, n)| == n
    ensures Has(d, o, n) ==> |Available(d, o, n)| == n
  {}

  /** The comparison loop between two rounds. */
  predicate Comparing(p: seq<byte>, offset: int, got: seq<byte>, size: nat, fileOffset: int, pos: nat) {
    && |got| <= size && Halfway(p, offset, got, size, COMPARE_BUFFER_SIZE)
    && fileOffset == Wrap(offset + |got|) && Following(offset, |got|, pos)
    && (|got| < size ==> |got| % COMPARE_BUFFER_SIZE == 0)
  }

  lemma ComparingStart(p: seq<byte>, offset: int, size: nat, pos: nat)
    requires -0x8000_0000 <= offset < 0x8000_0000 && pos == (if offset >= 0 then offset else 0)
    ensures Comparing(p, offset, [], size, offset, pos)
  {
    HalfwayStart(p, offset, size, COMPARE_BUFFER_SIZE);
    assert offset < 0 ==> offset % 0x1_0000_0000 == offset + 0x1_0000_0000;
    hide Halfway;
  }

  lemma ComparingSays(p: seq<byte>, offset: int, got: seq<byte>, size: nat, fileOffset: int, pos: nat)
    requires Comparing(p, offset, got, size, fileOffset, pos)
    ensures |got| <= size && Halfway(p, offset, got, size, COMPARE_BUFFER_SIZE)
    ensures fileOffset == Wrap(offset + |got|) && Following(offset, |got|, pos)
    ensures |got| < size ==> |got| % COMPARE_BUFFER_SIZE == 0
  {}

  lemma ComparingWith(p: seq<byte>, offset: int, got: seq<byte>, size: nat, fileOffset: int, pos: nat)
    requires |got| <= size && Halfway(p, offset, got, size, COMPARE_BUFFER_SIZE)
    requires fileOffset == Wrap(offset + |got|) && Following(offset, |got|, pos)
    requires |got| < size ==> |got| % COMPARE_BUFFER_SIZE == 0
    ensures Comparing(p, offset, got, size, fileOffset, pos)
  {}

  lemma CompareSize(done: nat, size: nat, count: nat)
    requires done < size && count == (if size - done > COMPARE_BUFFER_SIZE then COMPARE_BUFFER_SIZE else size - done)
    ensures 0 < count == ChunkSize(done, size, COMPARE_BUFFER_SIZE) <= COMPARE_BUFFER_SIZE && done + count <= size
  {}

  /** One round: where it reads, how much, and what it leaves if the bytes are there. */
  lemma ComparingNext(p: seq<byte>, offset: int, got: seq<byte>, size: nat, fileOffset: int, pos: nat, count: nat)
    requires Comparing(p, offset, got, size, fileOffset, pos)
    requires |got| < size < 0x8000_0000 && -0x8000_0000 <= offset < 0x8000_0000
    requires count == if size - |got| > COMPARE_BUFFER_SIZE then COMPARE_BUFFER_SIZE else size - |got|
    ensures 0 < count <= COMPARE_BUFFER_SIZE && |got| + count <= size
    ensures ComparedSize(|got| + count) == |got| + COMPARE_BUFFER_SIZE <= ComparedSize(size)
    ensures var from, more := StartOf(fileOffset, pos), Available(p, StartOf(fileOffset, pos), count);
            && (!Has(p, from, count) ==> !Readable(p, offset, size, COMPARE_BUFFER_SIZE))
            && (Has(p, from, count) && |more| == count ==>
                  Comparing(p, offset, got + more, size, Wrap(fileOffset + count), from + count))
  {
    hide *;
    var at := At(offset, |got|);
    ComparingSays(p, offset, got, size, fileOffset, pos);
    CompareSize(|got|, size, count);
    ComparedStep(size, |got|, count);
    ReadsAt(offset, |got|, pos);
    FollowingNext(offset, |got|, count);
    WrapAdds(offset + |got|, count);
    HalfwayNext(p, offset, got, size, COMPARE_BUFFER_SIZE, count);
    var more := Available(p, at, count);
    if Has(p, at, count) && |more| == count {
      assert |got + more| == |got| + count;
      ComparingWith(p, offset, got + more, size, Wrap(fileOffset + count), at + count);
    }
  }

  /** How the source goes on after the next chunk. */
  lemma SourceGoesOn(p: seq<byte>, offset: int, got: seq<byte>, size: nat, fileOffset: int, pos: nat, count: nat)
    returns (rest: seq<byte>)
    requires Comparing(p, offset, got, size, fileOffset, pos)
    requires |got| < size < 0x8000_0000 && -0x8000_0000 <= offset < 0x8000_0000
    requires count == if size - |got| > COMPARE_BUFFER_SIZE then COMPARE_BUFFER_SIZE else size - |got|
    ensures Source(p, offset, size, COMPARE_BUFFER_SIZE) == got + (Available(p, StartOf(fileOffset, pos), count) + rest)
  {
    rest := From(p, offset, |got| + count, size, COMPARE_BUFFER_SIZE);
    assert 0 < COMPARE_BUFFER_SIZE;
    hide *;
    ComparingSays(p, offset, got, size, fileOffset, pos);
    ReadsAt(offset, |got|, pos);
    CompareSize(|got|, size, count);
    SourceSplits(p, offset, got, size, COMPARE_BUFFER_SIZE);
  }

  lemma SourceSplits(p: seq<byte>, offset: int, got: seq<byte>, size: nat, step: nat)
    requires step > 0 && |got| < size && Halfway(p, offset, got, size, step)
    ensures var n := ChunkSize(|got|, size, step);
            Source(p, offset, size, step)
            == got + (Available(p, At(offset, |got|), n) + From(p, offset, |got| + n, size, step))
  {
    FirstChunk(p, offset, |got|, size, step);
    hide From, AllFrom, Available, At, ChunkSize;
  }

  /** Fills both comparison buffers. */
  method ReadChunks(package: Device, dest: Device, fileOffset: int, count: nat, srcBuf: array<byte>,
                    destBuf: array<byte>)
    returns (ok: bool)
    requires package != dest && srcBuf != destBuf && destBuf.Length == COMPARE_BUFFER_SIZE && count <= srcBuf.Length
    modifies package`pos, package`shorts, dest`pos, dest`shorts, srcBuf, destBuf
    ensures var from := StartOf(fileOffset, old(package.pos));
            && (ok ==> Has(package.data, from, count) && srcBuf[..count] == Available(package.data, from, count)
                       && package.pos == from + count)
            && (!ok && package.steady && dest.steady ==>
                  !Has(package.data, from, count)
                  || |Available(dest.data, old(dest.pos), COMPARE_BUFFER_SIZE)| != COMPARE_BUFFER_SIZE)
    ensures ok ==> destBuf[..] == Available(dest.data, old(dest.pos), COMPARE_BUFFER_SIZE)
    ensures ok ==> dest.pos == old(dest.pos) + COMPARE_BUFFER_SIZE
  {
    hide *;
    var r := ReadFile(package, fileOffset, srcBuf, count);
    if r != 0 {
      return false;
    }
    ghost var pos := dest.pos;
    var got := dest.Read(COMPARE_BUFFER_SIZE);
    ok := |got| == COMPARE_BUFFER_SIZE;
    if ok {
      WholePrefix(got, Available(dest.data, pos, COMPARE_BUFFER_SIZE));
      WholeBuffer(destBuf[..], got);
      CopyInto(destBuf, 0, got);
    }
  }

  lemma WholePrefix(got: seq<byte>, all: seq<byte>)
    requires got <= all && |all| <= |got|
    ensures got == all
  {}

  lemma WholeBuffer(was: seq<byte>, got: seq<byte>)
    requires |was| == |got|
    ensures Stored(was, 0, got) == got
  {}

  /** Compares the two buffers: equal over the chunk, or the source differs from the partition. */
  method SameChunkBytes(srcBuf: array<byte>, destBuf: array<byte>, count: nat, ghost source: seq<byte>,
                        ghost got: seq<byte>, ghost more: seq<byte>, ghost rest: seq<byte>, ghost d: seq<byte>,
                        ghost at: nat)
    returns (same: bool)
    requires count <= srcBuf.Length && count <= COMPARE_BUFFER_SIZE == destBuf.Length && |more| == count
    requires srcBuf[..count] == more && destBuf[..] == Available(d, at + |got|, COMPARE_BUFFER_SIZE)
    requires source == got + (more + rest) && at + |got| + COMPARE_BUFFER_SIZE <= |d|
    ensures same ==> more == Available(d, at + |got|, COMPARE_BUFFER_SIZE)[..|more|]
    ensures !same ==> Differs(source, d, at)
  {
    hide *;
    assert destBuf[..count] == destBuf[..][..count];
    var diff, index := MemCmp(srcBuf, destBuf, count);
    same := diff == 0;
    if !same {
      DifferenceFound(source, got, more, rest, d, at, index);
    }
  }

  /** Fills the buffers for one round: with the next bytes of both, or some of them are missing. */
  method NextChunks(package: Device, dest: Device, fileOffset: int, count: nat, srcBuf: array<byte>,
                    destBuf: array<byte>, ghost offset: int, ghost size: nat, ghost at: nat, ghost got: seq<byte>)
    returns (ok: bool, ghost more: seq<byte>)
    requires package != dest && srcBuf != destBuf && srcBuf.Length == destBuf.Length == COMPARE_BUFFER_SIZE
    requires |got| < size < 0x8000_0000 && -0x8000_0000 <= offset < 0x8000_0000 && dest.pos == at + |got|
    requires count == if size - |got| > COMPARE_BUFFER_SIZE then COMPARE_BUFFER_SIZE else size - |got|
    requires Comparing(package.data, offset, got, size, fileOffset, package.pos)
    modifies package`pos, package`shorts, dest`pos, dest`shorts, srcBuf, destBuf
    ensures more == Available(package.data, StartOf(fileOffset, old(package.pos)), count)
    ensures ok ==> 0 < |more| == count <= COMPARE_BUFFER_SIZE && srcBuf[..count] == more
    ensures ok ==> destBuf[..] == Available(dest.data, at + |got|, COMPARE_BUFFER_SIZE)
    ensures ok ==> dest.pos == at + |got| + COMPARE_BUFFER_SIZE <= |dest.data|
    ensures ok ==> ComparedSize(|got| + count) == |got| + COMPARE_BUFFER_SIZE
    ensures ok ==> Comparing(package.data, offset, got + more, size, Wrap(fileOffset + count), package.pos)
    ensures !ok && package.steady && dest.steady ==>
              !Readable(package.data, offset, size, COMPARE_BUFFER_SIZE) || !Comparable(dest.data, at, size)
  {
    ghost var p, d, from := package.data, dest.data, StartOf(fileOffset, package.pos);
    hide *;
    ComparingNext(p, offset, got, size, fileOffset, package.pos, count);
    ReadWhole(p, from, count);
    ReadWhole(d, at + |got|, COMPARE_BUFFER_SIZE);
    more := Available(p, from, count);
    ok := ReadChunks(package, dest, fileOffset, count, srcBuf, destBuf);
    if !ok && package.steady && dest.steady && Has(p, from, count) {
      ComparableNeeds(d, at, |got|, size);
    }
  }

  /** Compares one chunk with a whole read of the partition: 0, or -2 if a read failed, or -1 if they differ. */
  method CompareChunk(package: Device, dest: Device, fileOffset: int, count: nat, srcBuf: array<byte>,
                      destBuf: array<byte>, ghost offset: int, ghost size: nat, ghost at: nat, ghost got: seq<byte>)
    returns (ret: int, ghost more: seq<byte>)
    requires package != dest && srcBuf != destBuf && srcBuf.Length == destBuf.Length == COMPARE_BUFFER_SIZE
    requires |got| < size < 0x8000_0000 && -0x8000_0000 <= offset < 0x8000_0000 && dest.pos == at + |got|
    requires count == if size - |got| > COMPARE_BUFFER_SIZE then COMPARE_BUFFER_SIZE else size - |got|
    requires Comparing(package.data, offset, got, size, fileOffset, package.pos) && Agreed(got, dest.data, at)
    modifies package`pos, package`shorts, dest`pos, dest`shorts, srcBuf, destBuf
    ensures ret == 0 || ret == -1 || ret == -2
    ensures ret == 0 ==> |more| == count && dest.pos == at + |got| + COMPARE_BUFFER_SIZE
    ensures ret == 0 ==> Comparing(package.data, offset, got + more, size, Wrap(fileOffset + count), package.pos)
    ensures ret == 0 ==> Agreed(got + more, dest.data, at)
    ensures ret == -1 ==> Differs(Source(package.data, offset, size, COMPARE_BUFFER_SIZE), dest.data, at)
    ensures ret == -2 && package.steady && dest.steady ==>
              !Readable(package.data, offset, size, COMPARE_BUFFER_SIZE) || !Comparable(dest.data, at, size)
  {
    ghost var source := Source(package.data, offset, size, COMPARE_BUFFER_SIZE);
    hide *;
    ghost var rest := SourceGoesOn(package.data, offset, got, size, fileOffset, package.pos, count);
    var ok;
    ok, more := NextChunks(package, dest, fileOffset, count, srcBuf, destBuf, offset, size, at, got);
    if !ok {
      return -2, more;
    }
    var same := SameChunkBytes(srcBuf, destBuf, count, source, got, more, rest, dest.data, at);
    if !same {
      return -1, more;
    }
    AgreedNext(got, more, dest.data, at);
    ret := 0;
  }

  /** Compares a whole item with its partition. The remaining target size is never counted down. */
  method CompareItem(package: Device, offset: int, size: int, dest: Device, isParameter: bool, woffset: nat)
    returns (ret: int)
    requires package != dest && -0x8000_0000 <= offset < 0x8000_0000 && size < 0x8000_0000
    modifies package`pos, package`shorts, dest`pos, dest`shorts
    ensures ret == 0 || ret == -1 || ret == -2
    ensures var total := Count(size); var source := Source(package.data, offset, total, COMPARE_BUFFER_SIZE);
            && (ret == 0 ==>
                  Readable(package.data, offset, total, COMPARE_BUFFER_SIZE) && Comparable(dest.data, woffset, total)
                  && Holds(dest.data, woffset, source))
            && (ret == -1 ==> Differs(source, dest.data, woffset))
            && (ret == -2 && package.steady && dest.steady ==>
                  !Readable(package.data, offset, total, COMPARE_BUFFER_SIZE) || !Comparable(dest.data, woffset, total))
  {
    package.Seek(0);
    if offset >= 0 {
      package.Seek(offset);
    }
    dest.Seek(woffset);
    var srcBuf, destBuf := new byte[COMPARE_BUFFER_SIZE], new byte[COMPARE_BUFFER_SIZE];
    var srcRemain, fileOffset, destRemain := size, offset, if isParameter then BLOCK else size;
    ghost var p, d, total, got := package.data, dest.data, Count(size), [];
    ComparingStart(p, offset, total, package.pos);
    assert Agreed(got, d, woffset) && total == (if size > 0 then size else 0) && (srcRemain > 0 ==> destRemain > 0);
    hide *;
    while srcRemain > 0 && destRemain > 0
      invariant srcRemain == size - |got| && |got| <= total && (srcRemain > 0 ==> destRemain > 0)
      invariant package.data == p && dest.data == d
      invariant srcRemain > 0 ==> dest.pos == woffset + |got|
      invariant Comparing(p, offset, got, total, fileOffset, package.pos) && Agreed(got, d, woffset)
      decreases srcRemain
    {
      var count := if srcRemain > COMPARE_BUFFER_SIZE then COMPARE_BUFFER_SIZE else srcRemain;
      var r, more := CompareChunk(package, dest, fileOffset, count, srcBuf, destBuf, offset, total, woffset, got);
      if r != 0 {
        return r;
      }
      srcRemain, fileOffset, got := srcRemain - count, Wrap(fileOffset + count), got + more;
    }
    ComparingSays(p, offset, got, total, fileOffset, package.pos);
    HalfwayEnd(p, offset, got, total, COMPARE_BUFFER_SIZE);
    AgreedHolds(got, d, woffset);
    ret := 0;
  }

  // ----- When success means that an item is installed ---------------------------------------------------

  lemma PaddedWithin(n: nat)
    ensures PaddedSize(n) <= ComparedSize(n)
  {
    var r := n % COMPARE_BUFFER_SIZE;
    var a, b := r / BLOCK, r % BLOCK;
    Remainders(n);
    assert r == BLOCK * a + b && a < 64 && n % BLOCK == b;
  }

  /** The comparison buffer is 64 blocks. */
  lemma Remainders(n: nat)
    ensures n % COMPARE_BUFFER_SIZE % BLOCK == n % BLOCK && n % COMPARE_BUFFER_SIZE / BLOCK < 64
  {
    var q, r := n / COMPARE_BUFFER_SIZE, n % COMPARE_BUFFER_SIZE;
    var a, b := r / BLOCK, r % BLOCK;
    InBlock(n, 64 * q + a, b);
  }

  lemma InBlock(n: nat, q: nat, r: nat)
    requires n == BLOCK * q + r && r < BLOCK
    ensures n % BLOCK == r
  {}

  /** A comparison reads at least as far as the write that precedes it wrote. */
  lemma ComparableFits(d: seq<byte>, at: nat, size: nat)
    requires Comparable(d, at, size)
    ensures Fits(d, at, size, false)
  {
    PaddedWithin(size);
  }

  /** All bytes of an item are in the package and at the start of the partition. */
  predicate OnPartition(p: seq<byte>, item: Item, d: seq<byte>): (there: bool)
    ensures there <==> item.size == 0
                       || (item.offset + item.size <= |p| && item.size <= |d|
                           && p[item.offset..item.offset + item.size] == d[..item.size])
  {
    Has(p, item.offset, item.size) && Holds(d, 0, ItemBytes(p, item))
  }

  /** When writing and comparing both succeed on devices that do what they are asked for. */
  predicate Passes(p: seq<byte>, offset: int, size: int, d: seq<byte>) {
    var total := Count(size);
    && Readable(p, offset, total, BLOCK) && Readable(p, offset, total, COMPARE_BUFFER_SIZE) && Comparable(d, 0, total)
    && Source(p, offset, total, BLOCK) == Source(p, offset, total, COMPARE_BUFFER_SIZE)
  }

  /**
   The header fields for which the int counters are right: a size below 2 GiB, and if there is one, such an offset.
   */
  predicate Trusted(item: Item) { item.size < 0x8000_0000 && (item.size == 0 || item.offset < 0x8000_0000) }

  lemma TrustedSource(p: seq<byte>, item: Item, step: nat)
    requires Trusted(item) && step > 0
    ensures Readable(p, AsInt(item.offset), Count(AsInt(item.size)), step) <==> Has(p, item.offset, item.size)
    ensures Has(p, item.offset, item.size) ==>
              Source(p, AsInt(item.offset), Count(AsInt(item.size)), step) == ItemBytes(p, item)
  {
    if item.size > 0 {
      SourceIsPlain(p, item.offset, 0, item.size, step);
    }
  }

  /**
   Below 2 GiB an item passes exactly if the package has all of it and the partition is large enough for whole MiB
   reads.
   */
  lemma TrustedPasses(p: seq<byte>, item: Item, d: seq<byte>)
    requires Trusted(item)
    ensures Passes(p, AsInt(item.offset), AsInt(item.size), d)
        <==> Has(p, item.offset, item.size) && Comparable(d, 0, item.size)
  {
    TrustedSource(p, item, BLOCK);
    TrustedSource(p, item, COMPARE_BUFFER_SIZE);
    hide Source, Readable, ItemBytes, Has;
  }

  /** Whatever package and partition, passing leaves the item on the partition. */
  ghost predicate Reliable(item: Item) {
    forall p, d :: Passes(p, AsInt(item.offset), AsInt(item.size), d) ==>
      OnPartition(p, item, Written(d, 0, Source(p, AsInt(item.offset), Count(AsInt(item.size)), BLOCK), false))
  }

  lemma {:induction false} SourceOfZeros(n: nat, offset: int, done: nat, size: nat, step: nat)
    requires step > 0 && offset < 0 && done <= size <= n
    ensures AllFrom(ZeroBytes(n), offset, done, size, step)
    ensures |From(ZeroBytes(n), offset, done, size, step)| == size - done
    ensures forall b :: b in From(ZeroBytes(n), offset, done, size, step) ==> b == 0
    decreases size - done
  {
    if done < size {
      var c := ChunkSize(done, size, step);
      SourceOfZeros(n, offset, done + c, size, step);
      FirstChunk(ZeroBytes(n), offset, done, size, step);
      ZerosThere(n, At(offset, done), c);
      hide From, AllFrom, Available, Has, ZeroBytes;
    }
  }

  lemma ZerosThere(n: nat, o: nat, k: nat)
    requires o + k <= n
    ensures Has(ZeroBytes(n), o, k) && |Available(ZeroBytes(n), o, k)| == k
    ensures forall b :: b in Available(ZeroBytes(n), o, k) ==> b == 0
  {}

  lemma SameZeros(a: seq<byte>, b: seq<byte>)
    requires |a| == |b| && (forall x :: x in a ==> x == 0) && (forall x :: x in b ==> x == 0)
    ensures a == b
  {
    assert forall i :: 0 <= i < |a| ==> a[i] in a && b[i] in b;
  }

  /** With a negative offset, a package of `size` zeros passes although the item lies behind its end. */
  lemma NegativeOffsetPasses(size: nat, offset: int)
    requires offset < 0 < size
    ensures Passes(ZeroBytes(size), offset, size, ZeroBytes(ComparedSize(size)))
  {
    SourceOfZeros(size, offset, 0, size, BLOCK);
    SourceOfZeros(size, offset, 0, size, COMPARE_BUFFER_SIZE);
    SameZeros(Source(ZeroBytes(size), offset, size, BLOCK), Source(ZeroBytes(size), offset, size, COMPARE_BUFFER_SIZE));
    hide From, AllFrom, ZeroBytes, ComparedSize;
  }

  /** With a size from 2 GiB on nothing is written or compared, and everything passes. */
  lemma NegativeSizePasses(p: seq<byte>, offset: int, size: int, d: seq<byte>)
    requires size <= 0
    ensures Passes(p, offset, size, d)
  {}

  /** Success means that an item is installed exactly for header fields below 2 GiB. */
  lemma TrustedExactly(item: Item)
    ensures Trusted(item) <==> Reliable(item)
  {
    if Trusted(item) {
      forall p, d | Passes(p, AsInt(item.offset), AsInt(item.size), d)
        ensures OnPartition(p, item, Written(d, 0, Source(p, AsInt(item.offset), Count(AsInt(item.size)), BLOCK),
                                             false))
      {
        TrustedWritten(p, item, d);
      }
    } else if item.size >= 0x8000_0000 {
      NegativeSizePasses([], AsInt(item.offset), AsInt(item.size), []);
      hide Passes;
      assert !OnPartition([], item, Written([], 0, Source([], AsInt(item.offset), Count(AsInt(item.size)), BLOCK),
                                            false));
    } else {
      var p, d := ZeroBytes(item.size), ZeroBytes(ComparedSize(item.size));
      NegativeOffsetPasses(item.size, AsInt(item.offset));
      hide Passes;
      assert !OnPartition(p, item, Written(d, 0, Source(p, AsInt(item.offset), Count(AsInt(item.size)), BLOCK), false));
    }
  }

  lemma TrustedWritten(p: seq<byte>, item: Item, d: seq<byte>)
    requires Trusted(item) && Passes(p, AsInt(item.offset), AsInt(item.size), d)
    ensures OnPartition(p, item, Written(d, 0, Source(p, AsInt(item.offset), Count(AsInt(item.size)), BLOCK), false))
  {
    TrustedPasses(p, item, d);
    TrustedSource(p, item, BLOCK);
    ComparableFits(d, 0, item.size);
    ReadWhole(p, item.offset, item.size);
    hide Source, Has, Fits, Comparable, Written;
    WrittenHolds(d, 0, ItemBytes(p, item));
  }

  /** The first item of a name, if the package has one, is on a partition, or its fields are not to be trusted. */
  ghost predicate Installed(items: seq<Item>, p: seq<byte>, name: string, d: seq<byte>) {
    forall k :: IsFirst(items, name, k) && Trusted(items[k]) ==> OnPartition(p, items[k], d)
  }

  lemma {:induction false} FromSize(p: seq<byte>, offset: int, done: nat, size: nat, step: nat)
    requires step > 0 && done <= size && AllFrom(p, offset, done, size, step)
    ensures |From(p, offset, done, size, step)| == size - done
    decreases size - done
  {
    if done < size {
      var n := ChunkSize(done, size, step);
      FirstChunk(p, offset, done, size, step);
      ReadWhole(p, At(offset, done), n);
      hide From, AllFrom, Available, Has;
      FromSize(p, offset, done + n, size, step);
    }
  }

  lemma SourceSize(p: seq<byte>, offset: int, size: nat, step: nat)
    requires step > 0
    ensures Readable(p, offset, size, step) ==> |Source(p, offset, size, step)| == size
  {
    if Readable(p, offset, size, step) {
      FromSize(p, offset, 0, size, step);
    }
  }

  class Installer {
    const package: Device
    var items: seq<Item>

    constructor (package: Device, items: seq<Item>)
      ensures this.package == package && this.items == items
    {
      this.package, this.items := package, items;
    }

    method WriteImage(src: string, dest: Device, isParameter: bool, woffset: nat) returns (ret: int)
      requires dest != package
      modifies package`pos, package`shorts, dest`data, dest`pos
      ensures ret == -4 <==> Lookup(items, src) == None
      ensures ret == -4 || ret == -2 ==> dest.data == old(dest.data)
      ensures ret != -4 ==>
                var item := Lookup(items, src).value;
                var offset, total := AsInt(item.offset), Count(AsInt(item.size));
                var needed := Needed(total, isParameter);
                && (!isParameter ==> SameElsewhere(old(dest.data), dest.data, woffset, PaddedSize(total)))
                && (ret == 0 ==>
                      Readable(package.data, offset, needed, BLOCK) && Fits(dest.data, woffset, needed, isParameter))
                && (ret == 0 && dest.faithful ==>
                      dest.data == Written(old(dest.data), woffset, Source(package.data, offset, needed, BLOCK),
                                           isParameter))
                && (package.steady && dest.steady && Readable(package.data, offset, needed, BLOCK) ==>
                      Fits(dest.data, woffset, needed, isParameter) ==> ret == 0)
    {
      var found := FindItem(items, src);
      if found == None {
        return -4;
      }
      ret := CopyItem(package, AsInt(found.value.offset), AsInt(found.value.size), dest, isParameter, woffset);
    }

    method ImageCompare(src: string, dest: Device, isParameter: bool, woffset: nat) returns (ret: int)
      requires dest != package
      modifies package`pos, package`shorts, dest`pos, dest`shorts
      ensures ret == -4 <==> Lookup(items, src) == None
      ensures ret == -4 || ret == -2 || ret == -1 || ret == 0
      ensures ret != -4 ==>
                var item := Lookup(items, src).value;
                var offset, total := AsInt(item.offset), Count(AsInt(item.size));
                var source := Source(package.data, offset, total, COMPARE_BUFFER_SIZE);
                && (ret == 0 ==>
                      Readable(package.data, offset, total, COMPARE_BUFFER_SIZE)
                      && Comparable(dest.data, woffset, total) && Holds(dest.data, woffset, source))
                && (ret == -1 ==> Differs(source, dest.data, woffset) && !Holds(dest.data, woffset, source))
                && (package.steady && dest.steady && Readable(package.data, offset, total, COMPARE_BUFFER_SIZE) ==>
                      Comparable(dest.data, woffset, total) ==> (ret == 0 <==> Holds(dest.data, woffset, source)))
    {
      var found := FindItem(items, src);
      if found == None {
        return -4;
      }
      ret := CompareItem(package, AsInt(found.value.offset), AsInt(found.value.size), dest, isParameter, woffset);
      if ret == -1 {
        DifferenceRefutes(Source(package.data, AsInt(found.value.offset), Count(AsInt(found.value.size)),
                                 COMPARE_BUFFER_SIZE),
                          dest.data, woffset);
      }
    }

    /** Writes an item at the start of its partition and checks it. */
    method Update(src: string, dest: Device) returns (ret: int)
      requires dest != package
      modifies package`pos, package`shorts, dest`data, dest`pos, dest`shorts
      ensures ret == -4 <==> Lookup(items, src) == None
      ensures ret == -4 ==> dest.data == old(dest.data)
      ensures ret == 0 ==> Installed(items, package.data, src, dest.data)
      ensures ret != -4 ==>
                var item := Lookup(items, src).value;
                && SameElsewhere(old(dest.data), dest.data, 0, PaddedSize(Count(AsInt(item.size))))
                && (package.steady && dest.steady && dest.faithful ==>
                      (ret == 0 <==> Passes(package.data, AsInt(item.offset), AsInt(item.size), old(dest.data))))
    {
      ret := WriteImage(src, dest, false, 0);
      if ret != -4 {
        ghost var item := Lookup(items, src).value;
        ghost var total := Count(AsInt(item.size));
        assert |dest.data| == |old(dest.data)|;
        NeededWhole(total);
        if Comparable(dest.data, 0, total) {
          ComparableFits(dest.data, 0, total);
        }
        if ret == 0 {
          ghost var source := Source(package.data, AsInt(item.offset), total, BLOCK);
          SourceSize(package.data, AsInt(item.offset), total, BLOCK);
          SourceSize(package.data, AsInt(item.offset), total, COMPARE_BUFFER_SIZE);
          WrittenHolds(old(dest.data), 0, source);
          ret := ImageCompare(src, dest, false, 0);
          if Trusted(item) {
            TrustedSource(package.data, item, COMPARE_BUFFER_SIZE);
          }
        }
      }
    }

    /** The external file-system check may rewrite the partition, and may fail. */
    method CheckAndResize(dest: Device) returns (ret: int)
      requires dest != package
      modifies dest`data
      ensures |dest.data| == |old(dest.data)|
    {
      ret := *;
      var rewritten: seq<byte> := *;
      if |rewritten| == |dest.data| {
        dest.data := rewritten;
      }
    }

    /**
     The sequence of partitions: boot and system if the package has them, backup if it has one, and always
     recovery. No partition is touched before the earlier ones have passed their check. What the system
     partition held when it passed is `checkedSystem`; the file-system check that follows may rewrite it.
     */
    method Install(boot: Device, system: Device, backup: Device, recovery: Device)
      returns (ret: int, ghost checkedSystem: seq<byte>)
      requires package !in {boot, system, backup, recovery} && boot !in {system, backup, recovery}
      requires system !in {backup, recovery} && backup != recovery
      modifies package`pos, package`shorts, boot`data, boot`pos, boot`shorts, system`data, system`pos, system`shorts
      modifies backup`data, backup`pos, backup`shorts, recovery`data, recovery`pos, recovery`shorts
      ensures ret == 0 || ret == -1
      ensures ret == 0 ==>
                && Installed(items, package.data, "boot", boot.data)
                && Installed(items, package.data, "system", checkedSystem)
                && Installed(items, package.data, "backup", backup.data)
                && Installed(items, package.data, "recovery", recovery.data)
      ensures ret == 0 ==> Lookup(items, "recovery").Some?
      ensures Lookup(items, "system") == None ==> checkedSystem == system.data == old(system.data)
      ensures system.data != old(system.data) ==> Installed(items, package.data, "boot", boot.data)
      ensures backup.data != old(backup.data) ==>
                Installed(items, package.data, "boot", boot.data)
                    && Installed(items, package.data, "system", checkedSystem)
      ensures recovery.data != old(recovery.data) ==>
                Installed(items, package.data, "boot", boot.data)
                    && Installed(items, package.data, "system", checkedSystem)
                && Installed(items, package.data, "backup", backup.data)
    {
      checkedSystem := system.data;
      var r := Update("boot", boot);
      if r != 0 && r != -4 {
        return -1, checkedSystem;
      }
      r := Update("system", system);
      checkedSystem := system.data;
      if r == 0 {
        r := CheckAndResize(system);
        if r != 0 {
          return -1, checkedSystem;
        }
      } else if r != -4 {
        return -1, checkedSystem;
      }
      var found := FindItem(items, "backup");
      if found != None {
        r := Update("backup", backup);
        if r != 0 {
          return -1, checkedSystem;
        }
      }
      r := Update("recovery", recovery);
      if r != 0 {
        return -1, checkedSystem;
      }
      ret := 0;
    }
  }
}
