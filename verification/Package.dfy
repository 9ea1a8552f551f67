/**
 The file-level checks of a signed update package: the end-of-central-directory record (section 4.3.16 of the
 PKWARE ZIP application note) must be the last one in the file, and the digest covers everything up to the
 archive comment's length.
 */
module Package {
  import opened Arithmetic
  import opened Bytes

  const FOOTER_SIZE := 6
  const EOCD_HEADER_SIZE := 22

  predicate MarkerAt(b: seq<byte>, i: int) {
    0 <= i && i + 4 <= |b| && b[i] == 0x50 && b[i + 1] == 0x4b && b[i + 2] == 0x05 && b[i + 3] == 0x06
  }

  /** Two bytes, low byte first. */
  function Half(low: byte, high: byte): nat { (low as nat) + 0x100 * (high as nat) }

  datatype Verdict = TooShort | NoFooter | BadFooter | SecondMarker | Accepted

  /** The comment's length as the last two bytes of the file give it. */
  function CommentSize(file: seq<byte>): (size: nat)
    requires |file| >= FOOTER_SIZE
    ensures size % 0x100 == file[|file| - 2] && size / 0x100 == file[|file| - 1]
  {
    Half(file[|file| - 2], file[|file| - 1])
  }

  /** Where the end-of-central-directory record is looked for. */
  function RecordStart(file: seq<byte>): int
    requires |file| >= FOOTER_SIZE
  {
    |file| - (CommentSize(file) + EOCD_HEADER_SIZE)
  }

  /** What a reader finds that scans the file backwards for the marker. */
  function LastMarker(file: seq<byte>, below: nat): (i: int)
    requires below <= |file|
    ensures -1 <= i < below
    ensures i >= 0 ==> MarkerAt(file, i)
    ensures forall k :: i < k < below ==> !MarkerAt(file, k)
  {
    if below == 0 then -1 else if MarkerAt(file, below - 1) then below - 1 else LastMarker(file, below - 1)
  }

  predicate HasFooter(file: seq<byte>) { |file| >= FOOTER_SIZE && file[|file| - 4] == file[|file| - 3] == 0xff }

  /** The footer is there, and it points at the record that a backward scan finds. */
  predicate Accepts(file: seq<byte>) {
    HasFooter(file) && 0 <= RecordStart(file) == LastMarker(file, |file|)
  }

  predicate SignatureAt(file: seq<byte>, k: int) {
    0 <= k && k + 4 <= |file| && file[k..k + 4] == [0x50, 0x4b, 0x05, 0x06]
  }

  /**
   The footer is marked, the 22 bytes before the comment, whose length is in the file's last two bytes, start with the
   record's signature, and no later place has it.
   */
  ghost predicate EndsWithRecord(file: seq<byte>) {
    |file| >= 22 && file[|file| - 4] == 0xff && file[|file| - 3] == 0xff &&
    var start := |file| - 22 - ((file[|file| - 2] as nat) + 0x100 * (file[|file| - 1] as nat));
    SignatureAt(file, start) && forall k :: start < k < |file| ==> !SignatureAt(file, k)
  }

  lemma AcceptsMeans(file: seq<byte>)
    ensures Accepts(file) <==> EndsWithRecord(file)
  {
    forall k ensures MarkerAt(file, k) <==> SignatureAt(file, k) {
      MarkerSignature(file, k);
    }
    hide MarkerAt;
    assert HasFooter(file) ==> |file| - RecordStart(file) >= 22;
    assert HasFooter(file) && SignatureAt(file, RecordStart(file)) ==> |file| >= 22;
    hide SignatureAt, LastMarker;
  }

  lemma MarkerSignature(file: seq<byte>, k: int)
    ensures MarkerAt(file, k) <==> SignatureAt(file, k)
  {}

  /** A scan from the fifth byte suffices: the marker cannot overlap itself. */
  lemma NoMarkerAfter(file: seq<byte>, start: nat, eocd: seq<byte>)
    requires start < |file| && eocd == file[start..] && MarkerAt(eocd, 0)
    requires forall k :: 4 <= k < |eocd| - 3 ==> !MarkerAt(eocd, k)
    ensures LastMarker(file, |file|) == start
  {
    assert MarkerAt(file, start);
    assert eocd[1] != 0x50 && eocd[2] != 0x50 && eocd[3] != 0x50;
    assert forall k :: 0 < k ==> !MarkerAt(eocd, k);
    assert forall i :: start < i && MarkerAt(file, i) ==> MarkerAt(eocd, i - start);
  }

  /** The footer checks of a package, which throw at the first one that fails. */
  method CheckFooter(file: seq<byte>) returns (v: Verdict)
    ensures v == Accepted <==> Accepts(file)
    ensures v == Accepted <==> EndsWithRecord(file)
    ensures v == NoFooter <==> |file| >= 6 && !HasFooter(file)
    ensures v == TooShort <==> |file| < 6 || (HasFooter(file) && RecordStart(file) < 0)
    ensures v == BadFooter <==> HasFooter(file) && RecordStart(file) >= 0 && !MarkerAt(file, RecordStart(file))
  {
    AcceptsMeans(file);
    hide EndsWithRecord;
    if |file| < FOOTER_SIZE {
      return TooShort;
    }
    var footer := file[|file| - FOOTER_SIZE..];
    if footer[2] != 0xff || footer[3] != 0xff {
      return NoFooter;
    }
    var commentSize := Half(footer[4], footer[5]);
    if |file| < commentSize + EOCD_HEADER_SIZE {
      return TooShort;
    }
    ghost var start := RecordStart(file);
    var eocd := file[|file| - (commentSize + EOCD_HEADER_SIZE)..];
    if !MarkerAt(eocd, 0) {
      return BadFooter;
    }
    assert MarkerAt(file, start);
    var i := 4;
    while i < |eocd| - 3
      invariant 4 <= i
      invariant forall k :: 4 <= k < i ==> !MarkerAt(eocd, k)
    {
      if MarkerAt(eocd, i) {
        assert MarkerAt(file, start + i);
        return SecondMarker;
      }
      i := i + 1;
    }
    NoMarkerAfter(file, start, eocd);
    v := Accepted;
  }

  // ----- The digest ---------------------------------------------------------------------------------------

  const READ_BUFFER := 4096

  /** What the signature covers: all but the archive comment and its two-byte length. */
  function Signed(file: seq<byte>): seq<byte>
    requires |file| >= FOOTER_SIZE && RecordStart(file) >= 0
  {
    file[..|file| - CommentSize(file) - 2]
  }

  /** Percentages that start at 0 and have strictly risen to the last one. */
  predicate Rising(ps: seq<int>, last: int) {
    && ps != [] && ps[0] == 0 && ps[|ps| - 1] == last
    && forall i, j :: 0 <= i < j < |ps| ==> ps[i] < ps[j]
  }

  lemma RisesOn(ps: seq<int>, last: int, p: int)
    requires Rising(ps, last) && last < p
    ensures Rising(ps + [p], p)
  {
    forall i, j | 0 <= i < j < |ps + [p]| ensures (ps + [p])[i] < (ps + [p])[j] {
      assert i < |ps| - 1 ==> ps[i] < ps[|ps| - 1];
    }
  }

  /**
   Feeds the signed part to the digest. Every read may be short, but delivers at least one byte; between reads
   the thread may be interrupted, and progress may be due. The listener hears a rising sequence and then 100.
   */
  method FeedDigest(file: seq<byte>) returns (digested: seq<byte>, interrupted: bool, progress: seq<int>)
    requires Accepts(file)
    ensures digested <= Signed(file) && (!interrupted ==> digested == Signed(file))
    ensures |progress| >= 2 && progress[|progress| - 1] == 100
    ensures progress[|progress| - 2] <= 100 && Rising(progress[..|progress| - 1], progress[|progress| - 2])
  {
    var toRead := |file| - CommentSize(file) - 2;
    var soFar, lastPercent := 0, 0;
    digested, interrupted, progress := [], false, [lastPercent];
    ghost var whole := Signed(file);
    hide CommentSize, RecordStart, LastMarker, MarkerAt;
    while soFar < toRead
      invariant 0 <= soFar <= toRead == |whole| && digested == whole[..soFar] && !interrupted
      invariant 0 <= lastPercent <= 100 && Rising(progress, lastPercent)
    {
      hide Rising;
      interrupted := *;
      if interrupted {
        break;
      }
      var size := if soFar + READ_BUFFER > toRead then toRead - soFar else READ_BUFFER;
      var read :| 1 <= read <= size;
      assert whole[..soFar + read] == whole[..soFar] + file[soFar..soFar + read];
      digested := digested + file[soFar..soFar + read];
      soFar := soFar + read;
      PercentIsSmall(soFar, toRead);
      var p := soFar * 100 / toRead;
      var due: bool := *;
      if p > lastPercent && due {
        RisesOn(progress, lastPercent, p);
        lastPercent := p;
        progress := progress + [lastPercent];
      }
    }
    assert (progress + [100])[..|progress|] == progress;
    progress := progress + [100];
  }

  lemma PercentIsSmall(soFar: nat, toRead: nat)
    requires soFar <= toRead && toRead > 0
    ensures 0 <= soFar * 100 / toRead <= 100
  {
    DivBelow(soFar * 100, toRead, 101);
  }

  /** The signature covers the whole archive: its record is the last one in the signed bytes too, and ends them. */
  lemma SignedKeepsTheRecord(file: seq<byte>)
    requires Accepts(file)
    ensures |Signed(file)| == RecordStart(file) + 20
    ensures LastMarker(Signed(file), |Signed(file)|) == RecordStart(file)
  {
    var signed, start := Signed(file), RecordStart(file);
    assert MarkerAt(signed, start);
    assert forall i :: start < i && MarkerAt(signed, i) ==> MarkerAt(file, i);
    hide CommentSize, RecordStart, MarkerAt;
    assert forall i :: start < i < |signed| ==> !MarkerAt(signed, i);
  }
}
