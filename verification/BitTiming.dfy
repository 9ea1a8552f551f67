/**
 CAN bit timing: the search for prescaler and segment lengths that approximate a requested bit rate, and
 the independent calculation that recovers the prescaler from the time quantum.
 */
module BitTiming {
  import opened Arithmetic
  import opened Bytes

  const CAN_CALC_MAX_ERROR := 50
  const NO_ERROR_YET := 1000000000
  const NO_SAMPLE_YET := 1000
  const NANOSECONDS := 1000000000

  /** What the controller allows. */
  datatype Limits = Limits(
    tseg1Min: u32, tseg1Max: u32, tseg2Min: u32, tseg2Max: u32, sjwMax: u32, brpMin: u32, brpMax: u32, brpInc: u32)

  /** A search: controller, clock in Hz, requested bit rate, and sample point in tenths of a percent (0: default). */
  datatype Input = Input(c: Limits, freq: u32, bitrate: u32, sample: u32) {
    function TsegMin(): nat { c.tseg1Min + c.tseg2Min }
    function TsegMax(): nat { c.tseg1Max + c.tseg2Max }

    function SamplePoint(): u32 {
      if sample != 0 then sample
      else if bitrate > 800000 then 750
      else if bitrate > 500000 then 800
      else 875
    }

    /** Inputs on which the code's machine arithmetic neither overflows nor divides by zero. */
    predicate Sane() {
      1 <= c.brpInc && 1 <= c.brpMin && 1 <= freq && 1 <= bitrate
      && c.tseg1Min <= c.tseg1Max && c.tseg2Min <= c.tseg2Max && 1 <= TsegMin()
      && SamplePoint() * (TsegMax() + 1) < 0x8000_0000 && 1000 * (TsegMax() + 1) < 0x8000_0000
      && (TsegMax() + 1) * bitrate < 0x1_0000_0000 && freq / bitrate + TsegMax() + 1 < 0x8000_0000
    }
  }

  function Abs(x: int): nat { if x < 0 then -x else x }

  // ----- One setting ---------------------------------------------------------------------------------

  function AsUnsigned(x: int): int { x % 0x1_0000_0000 }

  datatype Split = Split(tseg1: int, tseg2: int, sample: int)

  /**
   How a number of time quanta is split around the sample point, and the sample point that gives. The segments are
   ints, but the controller's limits are unsigned, and so is every comparison with them.
   */
  function UpdateSpt(c: Limits, sample: u32, tseg: nat): Split {
    var wanted := tseg + 1 - sample * (tseg + 1) / 1000;
    var atLeast := if AsUnsigned(wanted) < c.tseg2Min then c.tseg2Min else wanted;
    var tseg2 := if AsUnsigned(atLeast) > c.tseg2Max then c.tseg2Max else atLeast;
    var tseg1 := tseg - tseg2;
    if AsUnsigned(tseg1) > c.tseg1Max
    then Split(c.tseg1Max, tseg - c.tseg1Max, 1000 * (tseg + 1 - (tseg - c.tseg1Max)) / (tseg + 1))
    else Split(tseg1, tseg2, 1000 * (tseg + 1 - tseg2) / (tseg + 1))
  }

  /** The prescaler the code tries in round t: rounded down for even t, up for odd t, then to a legal step. */
  function Brp(i: Input, t: nat): int
    requires i.Sane()
  {
    Products(1, 1 + t / 2, 1, i.bitrate);
    LegalStep(i.freq / ((1 + t / 2) * i.bitrate) + t % 2, i.c.brpInc)
  }

  function LegalStep(brp: int, inc: u32): int
    requires inc > 0
  {
    brp / inc * inc
  }

  function RateOf(freq: u32, brp: int, tsegall: int): int
    requires brp > 0 && tsegall > 0
  {
    Products(1, brp, 1, tsegall);
    freq / (brp * tsegall)
  }

  predicate Legal(i: Input, t: nat)
    requires i.Sane()
  {
    i.c.brpMin <= Brp(i, t) <= i.c.brpMax
  }

  function Rate(i: Input, t: nat): int
    requires i.Sane() && Legal(i, t)
  {
    RateOf(i.freq, Brp(i, t), 1 + t / 2)
  }

  function Error(i: Input, t: nat): nat
    requires i.Sane() && Legal(i, t)
  {
    Abs(i.bitrate - Rate(i, t))
  }

  function SampleError(i: Input, t: nat): nat {
    Abs(i.SamplePoint() - UpdateSpt(i.c, i.SamplePoint(), t / 2).sample)
  }

  // ----- The search ------------------------------------------------------------------------------------

  /** The loop variables best_tseg, best_brp, best_rate, best_error and spt_error. */
  datatype Best = Best(tseg: nat, brp: int, rate: int, error: nat, sptError: nat)

  const NOTHING := Best(0, 0, 0, NO_ERROR_YET, NO_SAMPLE_YET)

  /** One round; the second result says whether the loop is left. */
  function Visit(i: Input, t: nat, b: Best): (Best, bool)
    requires i.Sane()
  {
    if !Legal(i, t) then (b, false)
    else if Error(i, t) > b.error then (b, false)
    else if Error(i, t) > 0 then (Best(t / 2, Brp(i, t), Rate(i, t), Error(i, t), b.sptError), false)
    else if SampleError(i, t) > b.sptError then (b.(error := 0), false)
    else (Best(t / 2, Brp(i, t), Rate(i, t), 0, SampleError(i, t)), SampleError(i, t) == 0)
  }

  function Scan(i: Input, t: int, b: Best): Best
    requires i.Sane()
    decreases t
  {
    if t < 2 * i.TsegMin() then b
    else var (next, stop) := Visit(i, t, b); if stop then next else Scan(i, t - 1, next)
  }

  /** The body of the search loop; `stop` is the break. */
  method VisitRound(i: Input, tseg: nat, b: Best) returns (next: Best, stop: bool)
    requires i.Sane()
    ensures (next, stop) == Visit(i, tseg, b)
  {
    hide UpdateSpt;
    next, stop := b, false;
    var tsegall := 1 + tseg / 2;
    var brp := i.freq / (tsegall * i.bitrate) + tseg % 2;
    brp := LegalStep(brp, i.c.brpInc);
    assert brp == Brp(i, tseg);
    hide Brp, LegalStep;
    if brp < i.c.brpMin || brp > i.c.brpMax {
      return;
    }
    assert brp * tsegall > 0 by { Products(1, brp, 1, tsegall); }
    var rate := i.freq / (brp * tsegall);
    var error := i.bitrate - rate;
    if error < 0 {
      error := -error;
    }
    if error > b.error {
      return;
    }
    next := next.(error := error);
    if error == 0 {
      var split := UpdateSpt(i.c, i.SamplePoint(), tseg / 2);
      error := i.SamplePoint() - split.sample;
      if error < 0 {
        error := -error;
      }
      if error > b.sptError {
        return;
      }
      next := next.(sptError := error);
    }
    next := next.(tseg := tseg / 2, brp := brp, rate := rate);
    stop := error == 0;
  }

  method Search(i: Input) returns (b: Best)
    requires i.Sane()
    ensures b == Scan(i, 2 * i.TsegMax() + 1, NOTHING)
  {
    hide Visit;
    b := NOTHING;
    var tseg := (i.c.tseg1Max + i.c.tseg2Max) * 2 + 1;
    while tseg >= (i.c.tseg1Min + i.c.tseg2Min) * 2
      invariant tseg >= 2 * i.TsegMin() - 1
      invariant Scan(i, tseg, b) == Scan(i, 2 * i.TsegMax() + 1, NOTHING)
      decreases tseg
    {
      var stop;
      b, stop := VisitRound(i, tseg, b);
      if stop {
        break;
      }
      tseg := tseg - 1;
    }
  }

  // ----- Where the sample point can be placed ---------------------------------------------------------

  /**
   The sample point leaves at least one quantum before it and does not lie behind the bit, or the second segment is
   too short to swallow the whole bit, or the first one is. Otherwise tseg1 becomes negative, which is compared as an
   unsigned number, and the second segment falls below its limit.
   */
  predicate Splittable(i: Input, tseg: nat) {
    1 <= i.SamplePoint() * (tseg + 1) / 1000 <= tseg + 1
    || i.c.tseg2Max <= tseg || i.c.tseg1Max + i.c.tseg2Min <= tseg
  }

  /** The split adds up, and its segments respect the controller exactly if the bit is splittable. */
  lemma SplitFits(i: Input, tseg: nat)
    requires i.Sane() && i.TsegMin() <= tseg <= i.TsegMax()
    ensures var s := UpdateSpt(i.c, i.SamplePoint(), tseg);
            && s.tseg1 + s.tseg2 == tseg && 0 <= s.tseg1 <= i.c.tseg1Max
            && (i.c.tseg2Min <= s.tseg2 <= i.c.tseg2Max <==> Splittable(i, tseg)) && s.tseg2 <= i.c.tseg2Max
            && (!Splittable(i, tseg) ==> s.tseg1 == i.c.tseg1Max)
            && s.sample == 1000 * (s.tseg1 + 1) / (tseg + 1) >= 0 && (Splittable(i, tseg) ==> s.sample <= 1000)
  {
    var share := i.SamplePoint() * (tseg + 1);
    Products(i.SamplePoint(), i.SamplePoint(), tseg + 1, i.TsegMax() + 1);
    Thousandth(share);
    Segments(i.c, i.SamplePoint(), tseg, share / 1000);
    SplitSample(i.c, i.SamplePoint(), tseg);
    hide UpdateSpt;
    var s := UpdateSpt(i.c, i.SamplePoint(), tseg);
    if i.c.tseg2Min <= s.tseg2 {
      Fraction(s.tseg1 + 1, tseg + 1);
    } else {
      DivAbove(1000 * (s.tseg1 + 1), tseg + 1, 0);
    }
  }

  lemma Thousandth(share: nat)
    ensures 0 <= share / 1000 <= share
  {}

  lemma SplitSample(c: Limits, sample: u32, tseg: nat)
    ensures var s := UpdateSpt(c, sample, tseg);
            s.tseg1 + s.tseg2 == tseg && s.sample == 1000 * (s.tseg1 + 1) / (tseg + 1)
  {
    var s := UpdateSpt(c, sample, tseg);
    assert tseg + 1 - s.tseg2 == s.tseg1 + 1;
  }

  lemma Segments(c: Limits, sample: u32, tseg: nat, early: nat)
    requires tseg < 0x8000_0000 && c.tseg1Max < 0x8000_0000 && early == sample * (tseg + 1) / 1000 < 0x8000_0000
    requires c.tseg1Min <= c.tseg1Max && c.tseg2Min <= c.tseg2Max < 0x8000_0000
    requires c.tseg1Min + c.tseg2Min <= tseg <= c.tseg1Max + c.tseg2Max
    ensures var s := UpdateSpt(c, sample, tseg);
            && s.tseg1 + s.tseg2 == tseg && 0 <= s.tseg1 <= c.tseg1Max && s.tseg2 <= c.tseg2Max
            && (c.tseg2Min <= s.tseg2
                <==> 1 <= early <= tseg + 1 || c.tseg2Max <= tseg || c.tseg1Max + c.tseg2Min <= tseg)
            && (c.tseg2Min <= s.tseg2 || s.tseg1 == c.tseg1Max)
  {
    var wanted := tseg + 1 - early;
    IntAsUnsigned(wanted);
    IntAsUnsigned(tseg - c.tseg2Max);
    IntAsUnsigned(tseg - c.tseg2Min);
    IntAsUnsigned(tseg - wanted);
    IntAsUnsigned(c.tseg2Min);
    hide AsUnsigned;
  }

  lemma IntAsUnsigned(x: int)
    requires -0x8000_0000 <= x < 0x1_0000_0000
    ensures AsUnsigned(x) == if x < 0 then x + 0x1_0000_0000 else x
  {}

  /** A split of the bit that the controller has. */
  predicate HasSplit(c: Limits, tseg: nat, tseg1: int) {
    0 <= tseg1 <= c.tseg1Max && c.tseg2Min <= tseg - tseg1 <= c.tseg2Max
  }

  /**
   Where the sample point lands: of all splits the controller has, at the last one that is not behind the requested
   sample point, or if all are, at the first one. If the requested sample point is not within the bit behind its first
   quantum, it is the first split too, even from behind the bit; and if the second segment can be as long as the bit,
   the last one.
   */
  lemma SplitIsLatest(i: Input, tseg: nat, tseg1: int)
    requires i.Sane() && i.TsegMin() <= tseg <= i.TsegMax() && Splittable(i, tseg) && HasSplit(i.c, tseg, tseg1)
    ensures var s := UpdateSpt(i.c, i.SamplePoint(), tseg); var share := i.SamplePoint() * (tseg + 1);
            && HasSplit(i.c, tseg, s.tseg1)
            && if 1000 <= share < 1000 * (tseg + 2) then
                 (1000 * (tseg1 + 1) <= share ==> tseg1 <= s.tseg1)
                 && (1000 * (s.tseg1 + 1) <= share || s.tseg1 <= tseg1)
               else if i.c.tseg2Max <= tseg then s.tseg1 <= tseg1 else tseg1 <= s.tseg1
  {
    SplitFits(i, tseg);
    var sample := i.SamplePoint();
    Products(sample, sample, tseg + 1, i.TsegMax() + 1);
    var early, r := Floor(sample * (tseg + 1), 1000);
    SplitClamps(i.c, sample, tseg, early, tseg1);
    hide UpdateSpt, Splittable;
  }

  lemma SplitClamps(c: Limits, sample: u32, tseg: nat, early: nat, tseg1: int)
    requires tseg < 0x8000_0000 && c.tseg1Max < 0x8000_0000 && early == sample * (tseg + 1) / 1000 < 0x8000_0000
    requires c.tseg1Min <= c.tseg1Max && c.tseg2Min <= c.tseg2Max < 0x8000_0000
    requires c.tseg1Min + c.tseg2Min <= tseg <= c.tseg1Max + c.tseg2Max && HasSplit(c, tseg, tseg1)
    requires 1 <= early <= tseg + 1 || c.tseg2Max <= tseg || c.tseg1Max + c.tseg2Min <= tseg
    ensures var s := UpdateSpt(c, sample, tseg);
            if 1 <= early <= tseg + 1 then
              (tseg1 + 1 <= early ==> tseg1 <= s.tseg1) && (s.tseg1 + 1 <= early || s.tseg1 <= tseg1)
            else if c.tseg2Max <= tseg then s.tseg1 <= tseg1 else tseg1 <= s.tseg1
  {
    ClampedSegment(c, sample, tseg, early);
    hide UpdateSpt;
  }

  /** The clamping with signed comparisons only. */
  lemma ClampedSegment(c: Limits, sample: u32, tseg: nat, early: nat)
    requires tseg < 0x8000_0000 && c.tseg1Max < 0x8000_0000 && early == sample * (tseg + 1) / 1000 < 0x8000_0000
    requires c.tseg2Min <= c.tseg2Max < 0x8000_0000
    ensures var wanted := tseg + 1 - early;
            var tseg2 := if wanted < 0 || wanted > c.tseg2Max then c.tseg2Max
                         else if wanted < c.tseg2Min then c.tseg2Min else wanted;
            UpdateSpt(c, sample, tseg).tseg1
            == if tseg < tseg2 || tseg - tseg2 > c.tseg1Max then c.tseg1Max else tseg - tseg2
  {
    var wanted := tseg + 1 - early;
    IntAsUnsigned(wanted);
    IntAsUnsigned(tseg - c.tseg2Max);
    IntAsUnsigned(tseg - c.tseg2Min);
    IntAsUnsigned(tseg - wanted);
    IntAsUnsigned(c.tseg2Min);
    hide AsUnsigned;
  }

  lemma Fraction(k: nat, n: nat)
    requires k <= n && n > 0
    ensures 0 <= 1000 * k / n <= 1000
  {
    DivBelow(1000 * k, n, 1001);
  }

  lemma DivAntitone(f: nat, x: nat, y: nat)
    requires 0 < x <= y
    ensures f / y <= f / x
  {
    var q := f / y;
    assert f == q * y + f % y;
    Products(q, q, x, y);
    DivAbove(f, x, q);
  }

  // ----- The search finds the least candidate ---------------------------------------------------------

  predicate Round(i: Input, t: int) { 2 * i.TsegMin() <= t <= 2 * i.TsegMax() + 1 }

  /** A candidate the search can accept: its best_error starts at a thousand million. */
  predicate Candidate(i: Input, t: int)
    requires i.Sane()
  {
    Round(i, t) && Legal(i, t) && Error(i, t) <= NO_ERROR_YET
  }

  /**
   Lexicographic order: bit-rate error first, then the sample point among exact rates. Rounds that are visited later
   win ties, unless nothing can be better: the loop is left at the first exact sample point. Later rounds are lower.
   */
  predicate NoWorse(i: Input, s: int, t: int)
    requires i.Sane() && Candidate(i, s) && Candidate(i, t)
  {
    Error(i, s) < Error(i, t)
    || (Error(i, s) == Error(i, t) && if Error(i, s) > 0 then s <= t else SampleNoWorse(i, s, t))
  }

  predicate SampleNoWorse(i: Input, s: int, t: int)
    requires s >= 0 && t >= 0
  {
    SampleError(i, s) < SampleError(i, t)
    || (SampleError(i, s) == SampleError(i, t) && if SampleError(i, s) > 0 then s <= t else s >= t)
  }

  function Stored(i: Input, s: int): Best
    requires i.Sane() && Candidate(i, s)
  {
    Best(s / 2, Brp(i, s), Rate(i, s), Error(i, s), if Error(i, s) == 0 then SampleError(i, s) else NO_SAMPLE_YET)
  }

  /** Round s is stored in b and is least among the rounds after t. */
  ghost predicate Leads(i: Input, s: int, t: int, b: Best)
    requires i.Sane()
  {
    t < s && Candidate(i, s) && b == Stored(i, s)
    && forall u :: t < u && Candidate(i, u) ==> NoWorse(i, s, u)
  }

  ghost predicate NoneSince(i: Input, t: int, b: Best)
    requires i.Sane()
  {
    b == NOTHING && forall u :: t < u ==> !Candidate(i, u)
  }

  predicate Exact(i: Input, t: int)
    requires i.Sane()
  {
    Round(i, t) && Legal(i, t) && Error(i, t) == 0
  }

  predicate SampleFits(i: Input, t: int)
    requires i.Sane()
  {
    Exact(i, t) && SampleError(i, t) <= NO_SAMPLE_YET
  }

  /** If any round is exact, one of the exact rounds can be stored: its sample point is at most 100 percent off. */
  ghost predicate Sampled(i: Input)
    requires i.Sane()
  {
    (exists t :: Exact(i, t)) ==> exists t :: SampleFits(i, t)
  }

  /** What the loop variables are after the rounds above t, as long as no exact round has been passed over. */
  ghost predicate Sees(i: Input, s: int, t: int, b: Best)
    requires i.Sane()
  {
    if s < 0 then NoneSince(i, t, b) else
      Leads(i, s, t, b)
      && (Error(i, s) == 0 ==> SampleFits(i, s) && (t >= 2 * i.TsegMin() ==> SampleError(i, s) > 0))
  }

  /**
   After an exact round e has been passed over for its sample point, the error is zero but what is stored is from
   the rounds before e; no exact round since could be stored either.
   */
  ghost predicate Blind(i: Input, s: int, e: int, t: int, b: Best)
    requires i.Sane()
  {
    && t < e && Exact(i, e) && b.error == 0 && (forall u :: t < u && Exact(i, u) ==> !SampleFits(i, u))
    && (forall u :: e < u ==> !Exact(i, u))
    && exists before: Best :: Sees(i, s, e, before) && b == before.(error := 0)
  }

  ghost predicate Known(i: Input, s: int, e: int, t: int, b: Best)
    requires i.Sane()
  {
    if e < 0 then Sees(i, s, t, b) else Blind(i, s, e, t, b)
  }

  lemma SeesNext(i: Input, t: int, b: Best, s: int) returns (s': int, e': int)
    requires i.Sane() && Round(i, t) && Sees(i, s, t, b)
    ensures var (next, stop) := Visit(i, t, b);
            if stop then e' < 0 && Sees(i, s', 2 * i.TsegMin() - 1, next) else Known(i, s', e', t - 1, next)
  {
    hide Brp, Rate, UpdateSpt;
    var (next, stop) := Visit(i, t, b);
    e' := -1;
    if Legal(i, t) && Error(i, t) <= b.error && (Error(i, t) > 0 || SampleError(i, t) <= b.sptError) {
      s' := t;
    } else {
      s' := s;
      if Legal(i, t) && Error(i, t) == 0 && b.error > 0 {
        e' := t;
        BlindFrom(i, s, t, b);
      }
    }
  }

  /** An exact round whose sample point is too far off blinds the search. */
  lemma BlindFrom(i: Input, s: int, t: int, b: Best)
    requires i.Sane() && Exact(i, t) && Sees(i, s, t, b) && b.error > 0 && SampleError(i, t) > b.sptError
    ensures Blind(i, s, t, t - 1, b.(error := 0))
  {
    hide Legal, Rate, Brp, SampleError;
    assert b.sptError == NO_SAMPLE_YET;
    forall u | t < u ensures !Exact(i, u) {
      NotExact(i, s, t, b, u);
    }
  }

  lemma NotExact(i: Input, s: int, t: int, b: Best, u: int)
    requires i.Sane() && Sees(i, s, t, b) && b.error > 0 && t < u
    ensures !Exact(i, u)
  {
    hide Legal, Rate, Brp, SampleError;
    assert Exact(i, u) ==> Candidate(i, u);
  }

  lemma BlindNext(i: Input, t: int, b: Best, s: int, e: int) returns (s': int, e': int)
    requires i.Sane() && Round(i, t) && e >= 0 && Blind(i, s, e, t, b)
    ensures var (next, stop) := Visit(i, t, b);
            if stop then e' < 0 && Sees(i, s', 2 * i.TsegMin() - 1, next) else Known(i, s', e', t - 1, next)
  {
    var before: Best :| Sees(i, s, e, before) && b == before.(error := 0);
    StillUnsampled(i, s, e, before);
    assert b.sptError == NO_SAMPLE_YET;
    BlindVisit(i, t, b);
    hide Visit;
    if SampleFits(i, t) {
      s', e' := t, -1;
      BlindEnds(i, t, e);
    } else {
      s', e' := s, e;
      hide Sees, SampleFits;
      assert Blind(i, s, e, t - 1, b);
    }
  }

  lemma BlindVisit(i: Input, t: int, b: Best)
    requires i.Sane() && Round(i, t) && b.error == 0 && b.sptError == NO_SAMPLE_YET
    ensures Visit(i, t, b) == if SampleFits(i, t) then (Stored(i, t), SampleError(i, t) == 0) else (b, false)
  {
    hide Brp, Rate, UpdateSpt;
  }

  lemma BlindEnds(i: Input, t: int, e: int)
    requires i.Sane() && SampleFits(i, t) && (forall u :: t < u && Exact(i, u) ==> !SampleFits(i, u))
    ensures Sees(i, t, if SampleError(i, t) == 0 then 2 * i.TsegMin() - 1 else t - 1, Stored(i, t))
  {
    hide Legal, Rate, Brp;
    forall u | t - 1 < u && Candidate(i, u) ensures NoWorse(i, t, u) {
      assert Error(i, u) == 0 ==> Exact(i, u);
    }
  }

  lemma StillUnsampled(i: Input, s: int, e: int, before: Best)
    requires i.Sane() && Sees(i, s, e, before) && forall u :: e < u ==> !Exact(i, u)
    ensures before.sptError == NO_SAMPLE_YET && (s >= 0 ==> Error(i, s) > 0)
  {}

  lemma {:induction false} ScanKnows(i: Input, t: int, b: Best, s: int, e: int) returns (s': int, e': int)
    requires i.Sane() && 2 * i.TsegMin() - 1 <= t <= 2 * i.TsegMax() + 1 && Known(i, s, e, t, b)
    ensures Known(i, s', e', 2 * i.TsegMin() - 1, Scan(i, t, b))
    decreases t
  {
    hide Visit, Sees, Blind;
    if t < 2 * i.TsegMin() {
      s', e' := s, e;
    } else {
      if e < 0 {
        s', e' := SeesNext(i, t, b, s);
      } else {
        s', e' := BlindNext(i, t, b, s, e);
      }
      var (next, stop) := Visit(i, t, b);
      if !stop {
        s', e' := ScanKnows(i, t - 1, next, s', e');
      }
    }
  }

  function Found(i: Input): Best
    requires i.Sane()
  {
    Scan(i, 2 * i.TsegMax() + 1, NOTHING)
  }

  lemma FoundKnown(i: Input) returns (s: int, e: int)
    requires i.Sane()
    ensures Known(i, s, e, 2 * i.TsegMin() - 1, Found(i)) && (e < 0 <==> Sampled(i))
  {
    s, e := ScanKnows(i, 2 * i.TsegMax() + 1, NOTHING, -1, -1);
    var b := Found(i);
    hide Scan, Error, Rate, Legal, SampleError;
    if e >= 0 {
      assert Exact(i, e);
    } else if t :| Exact(i, t) {
      SeesExact(i, s, b, t);
    }
  }

  lemma SeesExact(i: Input, s: int, b: Best, t: int)
    requires i.Sane() && Sees(i, s, 2 * i.TsegMin() - 1, b) && Exact(i, t)
    ensures SampleFits(i, s)
  {
    assert Candidate(i, t);
    assert s >= 0 && NoWorse(i, s, t);
  }

  /**
   The search result is lexicographically least over all candidates, and its variables describe one and
   the same candidate; if there is none, nothing is stored.
   */
  lemma SearchIsLeast(i: Input)
    requires i.Sane() && Sampled(i)
    ensures if Found(i).brp == 0 then Found(i) == NOTHING && forall t :: !Candidate(i, t)
            else exists s :: Candidate(i, s) && Found(i) == Stored(i, s)
                             && forall t :: Candidate(i, t) ==> NoWorse(i, s, t)
  {
    var s, e := FoundKnown(i);
    hide Error, SampleError, Rate, Found;
    if s >= 0 {
      assert Leads(i, s, 2 * i.TsegMin() - 1, Found(i));
      assert Candidate(i, s) && Found(i) == Stored(i, s) && forall t :: Candidate(i, t) ==> NoWorse(i, s, t);
    }
  }

  /** The loop variables describe one setting, or none, exactly if the exact rounds can be sampled. */
  lemma ConsistentExactlyWhenSampled(i: Input)
    requires i.Sane()
    ensures Sampled(i) <==> Found(i) == NOTHING || (Found(i).brp > 0
                                                    && Found(i).error == Abs(i.bitrate - Found(i).rate))
  {
    var s, e := FoundKnown(i);
    hide Found, SampleError, Brp;
    if e >= 0 {
      var before: Best :| Sees(i, s, e, before) && Found(i) == before.(error := 0);
      StillUnsampled(i, s, e, before);
    }
  }

  /** Some exact round has no candidate above it, and none can be sampled: zero error is recorded, but no prescaler. */
  ghost predicate ZeroPrescaler(i: Input)
    requires i.Sane()
  {
    !Sampled(i) && exists e :: Exact(i, e) && NoCandidateAbove(i, e)
  }

  ghost predicate NoCandidateAbove(i: Input, e: int)
    requires i.Sane()
  {
    forall u :: e < u ==> !Candidate(i, u)
  }

  lemma ZeroErrorWithoutPrescaler(i: Input)
    requires i.Sane()
    ensures Found(i).brp == 0 && Found(i) != NOTHING <==> ZeroPrescaler(i)
    ensures ZeroPrescaler(i) ==> Found(i).error == 0
  {
    var s, e := FoundKnown(i);
    hide Found, SampleError, Error, Rate, Brp;
    if e >= 0 {
      var before: Best :| Sees(i, s, e, before) && Found(i) == before.(error := 0);
      if s < 0 {
        assert NoCandidateAbove(i, e);
      } else {
        assert Candidate(i, s) && Candidate(i, e) && s > e;
      }
    }
  }

  /**
   The prescalers that are tried for a number of quanta: the largest legal one up to the exact quotient of clock and
   bit rate, and the largest one up to the next number.
   */
  lemma TriedPrescalers(i: Input, t: nat) returns (k: nat, step: nat)
    requires i.Sane()
    ensures var quanta := 1 + t / 2; var brp := Brp(i, t);
            && k * (quanta * i.bitrate) <= i.freq < (k + 1) * (quanta * i.bitrate)
            && brp == step * i.c.brpInc && brp <= k + t % 2 < brp + i.c.brpInc
  {
    Products(1, 1 + t / 2, 1, i.bitrate);
    var unit := (1 + t / 2) * i.bitrate;
    var r;
    k, r := Floor(i.freq, unit);
    Spread(k, 1, unit);
    step := StepDown(k + t % 2, i.c.brpInc);
    hide LegalStep;
  }

  // ----- Global optimality ----------------------------------------------------------------------------

  /** The error of any setting of the hardware: a number of quanta per bit and a prescaler. */
  function SettingError(i: Input, tsegall: nat, brp: nat): nat
    requires tsegall > 0 && brp > 0
  {
    Abs(i.bitrate - RateOf(i.freq, brp, tsegall))
  }

  lemma Rearrange(q: nat, tsegall: nat, bitrate: nat)
    ensures bitrate * (q * tsegall) == q * (tsegall * bitrate)
  {
    assert q * (tsegall * bitrate) == (q * tsegall) * bitrate;
  }

  lemma QuotientBounds(freq: nat, unit: nat)
    requires unit > 0
    ensures var q := freq / unit; q * unit <= freq < (q + 1) * unit
  {
    var q := freq / unit;
    assert freq == q * unit + freq % unit;
    assert (q + 1) * unit == q * unit + unit;
  }

  /** Rates fall as the prescaler grows: up to the exact quotient they are too high... */
  lemma RatesAbove(freq: nat, bitrate: nat, tsegall: nat, brp: nat, q: nat)
    requires tsegall * bitrate > 0 && 0 < brp <= q && q == freq / (tsegall * bitrate)
    ensures brp * tsegall > 0 && q * tsegall > 0
    ensures freq / (brp * tsegall) >= freq / (q * tsegall) >= bitrate
  {
    Products(1, brp, tsegall, tsegall);
    Products(brp, q, tsegall, tsegall);
    QuotientBounds(freq, tsegall * bitrate);
    Rearrange(q, tsegall, bitrate);
    DivAntitone(freq, brp * tsegall, q * tsegall);
    DivAbove(freq, q * tsegall, bitrate);
  }

  /** ... and beyond it too low. */
  lemma RatesBelow(freq: nat, bitrate: nat, tsegall: nat, brp: nat, q: nat)
    requires tsegall * bitrate > 0 && q < brp && q == freq / (tsegall * bitrate)
    ensures brp * tsegall > 0 && (q + 1) * tsegall > 0
    ensures freq / (brp * tsegall) <= freq / ((q + 1) * tsegall) < bitrate
  {
    Products(1, q + 1, tsegall, tsegall);
    Products(q + 1, brp, tsegall, tsegall);
    QuotientBounds(freq, tsegall * bitrate);
    Rearrange(q + 1, tsegall, bitrate);
    DivAntitone(freq, (q + 1) * tsegall, brp * tsegall);
    DivBelow(freq, (q + 1) * tsegall, bitrate);
  }

  /** The exact quotient of clock and bit rate for a number of quanta per bit. */
  function Quotient(i: Input, tseg: nat): nat
    requires i.Sane()
  {
    Products(1, 1 + tseg, 1, i.bitrate);
    i.freq / ((1 + tseg) * i.bitrate)
  }

  lemma UnitSteps(i: Input, tseg: nat)
    requires i.Sane() && i.c.brpInc == 1
    ensures Brp(i, 2 * tseg) == Quotient(i, tseg) && Brp(i, 2 * tseg + 1) == Quotient(i, tseg) + 1
  {}

  lemma ClosestPrescaler(i: Input, tseg: nat, brp: nat)
    requires i.Sane() && brp >= 1
    ensures var q := Quotient(i, tseg); var closest := if brp <= q then q else q + 1;
            SettingError(i, 1 + tseg, closest) <= SettingError(i, 1 + tseg, brp)
  {
    var q := Quotient(i, tseg);
    Products(1, 1 + tseg, 1, i.bitrate);
    if brp <= q {
      RatesAbove(i.freq, i.bitrate, 1 + tseg, brp, q);
    } else {
      RatesBelow(i.freq, i.bitrate, 1 + tseg, brp, q);
    }
    hide Quotient;
  }

  /**
   With a prescaler step of one, one of the two rounds for a number of quanta is at least as close to
   the request as every prescaler the hardware has.
   */
  lemma RoundCovers(i: Input, tseg: nat, brp: nat) returns (t: nat)
    requires i.Sane() && i.c.brpInc == 1 && i.c.brpMin == 1
    requires i.TsegMin() <= tseg <= i.TsegMax() && 1 <= brp <= i.c.brpMax
    requires Quotient(i, tseg) <= i.c.brpMax
    ensures Round(i, t) && Legal(i, t) && Error(i, t) <= SettingError(i, 1 + tseg, brp)
  {
    UnitSteps(i, tseg);
    ClosestPrescaler(i, tseg, brp);
    t := if brp <= Quotient(i, tseg) then 2 * tseg else 2 * tseg + 1;
    hide Quotient, Brp;
  }

  /**
   A successful search has the smallest bit-rate error over every number of quanta and every prescaler of
   the hardware, although it tries only two prescalers per number of quanta.
   */
  lemma SearchIsGloballyOptimal(i: Input, tseg: nat, brp: nat)
    requires i.Sane() && Sampled(i) && i.c.brpInc == 1 && i.c.brpMin == 1
    requires i.TsegMin() <= tseg <= i.TsegMax() && 1 <= brp <= i.c.brpMax
    requires Quotient(i, tseg) <= i.c.brpMax
    ensures Found(i).error <= SettingError(i, 1 + tseg, brp)
    ensures Found(i).brp > 0 ==> Abs(i.bitrate - Found(i).rate) <= SettingError(i, 1 + tseg, brp)
  {
    SearchIsLeast(i);
    ConsistentExactlyWhenSampled(i);
    var t := RoundCovers(i, tseg, brp);
    hide Error, Legal, Found, SettingError, SampleError, Sampled;
    if Candidate(i, t) && Found(i).brp != 0 {
      var s :| Candidate(i, s) && Found(i) == Stored(i, s) && forall u :: Candidate(i, u) ==> NoWorse(i, s, u);
      assert NoWorse(i, s, t);
    }
  }

  // ----- The calculated timing ------------------------------------------------------------------------

  datatype Timing = Timing(
    bitrate: int, samplePoint: int, tq: int, propSeg: int, phaseSeg1: int, phaseSeg2: int, sjw: int, brp: int)

  datatype Code = Success | DomainError | RangeError | InvalidPrescaler

  /** The check after the search: more than 5.0 percent off, in tenths of a percent. */
  predicate TooFar(bitrate: u32, error: nat)
    requires bitrate > 0
  {
    error != 0 && error * 1000 / bitrate > CAN_CALC_MAX_ERROR
  }

  function Report(i: Input, b: Best): Timing
    requires i.freq > 0 && b.brp > 0
  {
    var split := UpdateSpt(i.c, i.SamplePoint(), b.tseg);
    var quanta := split.tseg1 + split.tseg2 + 1;
    Timing(if quanta > 0 then i.freq / (b.brp * quanta) else 0, split.sample, AsUnsigned(b.brp * NANOSECONDS / i.freq),
           split.tseg1 / 2, split.tseg1 - split.tseg1 / 2, AsUnsigned(split.tseg2), 1, b.brp)
  }

  /** Without an acceptable candidate the check after the search fails, so the prescaler is never zero. */
  lemma NothingIsTooFar(bitrate: u32)
    requires bitrate > 0
    ensures TooFar(bitrate, NO_ERROR_YET)
  {
    DivAbove(NO_ERROR_YET * 1000, bitrate, 51);
  }

  lemma CloseEnough(bitrate: u32, error: nat)
    requires bitrate > 0
    ensures !TooFar(bitrate, error) <==> 1000 * error < 51 * bitrate
  {
    if error * 1000 < 51 * bitrate {
      DivBelow(error * 1000, bitrate, 51);
    } else {
      DivAbove(error * 1000, bitrate, 51);
    }
  }

  /**
   The calculation passes its check exactly when some round is within 5.1 percent of the request. Then it stores a
   prescaler, unless the only thing it knows is an exact round whose sample point it could not store: the division
   by the prescaler at the end is by zero exactly in this case.
   */
  lemma SucceedsExactlyWhenClose(i: Input)
    requires i.Sane()
    ensures !TooFar(i.bitrate, Found(i).error) <==>
            exists t :: Round(i, t) && Legal(i, t) && 1000 * Error(i, t) < 51 * i.bitrate
    ensures !TooFar(i.bitrate, Found(i).error) && Found(i).brp == 0 <==> ZeroPrescaler(i)
    ensures Found(i).brp >= 0
  {
    ZeroErrorWithoutPrescaler(i);
    NothingIsTooFar(i.bitrate);
    CloseEnough(i.bitrate, Found(i).error);
    if Sampled(i) {
      CloseWhenSampled(i);
    } else {
      CloseWhenBlind(i);
    }
  }

  lemma CloseWhenBlind(i: Input)
    requires i.Sane() && !Sampled(i)
    ensures Found(i).error == 0 && Found(i).brp >= 0
    ensures exists t :: Round(i, t) && Legal(i, t) && 1000 * Error(i, t) < 51 * i.bitrate
  {
    var s, e := FoundKnown(i);
    hide Found, SampleError, Error, Rate;
    var before: Best :| Sees(i, s, e, before) && Found(i) == before.(error := 0);
    assert Exact(i, e) && 1000 * Error(i, e) < 51 * i.bitrate;
  }

  lemma CloseWhenSampled(i: Input)
    requires i.Sane() && Sampled(i)
    ensures 1000 * Found(i).error < 51 * i.bitrate <==>
            exists t :: Round(i, t) && Legal(i, t) && 1000 * Error(i, t) < 51 * i.bitrate
    ensures Found(i).brp >= 0 && (Found(i).brp == 0 ==> Found(i) == NOTHING)
  {
    SearchIsLeast(i);
    hide Error, Found, SampleError, TooFar, Sampled;
    var b := Found(i);
    if b.brp == 0 {
      NothingIsTooFar(i.bitrate);
      CloseEnough(i.bitrate, b.error);
      forall t | Round(i, t) && Legal(i, t) ensures 1000 * Error(i, t) >= 51 * i.bitrate {
        assert !Candidate(i, t);
      }
    } else {
      var s :| Candidate(i, s) && b == Stored(i, s) && forall t :: Candidate(i, t) ==> NoWorse(i, s, t);
      forall t | Round(i, t) && Legal(i, t) && 1000 * Error(i, t) < 51 * i.bitrate
        ensures 1000 * b.error < 51 * i.bitrate
      {
        if Candidate(i, t) {
          assert NoWorse(i, s, t);
        }
      }
    }
  }

  /**
   A successful calculation that can be sampled respects the controller's limits for prescaler and quanta, the
   reported bit rate is the rate of the round found, and it is within 5.1 percent of the request. Its segments
   respect the limits too exactly if the bit is splittable.
   */
  lemma CalculationIsSound(i: Input)
    requires i.Sane() && Sampled(i) && !TooFar(i.bitrate, Found(i).error)
    ensures var b := Found(i);
            && 1 <= i.c.brpMin <= b.brp <= i.c.brpMax && i.TsegMin() <= b.tseg <= i.TsegMax()
            && var v := Report(i, b);
               && 0 <= v.propSeg + v.phaseSeg1 <= i.c.tseg1Max
               && (v.propSeg + v.phaseSeg1 + v.phaseSeg2 == b.tseg && i.c.tseg2Min <= v.phaseSeg2 <= i.c.tseg2Max
                   <==> Splittable(i, b.tseg))
               && v.bitrate == b.rate && b.error == Abs(i.bitrate - v.bitrate)
               && 1000 * Abs(i.bitrate - v.bitrate) < 51 * i.bitrate
  {
    FoundInLimits(i);
    CloseEnough(i.bitrate, Found(i).error);
    SplitFits(i, Found(i).tseg);
    hide Found, UpdateSpt, TooFar, Sampled, Splittable;
    var split := UpdateSpt(i.c, i.SamplePoint(), Found(i).tseg);
    UnsignedLimits(split.tseg2, i.c.tseg2Min, i.c.tseg2Max);
    hide AsUnsigned;
  }

  lemma FoundInLimits(i: Input)
    requires i.Sane() && Sampled(i) && !TooFar(i.bitrate, Found(i).error)
    ensures var b := Found(i);
            && 1 <= i.c.brpMin <= b.brp <= i.c.brpMax && i.TsegMin() <= b.tseg <= i.TsegMax()
            && 0 < b.brp * (b.tseg + 1) < 0x8000_0000 && b.rate == i.freq / (b.brp * (b.tseg + 1))
            && b.error == Abs(i.bitrate - b.rate)
  {
    NothingIsTooFar(i.bitrate);
    SucceedsExactlyWhenClose(i);
    hide *;
    var s := FoundCandidate(i);
    StoredLimits(i, s);
  }

  lemma FoundCandidate(i: Input) returns (s: int)
    requires i.Sane() && Sampled(i) && !TooFar(i.bitrate, Found(i).error)
    ensures Candidate(i, s) && Found(i) == Stored(i, s)
  {
    SearchIsLeast(i);
    NothingIsTooFar(i.bitrate);
    hide Found, Sampled, TooFar, Stored, NoWorse, Candidate;
    s :| Candidate(i, s) && Found(i) == Stored(i, s) && forall t :: Candidate(i, t) ==> NoWorse(i, s, t);
  }

  lemma StoredLimits(i: Input, s: int)
    requires i.Sane() && Candidate(i, s)
    ensures var b := Stored(i, s);
            && 1 <= i.c.brpMin <= b.brp <= i.c.brpMax && i.TsegMin() <= b.tseg <= i.TsegMax()
            && 0 < b.brp * (b.tseg + 1) < 0x8000_0000 && b.rate == i.freq / (b.brp * (b.tseg + 1))
            && b.error == Abs(i.bitrate - b.rate)
  {
    BitFits(i, s);
    hide SampleError, Brp;
    Products(1, Brp(i, s), 1, s / 2 + 1);
  }

  /** The clock periods of a bit are at most those of a bit at the requested rate, rounded up. */
  lemma BitFits(i: Input, t: int)
    requires i.Sane() && Round(i, t)
    ensures Brp(i, t) * (1 + t / 2) < 0x8000_0000
  {
    var q := 1 + t / 2;
    Products(1, q, 1, i.bitrate);
    var k := Quotients(i.freq, q, i.bitrate);
    var step := StepDown(k + t % 2, i.c.brpInc);
    assert 0 <= Brp(i, t) <= k + 1;
    hide Brp;
    Products(Brp(i, t), k + 1, q, q);
    Spread(k, 1, q);
  }

  /** Whole bits of q periods in a clock that has room for some more than the quotient. */
  lemma Quotients(freq: nat, q: nat, bitrate: nat) returns (k: nat)
    requires q > 0 && bitrate > 0 && q * bitrate > 0
    ensures k == freq / (q * bitrate) && k * q <= freq / bitrate
  {
    var r;
    k, r := Floor(freq, q * bitrate);
    Rearrange(k, q, bitrate);
    DivAbove(freq, bitrate, k * q);
  }

  lemma StepDown(brp: nat, inc: u32) returns (q: nat)
    requires inc > 0
    ensures LegalStep(brp, inc) == q * inc <= brp < q * inc + inc
  {
    var r;
    q, r := Floor(brp, inc);
  }

  /** With a recommended sample point every bit is splittable, and the search consistent. */
  lemma DefaultsAreSampled(i: Input)
    requires i.Sane() && i.sample == 0
    ensures Sampled(i) && forall tseg :: i.TsegMin() <= tseg <= i.TsegMax() ==> Splittable(i, tseg)
  {
    forall tseg | i.TsegMin() <= tseg <= i.TsegMax() ensures Splittable(i, tseg) {
      Products(750, i.SamplePoint(), 2, tseg + 1);
    }
    SplittableIsSampled(i);
  }

  /** Sample points up to 100 percent that split every bit never blind the search. */
  lemma SplittableIsSampled(i: Input)
    requires i.Sane() && i.SamplePoint() <= 1000
    requires forall tseg :: i.TsegMin() <= tseg <= i.TsegMax() ==> Splittable(i, tseg)
    ensures Sampled(i)
  {
    hide Error, Rate, Legal;
    if t :| Exact(i, t) {
      SplitFits(i, t / 2);
      hide UpdateSpt;
      assert SampleFits(i, t);
    }
  }

  /** The same request with the sample point written out, if none is given. */
  function WrittenOut(i: Input): Input {
    if i.sample != 0 then i
    else if i.bitrate > 800000 then i.(sample := 750)
    else if i.bitrate > 500000 then i.(sample := 800)
    else i.(sample := 875)
  }

  lemma SameSample(i: Input, t: nat)
    ensures var w := WrittenOut(i);
            && w.sample != 0 && SampleError(i, t) == SampleError(w, t)
            && SampleError(i, t) == Abs(w.sample - UpdateSpt(i.c, w.sample, t / 2).sample)
  {}

  lemma {:induction false} SameScan(i: Input, w: Input, t: int, b: Best)
    requires i.Sane() && w.Sane() && w == WrittenOut(i)
    ensures Scan(i, t, b) == Scan(w, t, b)
    decreases t
  {
    if t >= 2 * i.TsegMin() {
      SameVisit(i, w, t, b);
      hide Visit;
      var (next, stop) := Visit(i, t, b);
      SameScan(i, w, t - 1, next);
    }
  }

  lemma SameVisit(i: Input, w: Input, t: nat, b: Best)
    requires i.Sane() && w.Sane() && w == WrittenOut(i)
    ensures Visit(i, t, b) == Visit(w, t, b)
  {
    SameSample(i, t);
    hide SampleError;
  }

  lemma SameResult(i: Input)
    requires i.Sane()
    ensures var w := WrittenOut(i); w.Sane() && Found(i) == Found(w)
  {
    var w := WrittenOut(i);
    assert w.Sane();
    hide Scan;
    SameScan(i, w, 2 * i.TsegMax() + 1, NOTHING);
  }

  lemma SameReport(i: Input, b: Best)
    requires i.freq > 0 && b.brp > 0
    ensures Report(i, b) == Report(WrittenOut(i), b)
  {
    hide UpdateSpt, AsUnsigned;
  }

  /** Which sample point is taken if none is given: everything is as if it had been. */
  lemma RecommendedSample(i: Input)
    requires i.Sane() && i.sample == 0
    ensures var w := i.(sample := if i.bitrate > 800000 then 750 else if i.bitrate > 500000 then 800 else 875);
            && w.Sane() && Found(i) == Found(w) && (Found(i).brp > 0 ==> Report(i, Found(i)) == Report(w, Found(w)))
            && (ZeroPrescaler(i) <==> ZeroPrescaler(w))
  {
    var w := WrittenOut(i);
    SameResult(i);
    hide Found, Report, ZeroPrescaler, Input.Sane;
    ZeroErrorWithoutPrescaler(i);
    ZeroErrorWithoutPrescaler(w);
    if Found(i).brp > 0 {
      assert i.freq > 0 by { SanePositive(i); }
      SameReport(i, Found(i));
    }
  }

  lemma SanePositive(i: Input)
    requires i.Sane()
    ensures i.freq > 0
  {}

  /**
   What is stored of a round: its prescaler and rate, the split around the sample point - the first segment in two
   halves, the second as an unsigned number - and the time quantum in nanoseconds, rounded down.
   */
  predicate Reports(b: Best, s: Split, freq: u32, v: Timing) {
    && v.sjw == 1 && v.brp == b.brp && v.bitrate == b.rate && v.samplePoint == s.sample
    && v.propSeg + v.phaseSeg1 == s.tseg1 && v.propSeg <= v.phaseSeg1 <= v.propSeg + 1
    && v.phaseSeg2 == (if s.tseg2 >= 0 then s.tseg2 else s.tseg2 + 0x1_0000_0000)
    && v.tq * freq <= v.brp * 1000000000 < (v.tq + 1) * freq
  }

  lemma ReportMeans(i: Input)
    requires i.Sane() && i.sample != 0 && Sampled(i) && !TooFar(i.bitrate, Found(i).error)
    requires Found(i).brp > 0 && Found(i).brp * NANOSECONDS / i.freq < 0x1_0000_0000
    ensures Reports(Found(i), UpdateSpt(i.c, i.sample, Found(i).tseg), i.freq, Report(i, Found(i)))
  {
    FoundInLimits(i);
    SplitFits(i, Found(i).tseg);
    var b := Found(i);
    hide Found, UpdateSpt, Sampled, TooFar, Splittable, AsUnsigned;
    StoredReport(i, b);
  }

  lemma StoredReport(i: Input, b: Best)
    requires i.Sane() && i.sample != 0 && i.TsegMin() <= b.tseg <= i.TsegMax() && b.brp > 0
    requires b.brp * (b.tseg + 1) > 0 && b.rate == i.freq / (b.brp * (b.tseg + 1))
    requires b.brp * NANOSECONDS / i.freq < 0x1_0000_0000
    requires var s := UpdateSpt(i.c, i.sample, b.tseg); 0 <= s.tseg1 <= i.c.tseg1Max && s.tseg1 + s.tseg2 == b.tseg
    ensures Reports(b, UpdateSpt(i.c, i.sample, b.tseg), i.freq, Report(i, b))
  {
    var s := UpdateSpt(i.c, i.sample, b.tseg);
    assert i.SamplePoint() == i.sample;
    hide UpdateSpt;
    IntAsUnsigned(s.tseg2);
    Halved(s.tseg1);
    Unchanged(b.brp * NANOSECONDS, i.freq);
    var q, r := Floor(b.brp * NANOSECONDS, i.freq);
    Spread(q, 1, i.freq);
    hide AsUnsigned;
    var v := Report(i, b);
    assert v.tq == q && s.tseg1 + s.tseg2 + 1 == b.tseg + 1;
  }

  lemma Halved(x: nat)
    ensures x / 2 <= x - x / 2 <= x / 2 + 1
  {}

  // ----- Recovering the prescaler from the time quantum -----------------------------------------------

  /** The prescaler a time quantum stands for, rounded to a legal step. */
  function Recovered(c: Limits, freq: u32, tq: int): int
    requires 1 <= c.brpInc
  {
    var scaled := if c.brpInc > 1 then freq * tq / c.brpInc else freq * tq;
    var steps := (scaled + (500000000 - 1)) / NANOSECONDS;
    AsUnsigned(if c.brpInc > 1 then steps * c.brpInc else steps)
  }

  /** Clock periods of a bit, as the 32-bit product by which the clock is divided. */
  function Periods(brp: int, quanta: int): int { AsUnsigned(brp * quanta) }

  /**
   The expert-mode check: the updated parameters, also when it fails half-way, and the return code. The sum of the
   first two segments wraps.
   */
  function Fixup(c: Limits, freq: u32, v: Timing): (Timing, Code)
    requires 1 <= c.brpInc
    requires v.propSeg >= 0 && v.phaseSeg1 >= 0 && v.phaseSeg2 >= 0
  {
    var tseg1 := AsUnsigned(v.propSeg + v.phaseSeg1);
    var w := if v.sjw == 0 then v.(sjw := 1) else v;
    if w.sjw > c.sjwMax || tseg1 < c.tseg1Min || tseg1 > c.tseg1Max
       || w.phaseSeg2 < c.tseg2Min || w.phaseSeg2 > c.tseg2Max
    then (w, RangeError)
    else
      var x := w.(brp := Recovered(c, freq, w.tq));
      if x.brp < c.brpMin || x.brp > c.brpMax then (x, InvalidPrescaler)
      else
        var alltseg := tseg1 + w.phaseSeg2 + 1;
        var periods := Periods(x.brp, alltseg);
        (x.(bitrate := if periods > 0 then freq / periods else 0, samplePoint := (tseg1 + 1) * 1000 / alltseg),
         Success)
  }

  /** The check divides by zero: everything is accepted, but the 32-bit product wraps to zero. */
  predicate FixupDividesByZero(c: Limits, freq: u32, v: Timing)
    requires 1 <= c.brpInc && v.propSeg >= 0 && v.phaseSeg1 >= 0 && v.phaseSeg2 >= 0
  {
    Fixup(c, freq, v).1 == Success
    && Periods(Recovered(c, freq, v.tq), AsUnsigned(v.propSeg + v.phaseSeg1) + v.phaseSeg2 + 1) == 0
  }

  /** It never does if the largest prescaler and the largest number of quanta have a product below 2^32. */
  lemma SmallControllersDivide(c: Limits, freq: u32, v: Timing)
    requires 1 <= c.brpInc && 1 <= c.brpMin && v.propSeg >= 0 && v.phaseSeg1 >= 0 && v.phaseSeg2 >= 0
    requires c.brpMax * (c.tseg1Max + c.tseg2Max + 1) < 0x1_0000_0000
    ensures !FixupDividesByZero(c, freq, v)
  {
    var brp, quanta := Recovered(c, freq, v.tq), AsUnsigned(v.propSeg + v.phaseSeg1) + v.phaseSeg2 + 1;
    hide Recovered;
    if Fixup(c, freq, v).1 == Success {
      Products(brp, c.brpMax, quanta, c.tseg1Max + c.tseg2Max + 1);
      Products(1, brp, 1, quanta);
    }
  }

  /** Dividing the nanoseconds of k steps by the clock and multiplying back loses the remainder only. */
  lemma RoundingCancels(freq: nat, k: nat, inc: nat)
    requires freq > 0 && inc > 0
    ensures var total := k * inc * NANOSECONDS; var lost := total % freq;
            var scaled := freq * (total / freq) / inc;
            (scaled + 499999999) / NANOSECONDS == k <==> (lost + inc - 1) / inc < 500000000
  {
    var total := k * inc * NANOSECONDS;
    var lost := total % freq;
    assert freq * (total / freq) == total - lost;
    var up := (lost + inc - 1) / inc;
    var n := k * NANOSECONDS;
    assert total == n * inc;
    FloorOfDifference(n, inc, lost);
    assert (n - up + 499999999) / NANOSECONDS == k <==> up < 500000000;
  }

  lemma FloorOfDifference(n: nat, inc: nat, lost: nat)
    requires inc > 0
    ensures (n * inc - lost) / inc == n - (lost + inc - 1) / inc
  {
    var up := (lost + inc - 1) / inc;
    assert lost + inc - 1 == up * inc + (lost + inc - 1) % inc;
    var slack := up * inc - lost;
    assert 0 <= slack < inc;
    assert n * inc - lost == (n - up) * inc + slack;
    DivUnique(n * inc - lost, inc, n - up, slack);
  }

  lemma DivUnique(x: int, d: nat, q: int, r: nat)
    requires d > 0 && r < d && x == q * d + r
    ensures x / d == q
  {
    var p := x / d;
    assert x == p * d + x % d;
    var gap := q - p;
    assert gap * d == q * d - p * d && (-gap) * d == -(gap * d);
    if gap > 0 {
      Products(1, gap, d, d);
    } else if gap < 0 {
      Products(1, -gap, d, d);
    }
  }

  /** Up to 500 MHz nothing is lost... */
  lemma SlowClocksCancel(freq: nat, k: nat, inc: nat)
    requires 0 < freq <= 500000000 && inc > 0
    ensures (freq * (k * inc * NANOSECONDS / freq) / inc + 499999999) / NANOSECONDS == k
  {
    RoundingCancels(freq, k, inc);
    var lost := k * inc * NANOSECONDS % freq;
    assert lost < 500000000;
    DivBelow(lost + inc - 1, inc, 500000000) by {
      Products(1, inc, lost, lost);
      assert 500000000 * inc == 499999999 * inc + inc;
      Products(lost, 499999999, inc, inc);
      Products(lost, lost, 1, inc);
    }
  }

  /** Dividing back never gives more steps than there were. */
  lemma StepsAtMost(freq: nat, k: nat, inc: nat)
    requires freq > 0 && inc > 0
    ensures (freq * (k * inc * NANOSECONDS / freq) / inc + 499999999) / NANOSECONDS <= k
  {
    var total := k * inc * NANOSECONDS;
    var n := k * NANOSECONDS;
    assert freq * (total / freq) == total - total % freq;
    assert total == n * inc;
    DivBelow(total - total % freq, inc, n + 1) by {
      assert (n + 1) * inc == n * inc + inc;
    }
  }

  /** What is lost when the nanoseconds of a prescaler are divided by the clock, in steps. */
  function LostSteps(i: Input): nat
    requires i.Sane() && Found(i).brp >= 0
  {
    (Found(i).brp * NANOSECONDS % i.freq + i.c.brpInc - 1) / i.c.brpInc
  }

  /**
   Feeding a successful calculation into the expert-mode check reproduces it entirely - same prescaler, bit rate,
   sample point and segments - exactly if its synchronisation jump and its segments are allowed there and less
   than half a unit was lost in the time quantum.
   */
  lemma FixupReproduces(i: Input)
    requires i.Sane() && Sampled(i) && !TooFar(i.bitrate, Found(i).error)
    requires Found(i).brp > 0 && Found(i).brp * NANOSECONDS / i.freq < 0x1_0000_0000
    ensures var v := Report(i, Found(i));
            && v.propSeg >= 0 && v.phaseSeg1 >= 0 && v.phaseSeg2 >= 0
            && (Fixup(i.c, i.freq, v) == (v, Success) <==>
                  i.c.sjwMax >= 1 && v.propSeg + v.phaseSeg1 >= i.c.tseg1Min && Splittable(i, Found(i).tseg)
                  && LostSteps(i) < 500000000)
  {
    FoundInLimits(i);
    var b := Found(i);
    var v := Report(i, b);
    var k := FoundIsMultiple(i);
    ReportFields(i, b);
    hide Found, TooFar, Sampled, Report, Fixup, Splittable, Periods;
    if i.c.sjwMax >= 1 && v.propSeg + v.phaseSeg1 >= i.c.tseg1Min && Splittable(i, b.tseg) {
      FixupExactly(i.c, i.freq, v, k);
    } else {
      FixupRejects(i.c, i.freq, v);
    }
  }

  lemma FixupRejects(c: Limits, freq: u32, v: Timing)
    requires 1 <= c.brpInc && v.sjw == 1 && v.propSeg >= 0 && v.phaseSeg1 >= 0 && v.phaseSeg2 >= 0
    requires v.propSeg + v.phaseSeg1 <= c.tseg1Max
    requires c.sjwMax < 1 || v.propSeg + v.phaseSeg1 < c.tseg1Min || !(c.tseg2Min <= v.phaseSeg2 <= c.tseg2Max)
    ensures Fixup(c, freq, v).1 == RangeError
  {
    assert AsUnsigned(v.propSeg + v.phaseSeg1) == v.propSeg + v.phaseSeg1;
    hide AsUnsigned;
  }

  lemma PeriodsExact(brp: nat, quanta: nat)
    requires 0 < brp * quanta < 0x1_0000_0000
    ensures Periods(brp, quanta) == brp * quanta
  {}

  /** For clocks up to 500 MHz and any step the loss is never too large. */
  lemma SlowClocksReproduce(i: Input)
    requires i.Sane() && Sampled(i) && Found(i).brp > 0 && i.freq <= 500000000
    ensures LostSteps(i) < 500000000
  {
    var k := FoundIsMultiple(i);
    SlowClocksCancel(i.freq, k, i.c.brpInc);
    RoundingCancels(i.freq, k, i.c.brpInc);
  }

  lemma ReportFields(i: Input, b: Best)
    requires i.Sane() && b.brp > 0 && i.TsegMin() <= b.tseg <= i.TsegMax()
    requires b.brp * NANOSECONDS / i.freq < 0x1_0000_0000 && b.brp * (b.tseg + 1) < 0x8000_0000
    ensures var v := Report(i, b); var quanta := b.tseg + 1;
            && v.brp == b.brp && v.sjw == 1 && v.propSeg >= 0 && v.phaseSeg1 >= 0 && v.phaseSeg2 >= 0
            && v.propSeg + v.phaseSeg1 <= i.c.tseg1Max
            && (i.c.tseg2Min <= v.phaseSeg2 <= i.c.tseg2Max <==> Splittable(i, b.tseg))
            && (Splittable(i, b.tseg) ==> v.propSeg + v.phaseSeg1 + v.phaseSeg2 + 1 == quanta)
            && v.tq == b.brp * NANOSECONDS / i.freq
            && Periods(b.brp, quanta) > 0 && v.bitrate == i.freq / Periods(b.brp, quanta)
            && v.samplePoint == 1000 * (v.propSeg + v.phaseSeg1 + 1) / quanta
  {
    SplitFits(i, b.tseg);
    hide UpdateSpt;
    var split := UpdateSpt(i.c, i.SamplePoint(), b.tseg);
    SplitHalves(split.tseg1);
    Products(1, b.brp, 1, b.tseg + 1);
    PeriodsExact(b.brp, b.tseg + 1);
    Unchanged(b.brp * NANOSECONDS, i.freq);
    UnsignedLimits(split.tseg2, i.c.tseg2Min, i.c.tseg2Max);
    hide AsUnsigned, Splittable, Periods;
    var v := Report(i, b);
    assert split.tseg1 + split.tseg2 + 1 == b.tseg + 1;
  }

  /** A segment below its limit is also outside of the limits as an unsigned number. */
  lemma UnsignedLimits(x: int, low: u32, high: u32)
    requires high < 0x8000_0000 && -0x8000_0000 <= x <= high
    ensures AsUnsigned(x) >= 0 && (low <= x ==> AsUnsigned(x) == x) && (low <= AsUnsigned(x) <= high <==> low <= x)
  {
    assert x < 0 ==> AsUnsigned(x) == x + 0x1_0000_0000;
  }

  lemma Unchanged(x: nat, freq: nat)
    requires freq > 0 && x / freq < 0x1_0000_0000
    ensures AsUnsigned(x / freq) == x / freq
  {}

  lemma LegalIsMultiple(brp: nat, inc: u32) returns (k: nat)
    requires inc > 0
    ensures LegalStep(brp, inc) == k * inc
  {
    k := brp / inc;
  }

  lemma QuotientFits(freq: nat, divisor: nat)
    requires divisor > 0
    ensures freq / divisor >= 0
  {}

  lemma BrpIsMultiple(i: Input, t: nat) returns (k: nat)
    requires i.Sane()
    ensures Brp(i, t) == k * i.c.brpInc
  {
    Products(1, 1 + t / 2, 1, i.bitrate);
    var divisor := (1 + t / 2) * i.bitrate;
    QuotientFits(i.freq, divisor);
    hide LegalStep;
    k := LegalIsMultiple(i.freq / divisor + t % 2, i.c.brpInc);
  }

  lemma FoundIsMultiple(i: Input) returns (k: nat)
    requires i.Sane() && Sampled(i) && Found(i).brp > 0
    ensures Found(i).brp == k * i.c.brpInc
  {
    SearchIsLeast(i);
    hide Found, Error, Rate, SampleError, Brp, Legal, Sampled;
    var s :| Candidate(i, s) && Found(i) == Stored(i, s);
    k := BrpIsMultiple(i, s);
  }

  lemma FixupExactly(c: Limits, freq: u32, v: Timing, k: nat)
    requires 1 <= c.brpInc && 0 < freq && v.sjw == 1 <= c.sjwMax
    requires v.brp == k * c.brpInc && 1 <= c.brpMin <= v.brp <= c.brpMax && v.tq == v.brp * NANOSECONDS / freq
    requires v.propSeg >= 0 && v.phaseSeg1 >= 0 && c.tseg1Min <= v.propSeg + v.phaseSeg1 <= c.tseg1Max
    requires 0 <= c.tseg2Min <= v.phaseSeg2 <= c.tseg2Max
    requires var quanta := v.propSeg + v.phaseSeg1 + v.phaseSeg2 + 1;
             Periods(v.brp, quanta) > 0 && v.bitrate == freq / Periods(v.brp, quanta)
             && v.samplePoint == 1000 * (v.propSeg + v.phaseSeg1 + 1) / quanta
    ensures Fixup(c, freq, v) == (v, Success) <==> (v.brp * NANOSECONDS % freq + c.brpInc - 1) / c.brpInc < 500000000
  {
    hide Fixup;
    var steps := RecoveredSteps(freq, k, c.brpInc);
    FixupSteps(c, freq, v, steps);
  }

  lemma RecoveredSteps(freq: nat, k: nat, inc: nat) returns (steps: nat)
    requires freq > 0 && inc > 0
    ensures var total := k * inc * NANOSECONDS;
            && steps == (freq * (total / freq) / inc + 499999999) / NANOSECONDS && steps * inc <= k * inc
            && (steps * inc == k * inc <==> (total % freq + inc - 1) / inc < 500000000)
  {
    RoundingCancels(freq, k, inc);
    StepsAtMost(freq, k, inc);
    steps := Rounded(freq, k * inc * NANOSECONDS, inc);
    if steps < k {
      FewerSteps(steps, k, inc);
    }
  }

  lemma Rounded(freq: nat, total: nat, inc: nat) returns (steps: nat)
    requires freq > 0 && inc > 0
    ensures steps == (freq * (total / freq) / inc + 499999999) / NANOSECONDS
  {
    var back: nat := freq * (total / freq);
    var scaled: nat := back / inc;
    steps := (scaled + 499999999) / NANOSECONDS;
  }

  lemma FewerSteps(steps: nat, k: nat, inc: nat)
    requires steps < k && inc > 0
    ensures steps * inc < k * inc
  {
    Products(steps + 1, k, inc, inc);
    assert (steps + 1) * inc == steps * inc + inc;
  }

  /** The expert-mode check keeps a timing exactly if the prescaler it recovers is the one that is there. */
  lemma FixupSteps(c: Limits, freq: u32, v: Timing, steps: nat)
    requires 1 <= c.brpInc && v.sjw == 1 <= c.sjwMax && 1 <= c.brpMin <= v.brp <= c.brpMax
    requires v.propSeg >= 0 && v.phaseSeg1 >= 0 && c.tseg1Min <= v.propSeg + v.phaseSeg1 <= c.tseg1Max
    requires 0 <= c.tseg2Min <= v.phaseSeg2 <= c.tseg2Max
    requires steps == (freq * v.tq / c.brpInc + 499999999) / NANOSECONDS && steps * c.brpInc <= v.brp
    requires var quanta := v.propSeg + v.phaseSeg1 + v.phaseSeg2 + 1;
             Periods(v.brp, quanta) > 0 && v.bitrate == freq / Periods(v.brp, quanta)
             && v.samplePoint == 1000 * (v.propSeg + v.phaseSeg1 + 1) / quanta
    ensures Fixup(c, freq, v) == (v, Success) <==> steps * c.brpInc == v.brp
  {
    RecoveredIs(c, freq, v.tq, steps);
    assert AsUnsigned(v.propSeg + v.phaseSeg1) == v.propSeg + v.phaseSeg1;
    hide Recovered, Periods, AsUnsigned;
  }

  lemma RecoveredIs(c: Limits, freq: u32, tq: int, steps: nat)
    requires 1 <= c.brpInc && steps == (freq * tq / c.brpInc + 499999999) / NANOSECONDS
    requires 0 <= steps * c.brpInc < 0x1_0000_0000
    ensures Recovered(c, freq, tq) == steps * c.brpInc
  {
    assert freq * tq / 1 == freq * tq && steps * 1 == steps;
    assert AsUnsigned(steps * c.brpInc) == steps * c.brpInc;
  }

  lemma SplitHalves(tseg1: int)
    requires tseg1 >= 0
    ensures tseg1 / 2 >= 0 && tseg1 - tseg1 / 2 >= 0
  {}

  /**
   Any successful check: the prescaler it recovers is a legal step, the nearest one to the time quantum up to one
   step's rounding.
   */
  lemma FixupFindsNearest(c: Limits, freq: u32, v: Timing, x: nat, j: nat) returns (k: nat)
    requires 1 <= c.brpInc && v.propSeg >= 0 && v.phaseSeg1 >= 0 && v.phaseSeg2 >= 0
             && x == freq * v.tq
    requires Fixup(c, freq, v).1 == Success && x / NANOSECONDS + c.brpInc < 0x1_0000_0000
    ensures Fixup(c, freq, v).0.brp == k * c.brpInc && c.brpMin <= k * c.brpInc <= c.brpMax
    ensures Abs(k * (c.brpInc * NANOSECONDS) - x) <= Abs(j * (c.brpInc * NANOSECONDS) - x) + 2 * (c.brpInc - 1)
  {
    k := FixupPrescaler(c, freq, v, x);
    hide *;
    NearestStep(x, c.brpInc, k, j);
  }

  /** Which check fails, and what it leaves behind. */
  lemma FixupFails(c: Limits, freq: u32, v: Timing)
    requires 1 <= c.brpInc && v.propSeg >= 0 && v.phaseSeg1 >= 0 && v.phaseSeg2 >= 0
    ensures var (w, code) := Fixup(c, freq, v); var tseg1, sjw := AsUnsigned(v.propSeg + v.phaseSeg1), w.sjw;
            && (if v.sjw == 0 then sjw == 1 else sjw == v.sjw)
            && w.propSeg == v.propSeg && w.phaseSeg1 == v.phaseSeg1 && w.phaseSeg2 == v.phaseSeg2 && w.tq == v.tq
            && code != DomainError
            && (code != RangeError
                <==> sjw <= c.sjwMax && c.tseg1Min <= tseg1 <= c.tseg1Max && c.tseg2Min <= v.phaseSeg2 <= c.tseg2Max)
            && (code == RangeError ==> w.brp == v.brp)
            && (code == InvalidPrescaler ==> !(c.brpMin <= w.brp <= c.brpMax))
            && (code == Success <==> w.samplePoint == (tseg1 + 1) * 1000 / (tseg1 + v.phaseSeg2 + 1)
                                     && code != RangeError && c.brpMin <= w.brp <= c.brpMax)
            && (code != Success ==> w.bitrate == v.bitrate && w.samplePoint == v.samplePoint)
  {
    hide Recovered, Periods, AsUnsigned;
  }

  /** Accepted segments respect the controller exactly if the sum of the first two did not wrap. */
  lemma AcceptedSegments(c: Limits, freq: u32, v: Timing)
    requires 1 <= c.brpInc && v.propSeg >= 0 && v.phaseSeg1 >= 0 && v.phaseSeg2 >= 0
    requires Fixup(c, freq, v).1 == Success
    ensures c.tseg2Min <= v.phaseSeg2 <= c.tseg2Max
    ensures c.tseg1Min <= v.propSeg + v.phaseSeg1 <= c.tseg1Max <==> v.propSeg + v.phaseSeg1 < 0x1_0000_0000
  {
    assert v.propSeg + v.phaseSeg1 < 0x1_0000_0000 ==>
        AsUnsigned(v.propSeg + v.phaseSeg1) == v.propSeg + v.phaseSeg1;
  }

  /** A propagation segment of 2^32 - 1 quanta is accepted. */
  lemma WrappedSegmentsPass(v: Timing)
    requires v == Timing(0, 0, 125, 0xFFFF_FFFF, 6, 2, 1, 0)
    ensures Fixup(Limits(1, 16, 1, 8, 4, 1, 64, 1), 8000000, v)
         == (v.(bitrate := 1000000, samplePoint := 750, brp := 1), Success)
  {
    assert Recovered(Limits(1, 16, 1, 8, 4, 1, 64, 1), 8000000, 125) == 1;
  }

  /** The reported rate is the one its own prescaler and segments give, rounded down. */
  lemma FixupRate(c: Limits, freq: u32, v: Timing)
    requires 1 <= c.brpInc && v.propSeg >= 0 && v.phaseSeg1 >= 0 && v.phaseSeg2 >= 0
    requires Fixup(c, freq, v).1 == Success
    ensures var w := Fixup(c, freq, v).0;
            var quanta := (v.propSeg + v.phaseSeg1) % 0x1_0000_0000 + v.phaseSeg2 + 1;
            var periods := w.brp * quanta % 0x1_0000_0000;
            if FixupDividesByZero(c, freq, v) then periods == 0
            else periods > 0 && w.bitrate * periods <= freq < (w.bitrate + 1) * periods
  {
    var w := Fixup(c, freq, v).0;
    var periods := Periods(w.brp, AsUnsigned(w.propSeg + w.phaseSeg1) + w.phaseSeg2 + 1);
    assert FixupDividesByZero(c, freq, v) <==> periods == 0;
    assert periods > 0 ==> w.bitrate == freq / periods;
    hide Fixup, Periods;
    if periods > 0 {
      var q, r := Floor(freq, periods);
    }
  }

  lemma FixupPrescaler(c: Limits, freq: u32, v: Timing, x: nat) returns (k: nat)
    requires 1 <= c.brpInc && v.propSeg >= 0 && v.phaseSeg1 >= 0 && v.phaseSeg2 >= 0
             && x == freq * v.tq
    requires Fixup(c, freq, v).1 == Success && x / NANOSECONDS + c.brpInc < 0x1_0000_0000
    ensures k == (x / c.brpInc + 499999999) / NANOSECONDS
    ensures Fixup(c, freq, v).0.brp == k * c.brpInc && c.brpMin <= k * c.brpInc <= c.brpMax
  {
    hide Fixup;
    k := (x / c.brpInc + 499999999) / NANOSECONDS;
    StepsFit(x, c.brpInc, k);
    FixupSuccess(c, freq, v, x, k);
  }

  lemma FixupSuccess(c: Limits, freq: u32, v: Timing, x: nat, k: nat)
    requires 1 <= c.brpInc && v.propSeg >= 0 && v.phaseSeg1 >= 0 && v.phaseSeg2 >= 0
    requires Fixup(c, freq, v).1 == Success && x == freq * v.tq
    requires k == (x / c.brpInc + 499999999) / NANOSECONDS && 0 <= k * c.brpInc < 0x1_0000_0000
    ensures Fixup(c, freq, v).0.brp == k * c.brpInc && c.brpMin <= k * c.brpInc <= c.brpMax
  {
    assert x / 1 == x && k * 1 == k;
    var brp := k * c.brpInc;
    assert AsUnsigned(brp) == brp;
  }

  lemma StepsFit(x: nat, inc: nat, k: nat)
    requires inc > 0 && k == (x / inc + 499999999) / NANOSECONDS
    ensures 0 <= k * inc <= x / NANOSECONDS + inc
  {
    var f, r := Floor(x, inc);
    if k > 0 {
      var steps := (k - 1) * inc;
      InUnits(k - 1, inc);
      Products((k - 1) * NANOSECONDS, f, inc, inc);
      DivAbove(x, NANOSECONDS, steps);
      assert k * inc == steps + inc;
    }
  }

  lemma InUnits(k: nat, inc: nat)
    ensures k * NANOSECONDS * inc == k * (inc * NANOSECONDS) == k * inc * NANOSECONDS
  {}

  lemma NearestStep(x: nat, inc: nat, k: nat, j: nat)
    requires inc > 0 && k == (x / inc + 499999999) / NANOSECONDS
    ensures Abs(k * (inc * NANOSECONDS) - x) <= Abs(j * (inc * NANOSECONDS) - x) + 2 * (inc - 1)
  {
    var f, r := Floor(x, inc);
    var unit := inc * NANOSECONDS;
    StepBounds(f, k, inc);
    if j != k {
      Apart(j, k, unit);
    }
  }

  lemma StepBounds(f: nat, k: nat, inc: nat)
    requires k * NANOSECONDS - 499999999 <= f <= k * NANOSECONDS + 500000000
    ensures k * (inc * NANOSECONDS) - 499999999 * inc <= f * inc <= k * (inc * NANOSECONDS) + 500000000 * inc
  {
    InUnits(k, inc);
    Products(k * NANOSECONDS, f + 499999999, inc, inc);
    Products(f, k * NANOSECONDS + 500000000, inc, inc);
    Spread(f, 499999999, inc);
    Spread(k * NANOSECONDS, 500000000, inc);
  }

  lemma Apart(j: nat, k: nat, unit: nat)
    requires j != k
    ensures j * unit + unit <= k * unit || k * unit + unit <= j * unit
  {
    Spread(j, 1, unit);
    Spread(k, 1, unit);
    if j < k {
      Products(j + 1, k, unit, unit);
    } else {
      Products(k + 1, j, unit, unit);
    }
  }

  // ----- Three controllers ------------------------------------------------------------------------------

  /** A rate of a million is only reached by dividing exactly. */
  lemma ExactDivisor(n: nat, x: nat)
    requires 0 < x && n < 1000000 && n * 1000000 / x == 1000000
    ensures x == n
  {
    if x < n {
      DivAbove(n * 1000000, x, 1000001);
    } else if x > n {
      DivBelow(n * 1000000, x, 1000000);
    }
  }

  /** An exact round divides the clock without remainder. */
  lemma ExactRound(i: Input, t: int, n: nat)
    requires i.Sane() && Exact(i, t) && i.bitrate == 1000000 && i.freq == n * 1000000 && n < 1000000
    ensures Brp(i, t) >= 1 && Brp(i, t) * (1 + t / 2) == n
  {
    hide Brp;
    Products(1, Brp(i, t), 1, 1 + t / 2);
    ExactDivisor(n, Brp(i, t) * (1 + t / 2));
  }

  /**
   An 8 MHz clock, one megabit per second and a sample point of 0.1 or 550 percent: both exact rounds are passed
   over, and another bit rate is stored with an error of zero.
   */
  lemma MisleadingRate(i: Input)
    requires i.sample == 1 || i.sample == 5500
    requires i == Input(Limits(1, 16, 1, 8, 4, 1, 64, 1), 8000000, 1000000, i.sample)
    ensures i.Sane() && !Sampled(i) && !TooFar(i.bitrate, Found(i).error)
    ensures Found(i).brp > 0 && Found(i).error == 0 && Found(i).rate != i.bitrate
  {
    EightMegahertz(i);
    forall t | Exact(i, t) ensures t < 49 && !SampleFits(i, t) {
      EightDivides(i, t);
    }
    hide Found, Exact, SampleFits, Candidate, TooFar;
    SucceedsExactlyWhenClose(i);
    ConsistentExactlyWhenSampled(i);
    CloseWhenBlind(i);
    CloseEnough(i.bitrate, 0);
  }

  lemma EightMegahertz(i: Input)
    requires i == Input(Limits(1, 16, 1, 8, 4, 1, 64, 1), 8000000, 1000000, i.sample) && i.sample <= 5500
    ensures i.Sane() && Exact(i, 14) && Candidate(i, 14) && Candidate(i, 49)
  {}

  /** The exact rounds have 8 or 4 quanta, and a sample point that is not within the bit puts all of them before it. */
  lemma EightDivides(i: Input, t: int)
    requires i == Input(Limits(1, 16, 1, 8, 4, 1, 64, 1), 8000000, 1000000, i.sample) && i.Sane() && Exact(i, t)
    requires i.sample == 1 || 1500 <= i.sample <= 5500
    ensures t / 2 == 7 || t / 2 == 3
    ensures UpdateSpt(i.c, i.sample, t / 2) == if t / 2 == 7 then Split(16, -9, 2125) else Split(16, -13, 4250)
  {
    hide *;
    ExactRound(i, t, 8);
    EightRounds(i, t);
    EightQuanta(Brp(i, t), 1 + t / 2);
    BehindTheBit(i.c, i.sample, t / 2);
  }

  lemma EightRounds(i: Input, t: int)
    requires i == Input(Limits(1, 16, 1, 8, 4, 1, 64, 1), 8000000, 1000000, i.sample) && i.Sane() && Exact(i, t)
    ensures 1 + t / 2 >= 3
  {
    hide Error, Legal;
  }

  lemma BehindTheBit(c: Limits, sample: u32, tseg: nat)
    requires c == Limits(1, 16, 1, 8, 4, 1, 64, 1) && (tseg == 7 || tseg == 3)
    requires sample == 1 || 1500 <= sample <= 5500
    ensures UpdateSpt(c, sample, tseg) == if tseg == 7 then Split(16, -9, 2125) else Split(16, -13, 4250)
  {
    var early := sample * (tseg + 1) / 1000;
    if sample == 1 {
      assert early == 0;
    } else {
      DivAbove(sample * (tseg + 1), 1000, tseg + 2);
      IntAsUnsigned(tseg + 1 - early);
    }
    assert AsUnsigned(-1) > 16 && AsUnsigned(tseg - 8) > 16;
  }

  lemma EightQuanta(brp: nat, quanta: nat)
    requires brp * quanta == 8 && quanta >= 3 && brp >= 1
    ensures quanta == 4 || quanta == 8
  {
    if brp >= 3 {
      Products(3, brp, 3, quanta);
    }
  }

  /** The same controller without a requested sample point: 5 and 2 quanta around the recommended 75 percent. */
  lemma RecommendedTiming(i: Input)
    requires i == Input(Limits(1, 16, 1, 8, 4, 1, 64, 1), 8000000, 1000000, 0)
    ensures i.Sane() && Sampled(i) && !TooFar(i.bitrate, Found(i).error) && Found(i).brp == 1
    ensures Report(i, Found(i)) == Timing(1000000, 750, 125, 2, 3, 2, 1, 1)
  {
    EightMegahertz(i);
    DefaultsAreSampled(i);
    var s := BestOfEight(i);
    SucceedsExactlyWhenClose(i);
    ReportOfEight(i, Found(i));
  }

  lemma BestOfEight(i: Input) returns (s: int)
    requires i == Input(Limits(1, 16, 1, 8, 4, 1, 64, 1), 8000000, 1000000, 0)
    requires i.Sane() && Sampled(i) && Exact(i, 14) && Candidate(i, 14)
    ensures Found(i).tseg == 7 && Found(i).brp == 1 && !TooFar(i.bitrate, Found(i).error)
  {
    hide *;
    SampledExactly(i);
    s := ExactIsBest(i, 14);
    ExactRound(i, s, 8);
    OneStep(Brp(i, s), 1 + s / 2);
  }

  lemma OneStep(brp: nat, quanta: nat)
    requires brp * quanta == 8 && quanta >= 8
    ensures brp == 1 && quanta == 8
  {
    if brp >= 2 {
      Products(2, brp, 8, quanta);
    }
  }

  lemma SampledExactly(i: Input)
    requires i == Input(Limits(1, 16, 1, 8, 4, 1, 64, 1), 8000000, 1000000, 0)
    ensures SampleError(i, 14) == 0
  {
    SampleOfEight(i.c);
    hide UpdateSpt;
  }

  lemma SampleOfEight(c: Limits)
    requires c == Limits(1, 16, 1, 8, 4, 1, 64, 1)
    ensures UpdateSpt(c, 750, 7) == Split(5, 2, 750)
  {}

  /** An exact round that meets the sample point exactly is only beaten by an earlier one that does so too. */
  lemma ExactIsBest(i: Input, t: int) returns (s: int)
    requires i.Sane() && Sampled(i) && Exact(i, t) && Candidate(i, t) && SampleError(i, t) == 0
    ensures Exact(i, s) && s >= t && Found(i).brp == Brp(i, s) && Found(i).tseg == s / 2 && Found(i).error == 0
    ensures !TooFar(i.bitrate, Found(i).error)
  {
    SearchIsLeast(i);
    hide Found, Sampled, SampleError, UpdateSpt, Brp, Stored, Legal, Error;
    s :| Candidate(i, s) && Found(i) == Stored(i, s) && forall u :: Candidate(i, u) ==> NoWorse(i, s, u);
    assert NoWorse(i, s, t);
    CloseAsExact(i, s, t);
  }

  lemma ReportOfEight(i: Input, b: Best)
    requires i == Input(Limits(1, 16, 1, 8, 4, 1, 64, 1), 8000000, 1000000, 0) && b.tseg == 7 && b.brp == 1
    ensures Report(i, b) == Timing(1000000, 750, 125, 2, 3, 2, 1, 1)
  {
    SampleOfEight(i.c);
    hide UpdateSpt;
  }

  /**
   The same controller with a sample point of 190 percent: the requested rate is stored, but with segments that the
   controller does not have.
   */
  lemma SegmentsOutsideLimits(i: Input)
    requires i == Input(Limits(1, 16, 1, 8, 4, 1, 64, 1), 8000000, 1000000, 1900)
    ensures i.Sane() && Sampled(i) && !TooFar(i.bitrate, Found(i).error) && Found(i).rate == i.bitrate
    ensures Found(i).brp > 0 && Report(i, Found(i)).phaseSeg2 > i.c.tseg2Max && !Splittable(i, Found(i).tseg)
  {
    EightMegahertz(i);
    SampledAtEight(i);
    SucceedsExactlyWhenClose(i);
    var s := ExactIsFound(i, 14);
    hide *;
    EightDivides(i, s);
    FoundInLimits(i);
    NegativeSegment(i, Found(i));
  }

  lemma SampledAtEight(i: Input)
    requires i == Input(Limits(1, 16, 1, 8, 4, 1, 64, 1), 8000000, 1000000, 1900) && i.Sane() && Exact(i, 14)
    ensures Sampled(i)
  {
    EightDivides(i, 14);
    hide Exact, UpdateSpt;
    assert SampleFits(i, 14);
  }

  lemma NegativeSegment(i: Input, b: Best)
    requires i.Sane() && b.brp > 0 && i.sample != 0 && i.TsegMin() <= b.tseg <= i.TsegMax()
    requires i.c.tseg2Max < 0x8000_0000 && -0x8000_0000 <= UpdateSpt(i.c, i.sample, b.tseg).tseg2 < 0
    ensures Report(i, b).phaseSeg2 > i.c.tseg2Max && !Splittable(i, b.tseg)
  {
    SplitFits(i, b.tseg);
    IntAsUnsigned(UpdateSpt(i.c, i.sample, b.tseg).tseg2);
    hide UpdateSpt, AsUnsigned, Splittable;
  }

  /**
   A 48 MHz clock and a prescaler that can only be 16: the one admissible round is exact, but its sample point is
   never accepted. The check passes and the bit rate is divided by a prescaler of zero.
   */
  lemma ZeroPrescalerHappens(i: Input)
    requires i == Input(Limits(1, 16, 1, 8, 4, 16, 16, 1), 48000000, 1000000, 1)
    ensures i.Sane() && ZeroPrescaler(i) && !TooFar(i.bitrate, Found(i).error) && Found(i).brp == 0
  {
    assert Exact(i, 4);
    assert UpdateSpt(i.c, 1, 2).sample == 5666;
    forall t | t > 4 ensures !(Round(i, t) && Legal(i, t)) {
      if t >= 6 && Round(i, t) {
        DivBelow(48000000, (1 + t / 2) * 1000000, 13);
      }
    }
    assert NoCandidateAbove(i, 4);
    hide Brp, UpdateSpt, Rate;
    assert forall t :: Exact(i, t) ==> t == 4;
    assert !SampleFits(i, 4);
    SucceedsExactlyWhenClose(i);
  }

  /** A 750 MHz clock and a prescaler of two: the expert-mode check does not reproduce the calculated timing. */
  lemma FastClockDiffers(i: Input)
    requires i == Input(Limits(240, 256, 120, 128, 16, 1, 512, 1), 750000000, 1000000, 0)
    ensures i.Sane() && Sampled(i) && !TooFar(i.bitrate, Found(i).error) && Found(i).brp == 2
    ensures var v := Report(i, Found(i));
            v.propSeg >= 0 && v.phaseSeg1 >= 0 && v.phaseSeg2 >= 0 && Fixup(i.c, i.freq, v) != (v, Success)
  {
    FastClockFound(i);
    hide Found, Sampled, Report, Fixup, TooFar;
    FixupReproduces(i);
  }

  lemma FastClockFound(i: Input)
    requires i == Input(Limits(240, 256, 120, 128, 16, 1, 512, 1), 750000000, 1000000, 0)
    ensures i.Sane() && Sampled(i) && !TooFar(i.bitrate, Found(i).error) && Found(i).brp == 2
  {
    hide *;
    FastClockExact(i);
    DefaultsAreSampled(i);
    var s := ExactIsFound(i, 748);
    ExactRound(i, s, 750);
    FastClockRounds(i);
    TwoSteps(Brp(i, s), 1 + s / 2);
  }

  lemma FastClockRounds(i: Input)
    requires i == Input(Limits(240, 256, 120, 128, 16, 1, 512, 1), 750000000, 1000000, 0)
    ensures i.TsegMin() == 360 && i.TsegMax() == 384
  {}

  /** If some round is exact, the one that is found is. */
  lemma ExactIsFound(i: Input, t: int) returns (s: int)
    requires i.Sane() && Sampled(i) && Exact(i, t) && Candidate(i, t)
    ensures Exact(i, s) && Found(i).brp == Brp(i, s) && Found(i).tseg == s / 2 && Found(i).error == 0
    ensures !TooFar(i.bitrate, Found(i).error)
    ensures 2 * i.TsegMin() <= s <= 2 * i.TsegMax() + 1
  {
    SearchIsLeast(i);
    hide Exact, Found, Sampled, SampleError, UpdateSpt, NoWorse, Brp, Stored;
    s :| Candidate(i, s) && Found(i) == Stored(i, s) && forall u :: Candidate(i, u) ==> NoWorse(i, s, u);
    CloseAsExact(i, s, t);
  }

  lemma CloseAsExact(i: Input, s: int, t: int)
    requires i.Sane() && Candidate(i, s) && Candidate(i, t) && Exact(i, t) && NoWorse(i, s, t)
    ensures Exact(i, s) && Stored(i, s).brp == Brp(i, s) && Stored(i, s).tseg == s / 2 && Stored(i, s).error == 0
  {}

  lemma FastClockExact(i: Input)
    requires i == Input(Limits(240, 256, 120, 128, 16, 1, 512, 1), 750000000, 1000000, 0)
    ensures i.Sane() && Exact(i, 748) && Candidate(i, 748)
  {}

  lemma TwoSteps(brp: nat, quanta: nat)
    requires brp * quanta == 750 && 361 <= quanta <= 385
    ensures brp == 2
  {
    if brp >= 3 {
      Products(3, brp, 361, quanta);
    } else if brp <= 1 {
      Products(brp, 1, quanta, 385);
    }
  }

  // ----- The kernel's structure -----------------------------------------------------------------------

  lemma SplitAddsUp(c: Limits, sample: u32, tseg: nat)
    ensures UpdateSpt(c, sample, tseg).tseg1 + UpdateSpt(c, sample, tseg).tseg2 == tseg
  {}

  /** The sample point to aim at: the requested one, or the one that is recommended for the bit rate. */
  function Aim(bitrate: int, samplePoint: int): (aim: int)
    ensures samplePoint != 0 ==> aim == samplePoint
    ensures samplePoint == 0 ==> aim in {750, 800, 875}
    ensures samplePoint == 0 ==> (aim == 750 <==> bitrate >= 800001) && (aim == 875 <==> bitrate <= 500000)
  {
    if samplePoint != 0 then samplePoint else if bitrate > 800000 then 750 else if bitrate > 500000 then 800 else 875
  }

  lemma AimIsTaken(i: Input)
    requires i.Sane()
    ensures var w := i.(sample := Aim(i.bitrate, i.sample));
            w.Sane() && Found(i) == Found(w) && (Found(i).brp > 0 ==> Report(i, Found(i)) == Report(w, Found(w)))
  {
    if i.sample == 0 {
      RecommendedSample(i);
    }
  }

  class CanBittiming {
    var bitrate: int
    var samplePoint: int
    var tq: int
    var propSeg: int
    var phaseSeg1: int
    var phaseSeg2: int
    var sjw: int
    var brp: int

    ghost function Value(): Timing
      reads this
    {
      Timing(bitrate, samplePoint, tq, propSeg, phaseSeg1, phaseSeg2, sjw, brp)
    }

    /** Calculates parameters for the requested bit rate and sample point; on failure nothing changes. */
    method CalcBittiming(c: Limits, freq: u32) returns (err: Code)
      requires 0 <= bitrate < 0x1_0000_0000 && 0 <= samplePoint < 0x1_0000_0000
      requires var i := Input(c, freq, bitrate, samplePoint); i.Sane() && !ZeroPrescaler(i)
      modifies this
      ensures var i := old(Input(c, freq, bitrate, Aim(bitrate, samplePoint)));
              && i.Sane() && var b := Found(i);
                 if TooFar(i.bitrate, b.error) then err == DomainError && Value() == old(Value())
                 else err == Success && b.brp > 0 && Value() == Report(i, b)
    {
      var i := Input(c, freq, bitrate, samplePoint);
      var best := Search(i);
      SucceedsExactlyWhenClose(i);
      AimIsTaken(i);
      hide Found, Scan, UpdateSpt, AsUnsigned;
      if best.error != 0 {
        var error := best.error * 1000 / bitrate;
        if error > CAN_CALC_MAX_ERROR {
          return DomainError;
        }
      }
      StoreReport(i, best);
      err := Success;
    }

    method StoreReport(i: Input, best: Best)
      requires i.Sane() && best.brp > 0
      modifies this
      ensures Value() == Report(i, best)
    {
      var split := UpdateSpt(i.c, i.SamplePoint(), best.tseg);
      SplitAddsUp(i.c, i.SamplePoint(), best.tseg);
      hide UpdateSpt, AsUnsigned;
      samplePoint := split.sample;
      tq := AsUnsigned(best.brp * NANOSECONDS / i.freq);
      propSeg := split.tseg1 / 2;
      phaseSeg1 := split.tseg1 - propSeg;
      phaseSeg2 := AsUnsigned(split.tseg2);
      sjw := 1;
      brp := best.brp;
      var quanta := split.tseg1 + split.tseg2 + 1;
      Products(1, brp, 1, quanta);
      bitrate := i.freq / (brp * quanta);
    }

    /** Checks given segments and recovers the prescaler from the time quantum. */
    method FixupBittiming(c: Limits, freq: u32) returns (err: Code)
      requires 1 <= c.brpInc && propSeg >= 0 && phaseSeg1 >= 0 && phaseSeg2 >= 0
      requires !FixupDividesByZero(c, freq, Value())
      modifies this
      ensures (Value(), err) == Fixup(c, freq, old(Value()))
    {
      ghost var v := Value();
      var tseg1 := AsUnsigned(propSeg + phaseSeg1);
      if sjw == 0 {
        sjw := 1;
      }
      if sjw > c.sjwMax || tseg1 < c.tseg1Min || tseg1 > c.tseg1Max
         || phaseSeg2 < c.tseg2Min || phaseSeg2 > c.tseg2Max {
        return RangeError;
      }
      var brp64 := freq * tq;
      if c.brpInc > 1 {
        brp64 := brp64 / c.brpInc;
      }
      brp64 := brp64 + (500000000 - 1);
      brp64 := brp64 / NANOSECONDS;
      if c.brpInc > 1 {
        brp64 := brp64 * c.brpInc;
      }
      brp := AsUnsigned(brp64);
      assert brp == Recovered(c, freq, v.tq);
      hide Recovered;
      if brp < c.brpMin || brp > c.brpMax {
        return InvalidPrescaler;
      }
      var alltseg := tseg1 + phaseSeg2 + 1;
      assert Fixup(c, freq, v).1 == Success && Periods(brp, alltseg) > 0;
      bitrate := freq / Periods(brp, alltseg);
      samplePoint := (tseg1 + 1) * 1000 / alltseg;
      err := Success;
    }

    /** Without a time quantum the parameters are calculated, with one they are checked. */
    method GetBittiming(c: Limits, freq: u32) returns (err: Code)
      requires 0 <= bitrate < 0x1_0000_0000 && 0 <= samplePoint < 0x1_0000_0000
      requires tq == 0 ==> var i := Input(c, freq, bitrate, samplePoint); i.Sane() && !ZeroPrescaler(i)
      requires tq != 0 ==> 1 <= c.brpInc && propSeg >= 0 && phaseSeg1 >= 0 && phaseSeg2 >= 0
                           && !FixupDividesByZero(c, freq, Value())
      modifies this
      ensures old(tq) != 0 ==> (Value(), err) == Fixup(c, freq, old(Value()))
      ensures old(tq) == 0 ==>
        var i := old(Input(c, freq, bitrate, Aim(bitrate, samplePoint)));
        && i.Sane() && var b := Found(i);
           err == (if TooFar(i.bitrate, b.error) then DomainError else Success)
           && (err == Success ==> b.brp > 0 && Value() == Report(i, b))
    {
      if tq == 0 {
        err := CalcBittiming(c, freq);
      } else {
        err := FixupBittiming(c, freq);
      }
    }
  }
}
