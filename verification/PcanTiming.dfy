/**
  The PCAN bit-timing solver: `exact_phase` searches for a register setting that meets a
  requested bitrate, sample point and jump width with no error at the 80 MHz PCAN clock, and
  `timing_to_public` reads a setting back (adapters/pcan/src/channel.rs). The search runs on
  32-bit words whose every sum and product is checked not to overflow.
 */
module PcanTiming {
  import opened Prelude
  import opened Arithmetic

  newtype Word = x: int | 0 <= x <= 0xFFFF_FFFF

  const CLOCK_HZ: int := 80_000_000
  const MAX_BRP := 1024

  datatype Phase = Nominal | Data

  /** The requested timing (crates/robot-hal-can/src/config.rs). */
  datatype BitTiming = BitTiming(bitrate: nat, samplePoint: Option<nat>, sjw: Option<nat>)

  /** Prescaler, segments and jump width, in time quanta. */
  datatype PhaseTiming = PhaseTiming(brp: nat, tseg1: nat, tseg2: nat, sjw: nat)

  /** The widths of the source's field types. */
  predicate Representable(t: BitTiming) {
    && t.bitrate <= U32_MAX
    && (t.samplePoint.Some? ==> t.samplePoint.value <= U16_MAX)
    && (t.sjw.Some? ==> t.sjw.value <= U16_MAX)
  }

  function MaxTseg1(phase: Phase): nat { if phase.Nominal? then 256 else 32 }
  function MaxTseg2(phase: Phase): nat { if phase.Nominal? then 128 else 16 }
  function PreferredQuanta(phase: Phase): nat { if phase.Nominal? then 20 else 10 }

  function Quanta(p: PhaseTiming): nat { 1 + p.tseg1 + p.tseg2 }

  function Distance(p: PhaseTiming, phase: Phase): nat { AbsDiff(Quanta(p), PreferredQuanta(phase)) }

  function AbsDiff(a: nat, b: nat): nat { if a < b then b - a else a - b }

  function JumpWidth(sjw: Option<nat>, tseg1: nat, tseg2: nat): nat {
    if sjw.Some? then sjw.value else Min(Min(tseg1, tseg2), 4)
  }

  /** The register ranges the solver searches. */
  predicate InRange(p: PhaseTiming, phase: Phase) {
    && 1 <= p.brp <= MAX_BRP
    && 1 <= p.tseg1 <= MaxTseg1(phase)
    && 2 <= p.tseg2 <= MaxTseg2(phase)
    && 1 <= p.sjw <= p.tseg1 && p.sjw <= p.tseg2
  }

  /** The jump width asked for, or else the widest of at most four quanta that both segments can hold. */
  predicate JumpIs(p: PhaseTiming, sjw: Option<nat>) {
    match sjw
    case Some(width) => p.sjw == width
    case None =>
      p.sjw <= 4 && p.sjw <= p.tseg1 && p.sjw <= p.tseg2 && (p.sjw == 4 || p.sjw == p.tseg1 || p.sjw == p.tseg2)
  }

  /** Zero error: clock, sample point in thousandths and jump width all come out exactly. */
  predicate Exact(p: PhaseTiming, bitrate: nat, samplePoint: nat, sjw: Option<nat>) {
    && p.brp * Quanta(p) * bitrate == CLOCK_HZ
    && (1 + p.tseg1) * 1000 == samplePoint * Quanta(p)
    && JumpIs(p, sjw)
  }

  predicate Meets(p: PhaseTiming, bitrate: nat, samplePoint: nat, sjw: Option<nat>, phase: Phase) {
    match p
    case PhaseTiming(_, _, _, _) => InRange(p, phase) && Exact(p, bitrate, samplePoint, sjw)
  }

  /** Nearer to the preferred number of quanta; on a tie the smaller number. */
  predicate NoWorse(p: PhaseTiming, q: PhaseTiming, phase: Phase) {
    Distance(p, phase) < Distance(q, phase) || (Distance(p, phase) == Distance(q, phase) && Quanta(p) <= Quanta(q))
  }

  function EffectiveSamplePoint(t: BitTiming, fallback: nat): nat {
    if t.samplePoint.Some? then t.samplePoint.value else fallback
  }

  // ----- Arithmetic of one candidate -----

  /** With the bitrate dividing the clock, exactness in the clock is exactness of the divisor. */
  lemma DivisorIs(product: nat, bitrate: nat)
    requires bitrate > 0 && CLOCK_HZ % bitrate == 0
    ensures product * bitrate == CLOCK_HZ <==> product == CLOCK_HZ / bitrate
  {
    var divisor := CLOCK_HZ / bitrate;
    assert divisor * bitrate == CLOCK_HZ;
    if product * bitrate == CLOCK_HZ {
      EuclideanIsUnique(CLOCK_HZ, bitrate, product, 0);
    }
  }

  lemma BitrateDivides(p: PhaseTiming, bitrate: nat, samplePoint: nat, sjw: Option<nat>)
    requires Exact(p, bitrate, samplePoint, sjw)
    ensures bitrate > 0 && CLOCK_HZ % bitrate == 0
  {
    var product := p.brp * Quanta(p);
    assert product * bitrate == CLOCK_HZ;
    if bitrate == 0 {
      assert false;
    }
    MultipleHasNoRemainder(product, bitrate);
  }

  /** The prescaler of an exact candidate is the divisor split over its quanta. */
  lemma PrescalerIs(brp: nat, total: nat, divisor: nat)
    requires total > 0
    ensures brp * total == divisor <==> divisor % total == 0 && brp == divisor / total
  {
    if brp * total == divisor {
      MultipleHasNoRemainder(brp, total);
    }
  }

  /** What the search tests for one pair (total, tseg2) is exactly what a candidate with those must meet. */
  lemma CandidateIff(p: PhaseTiming, bitrate: nat, samplePoint: nat, sjw: Option<nat>, phase: Phase)
    requires bitrate > 0 && CLOCK_HZ % bitrate == 0
    ensures var divisor, total := CLOCK_HZ / bitrate, Quanta(p);
            Meets(p, bitrate, samplePoint, sjw, phase) <==>
            && divisor % total == 0 && p.brp == divisor / total && 1 <= p.brp <= MAX_BRP
            && 2 <= p.tseg2 <= MaxTseg2(phase) && 1 <= p.tseg1 <= MaxTseg1(phase)
            && (1 + p.tseg1) * 1000 == samplePoint * total
            && p.sjw == JumpWidth(sjw, p.tseg1, p.tseg2) && 1 <= p.sjw <= p.tseg1 && p.sjw <= p.tseg2
  {
    DivisorIs(p.brp * Quanta(p), bitrate);
    PrescalerIs(p.brp, Quanta(p), CLOCK_HZ / bitrate);
  }

  /** The quanta of a candidate lie in the range the outer loop walks. */
  lemma QuantaBound(p: PhaseTiming, bitrate: nat, samplePoint: nat, sjw: Option<nat>, phase: Phase)
    requires Meets(p, bitrate, samplePoint, sjw, phase)
    ensures bitrate > 0 && CLOCK_HZ % bitrate == 0
    ensures 4 <= Quanta(p) <= 1 + MaxTseg1(phase) + MaxTseg2(phase) && Quanta(p) <= CLOCK_HZ / bitrate
  {
    BitrateDivides(p, bitrate, samplePoint, sjw);
    DivisorIs(p.brp * Quanta(p), bitrate);
    MulAtLeast(p.brp, Quanta(p));
  }

  /** A number of quanta has at most one exact candidate, so the best candidate is unique. */
  lemma SameQuantaSameTiming(p: PhaseTiming, q: PhaseTiming, bitrate: nat, samplePoint: nat, sjw: Option<nat>, phase: Phase)
    requires Meets(p, bitrate, samplePoint, sjw, phase) && Meets(q, bitrate, samplePoint, sjw, phase)
    requires Quanta(p) == Quanta(q)
    ensures p == q
  {
    QuantaBound(p, bitrate, samplePoint, sjw, phase);
    CandidateIff(p, bitrate, samplePoint, sjw, phase);
    CandidateIff(q, bitrate, samplePoint, sjw, phase);
  }

  lemma BestIsUnique(p: PhaseTiming, q: PhaseTiming, bitrate: nat, samplePoint: nat, sjw: Option<nat>, phase: Phase)
    requires Meets(p, bitrate, samplePoint, sjw, phase) && Meets(q, bitrate, samplePoint, sjw, phase)
    requires NoWorse(p, q, phase) && NoWorse(q, p, phase)
    ensures p == q
  {
    SameQuantaSameTiming(p, q, bitrate, samplePoint, sjw, phase);
  }

  // ----- The search -----

  datatype Best = Best(distance: Word, timing: PhaseTiming)

  /** `best` is the best candidate among those with fewer than `total` quanta. */
  ghost predicate BestBelow(best: Option<Best>, total: int, bitrate: nat, samplePoint: nat, sjw: Option<nat>, phase: Phase) {
    match best
    case None => forall p :: Meets(p, bitrate, samplePoint, sjw, phase) ==> Quanta(p) >= total
    case Some(b) =>
      && Meets(b.timing, bitrate, samplePoint, sjw, phase) && Quanta(b.timing) < total
      && b.distance as int == Distance(b.timing, phase)
      && forall p :: Meets(p, bitrate, samplePoint, sjw, phase) && Quanta(p) < total ==> NoWorse(b.timing, p, phase)
  }

  /** The inner loop: the candidate with exactly `total` quanta, if there is one. */
  method ExactWithQuanta(total: Word, brp: Word, bitrate: nat, samplePoint: Word, sjw: Option<nat>, phase: Phase)
    returns (found: Option<PhaseTiming>)
    requires bitrate > 0 && CLOCK_HZ % bitrate == 0 && samplePoint <= 950
    requires 3 <= total as int <= 1 + MaxTseg1(phase) + MaxTseg2(phase)
    requires CLOCK_HZ / bitrate % total as int == 0 && brp as int == CLOCK_HZ / bitrate / total as int && 1 <= brp <= 1024
    requires sjw.Some? ==> sjw.value <= U16_MAX
    ensures found.Some? ==> Meets(found.value, bitrate, samplePoint as int, sjw, phase) && Quanta(found.value) == total as int
    ensures found.None? ==> forall p :: Meets(p, bitrate, samplePoint as int, sjw, phase) ==> Quanta(p) != total as int
  {
    found := None;
    var maxTseg2: Word := MaxTseg2(phase) as Word;
    var last := if maxTseg2 < total - 2 then maxTseg2 else total - 2;
    var tseg2: Word := 2;
    while tseg2 <= last
      invariant 2 <= tseg2 && (tseg2 as int <= last as int + 1 || last < 2)
      invariant found.Some? ==> Meets(found.value, bitrate, samplePoint as int, sjw, phase) && Quanta(found.value) == total as int
      invariant found.None? ==>
                  forall p :: Meets(p, bitrate, samplePoint as int, sjw, phase) && p.tseg2 < tseg2 as int ==> Quanta(p) != total as int
      decreases last as int - tseg2 as int
    {
      var candidate := TrySegments(total, brp, tseg2, samplePoint, sjw, phase);
      ghost var tseg1 := total as int - 1 - tseg2 as int;
      ghost var here := PhaseTiming(brp as int, tseg1, tseg2 as int, JumpWidth(sjw, tseg1, tseg2 as int));
      SegmentTest(here, total as int, bitrate, samplePoint as int, sjw, phase);
      if found.None? {
        found := candidate;
      }
      tseg2 := tseg2 + 1;
    }
    forall p | Meets(p, bitrate, samplePoint as int, sjw, phase) && found.None? ensures Quanta(p) != total as int {
      assert p.tseg2 as int <= last as int || Quanta(p) != total as int;
    }
  }

  /** One turn of the inner loop: the setting with these quanta and this second segment, if it passes the tests. */
  method TrySegments(total: Word, brp: Word, tseg2: Word, samplePoint: Word, sjw: Option<nat>, phase: Phase)
    returns (candidate: Option<PhaseTiming>)
    requires samplePoint <= 950 && 3 <= total as int <= 1 + MaxTseg1(phase) + MaxTseg2(phase)
    requires sjw.Some? ==> sjw.value <= U16_MAX
    requires 2 <= tseg2 <= total - 2
    ensures var tseg1 := total as int - 1 - tseg2 as int;
            var width := JumpWidth(sjw, tseg1, tseg2 as int);
            candidate ==
            if && 1 <= tseg1 <= MaxTseg1(phase)
               && (1 + tseg1) * 1000 == samplePoint as int * total as int
               && 1 <= width <= tseg1 && width <= tseg2 as int
            then Some(PhaseTiming(brp as int, tseg1, tseg2 as int, width))
            else None
  {
    var maxTseg1: Word := MaxTseg1(phase) as Word;
    var tseg1 := total - 1 - tseg2;
    if tseg1 == 0 || tseg1 > maxTseg1 { return None; }
    assert samplePoint as int * total as int <= 950 * total as int by { MulMonotone(samplePoint as int, 950, total as int); }
    if (1 + tseg1) * 1000 != samplePoint * total { return None; }
    var width: Word :=
      if sjw.Some? then sjw.value as Word
      else (var least := if tseg1 < tseg2 then tseg1 else tseg2; if least < 4 then least else 4);
    if width == 0 || width > tseg1 || width > tseg2 { return None; }
    candidate := Some(PhaseTiming(brp as int, tseg1 as int, tseg2 as int, width as int));
  }

  /** The tests of the inner loop decide whether this setting meets the request; no other has its segments. */
  lemma SegmentTest(here: PhaseTiming, total: nat, bitrate: nat, samplePoint: nat, sjw: Option<nat>, phase: Phase)
    requires bitrate > 0 && CLOCK_HZ % bitrate == 0 && Quanta(here) == total
    requires CLOCK_HZ / bitrate % total == 0 && here.brp == CLOCK_HZ / bitrate / total && 1 <= here.brp <= MAX_BRP
    requires here.sjw == JumpWidth(sjw, here.tseg1, here.tseg2) && 2 <= here.tseg2 <= MaxTseg2(phase)
    ensures Meets(here, bitrate, samplePoint, sjw, phase) <==>
            && 1 <= here.tseg1 <= MaxTseg1(phase)
            && (1 + here.tseg1) * 1000 == samplePoint * total
            && 1 <= here.sjw <= here.tseg1 && here.sjw <= here.tseg2
    ensures forall p :: Meets(p, bitrate, samplePoint, sjw, phase) && Quanta(p) == total && p.tseg2 == here.tseg2 ==> p == here
  {
    CandidateIff(here, bitrate, samplePoint, sjw, phase);
    OnlyThis(here, total, bitrate, samplePoint, sjw, phase);
  }

  /** Quanta and second segment determine the candidate. */
  lemma OnlyThis(here: PhaseTiming, total: nat, bitrate: nat, samplePoint: nat, sjw: Option<nat>, phase: Phase)
    requires bitrate > 0 && CLOCK_HZ % bitrate == 0 && Quanta(here) == total
    requires here.brp == CLOCK_HZ / bitrate / total && here.sjw == JumpWidth(sjw, here.tseg1, here.tseg2)
    ensures forall p :: Meets(p, bitrate, samplePoint, sjw, phase) && Quanta(p) == total && p.tseg2 == here.tseg2 ==> p == here
  {
    forall p | Meets(p, bitrate, samplePoint, sjw, phase) && Quanta(p) == total && p.tseg2 == here.tseg2 ensures p == here {
      CandidateIff(p, bitrate, samplePoint, sjw, phase);
    }
  }

  /**
    The solver succeeds exactly when the sample point is supported and some in-range setting is
    exact, and then returns the best one. `fallback` is the sample point used when none is asked for.
   */
  method ExactPhase(timing: BitTiming, phase: Phase, fallback: nat) returns (r: Option<PhaseTiming>)
    requires Representable(timing) && fallback <= U16_MAX
    ensures var sp := EffectiveSamplePoint(timing, fallback);
            r.Some? <==> 500 <= sp <= 950 && exists p :: Meets(p, timing.bitrate, sp, timing.sjw, phase)
    ensures r.Some? ==>
              var sp := EffectiveSamplePoint(timing, fallback);
              && Meets(r.value, timing.bitrate, sp, timing.sjw, phase)
              && forall p :: Meets(p, timing.bitrate, sp, timing.sjw, phase) ==> NoWorse(r.value, p, phase)
  {
    var samplePoint := EffectiveSamplePoint(timing, fallback);
    if !(500 <= samplePoint <= 950) { return None; }
    var bitrate := timing.bitrate;
    if bitrate == 0 || CLOCK_HZ % bitrate != 0 {
      forall p | Meets(p, bitrate, samplePoint, timing.sjw, phase) ensures false {
        BitrateDivides(p, bitrate, samplePoint, timing.sjw);
      }
      return None;
    }
    var divisor: Word := (CLOCK_HZ / bitrate) as Word;
    var widest: Word := (1 + MaxTseg1(phase) + MaxTseg2(phase)) as Word;
    var last := if widest < divisor then widest else divisor;
    var best: Option<Best> := None;
    var total: Word := 3;
    assert BestBelow(best, 3, bitrate, samplePoint, timing.sjw, phase) by {
      forall p | Meets(p, bitrate, samplePoint, timing.sjw, phase) ensures Quanta(p) >= 3 {
        QuantaBound(p, bitrate, samplePoint, timing.sjw, phase);
      }
    }
    while total <= last
      invariant 3 <= total && (total as int <= last as int + 1 || last < 3)
      invariant BestBelow(best, total as int, bitrate, samplePoint, timing.sjw, phase)
      decreases last as int - total as int
    {
      best := ConsiderQuanta(best, total, divisor, bitrate, samplePoint as Word, timing.sjw, phase);
      total := total + 1;
    }
    forall p | Meets(p, bitrate, samplePoint, timing.sjw, phase) ensures Quanta(p) < total as int {
      QuantaBound(p, bitrate, samplePoint, timing.sjw, phase);
    }
    r := if best.None? then None else Some(best.value.timing);
  }

  /** One turn of the outer loop: keep the best so far unless this many quanta come strictly nearer. */
  method ConsiderQuanta(best: Option<Best>, total: Word, divisor: Word, bitrate: nat, samplePoint: Word, sjw: Option<nat>, phase: Phase)
    returns (best': Option<Best>)
    requires bitrate > 0 && CLOCK_HZ % bitrate == 0 && divisor as int == CLOCK_HZ / bitrate && samplePoint <= 950
    requires 3 <= total as int <= 1 + MaxTseg1(phase) + MaxTseg2(phase)
    requires sjw.Some? ==> sjw.value <= U16_MAX
    requires BestBelow(best, total as int, bitrate, samplePoint as int, sjw, phase)
    ensures BestBelow(best', total as int + 1, bitrate, samplePoint as int, sjw, phase)
  {
    best' := best;
    var found: Option<PhaseTiming> := None;
    if divisor % total != 0 || divisor / total == 0 || divisor / total > 1024 {
      forall p | Meets(p, bitrate, samplePoint as int, sjw, phase) ensures Quanta(p) != total as int {
        CandidateIff(p, bitrate, samplePoint as int, sjw, phase);
      }
    } else {
      found := ExactWithQuanta(total, divisor / total, bitrate, samplePoint, sjw, phase);
    }
    if found.Some? {
      var preferred: Word := PreferredQuanta(phase) as Word;
      var distance := if total < preferred then preferred - total else total - preferred;
      if best.None? || distance < best.value.distance {
        best' := Some(Best(distance, found.value));
      }
      forall p | Meets(p, bitrate, samplePoint as int, sjw, phase) && Quanta(p) == total as int ensures p == found.value {
        SameQuantaSameTiming(p, found.value, bitrate, samplePoint as int, sjw, phase);
      }
    }
  }

  // ----- Reading a setting back -----

  function NewBitTiming(bitrate: nat, samplePoint: Option<nat>, sjw: Option<nat>): Option<BitTiming> {
    if bitrate == 0 then None
    else if samplePoint.Some? && !(1 <= samplePoint.value <= 999) then None
    else if sjw.Some? && sjw.value == 0 then None
    else Some(BitTiming(bitrate, samplePoint, sjw))
  }

  function TimingToPublic(p: PhaseTiming): Option<BitTiming> {
    var total := Quanta(p);
    var divisor := p.brp * total;
    if divisor > U32_MAX then None
    else if divisor == 0 || CLOCK_HZ % divisor != 0 then None
    else
      var numerator := (1 + p.tseg1) * 1000;
      var samplePoint := if numerator % total == 0 && numerator / total <= U16_MAX then Some(numerator / total) else None;
      NewBitTiming(CLOCK_HZ / divisor, samplePoint, if p.sjw <= U16_MAX then Some(p.sjw) else None)
  }

  /**
    Round trip, both ways: an in-range setting reads back as a bitrate, sample point and jump
    width exactly when it meets the request for them.
   */
  lemma ReadBackIff(p: PhaseTiming, bitrate: nat, samplePoint: nat, phase: Phase)
    requires InRange(p, phase) && 1 <= samplePoint <= 999
    ensures TimingToPublic(p) == Some(BitTiming(bitrate, Some(samplePoint), Some(p.sjw))) <==>
            Meets(p, bitrate, samplePoint, Some(p.sjw), phase)
  {
    var total := Quanta(p);
    var divisor := p.brp * total;
    MulMonotone(p.brp, MAX_BRP, total);
    MulAtLeast(p.brp, total);
    assert 0 < divisor <= U32_MAX;
    var numerator := (1 + p.tseg1) * 1000;
    RatioIs(numerator, total, samplePoint);
    RatioIs(CLOCK_HZ, divisor, bitrate);
    assert divisor * bitrate == p.brp * total * bitrate;
  }

  lemma RatioIs(numerator: nat, denominator: nat, q: nat)
    requires denominator > 0
    ensures numerator == q * denominator <==> numerator % denominator == 0 && numerator / denominator == q
  {
    if numerator == q * denominator { MultipleHasNoRemainder(q, denominator); }
  }

  /** What the solver returns reads back as exactly what was asked for. */
  lemma SolutionReadsBack(p: PhaseTiming, timing: BitTiming, phase: Phase, fallback: nat)
    requires Meets(p, timing.bitrate, EffectiveSamplePoint(timing, fallback), timing.sjw, phase)
    requires 500 <= EffectiveSamplePoint(timing, fallback) <= 950
    ensures TimingToPublic(p) == Some(BitTiming(timing.bitrate, Some(EffectiveSamplePoint(timing, fallback)), Some(p.sjw)))
    ensures timing.sjw.Some? ==> p.sjw == timing.sjw.value
  {
    ReadBackIff(p, timing.bitrate, EffectiveSamplePoint(timing, fallback), phase);
  }
}
