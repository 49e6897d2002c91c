/** Retargeting. The transition factor is a real number; the clock is a parameter. */
module Pow {

  import opened ArithUint256
  import opened Compact
  import opened Limbs
  import opened MedianTime
  import opened Powers

  const NEW_RULES_ACTIVATION_HEIGHT: nat := 175000
  const TRANSITION_WINDOW: nat := 2000
  const NEW_PROTOCOL_HEIGHT: nat := 69360

  datatype Params = Params(
    powLimit: nat,
    nPowTargetTimespan: nat,
    nPowTargetSpacing: nat,
    fPowAllowMinDifficultyBlocks: bool,
    fPowNoRetargeting: bool,
    nHeightEffective: nat)

  /** The main network. */
  function Main(): Params { Params(Pow2(236) - 1, 24 * 60 * 60, 60, false, false, 0) }

  function DifficultyAdjustmentInterval(p: Params): nat
    requires p.nPowTargetSpacing > 0
  {
    p.nPowTargetTimespan / p.nPowTargetSpacing
  }

  // ------------------------------------------------------------ limits

  function GetTransitionFactor(height: nat): (f: real)
    ensures 0.0 <= f <= 1.0
  {
    if height < NEW_RULES_ACTIVATION_HEIGHT then 0.0
    else if height >= NEW_RULES_ACTIVATION_HEIGHT + TRANSITION_WINDOW then 1.0
    else (height - NEW_RULES_ACTIVATION_HEIGHT) as real / TRANSITION_WINDOW as real
  }

  /** The factor never falls; it leaves 0 after the activation height and reaches 1 with the end of the window. */
  lemma TransitionRises(a: nat, b: nat)
    requires a <= b
    ensures GetTransitionFactor(a) <= GetTransitionFactor(b)
    ensures GetTransitionFactor(a) == 0.0 <==> a <= NEW_RULES_ACTIVATION_HEIGHT
    ensures GetTransitionFactor(a) == 1.0 <==> a >= NEW_RULES_ACTIVATION_HEIGHT + TRANSITION_WINDOW
  {
    var w := TRANSITION_WINDOW as real;
    var x, y := (a - NEW_RULES_ACTIVATION_HEIGHT) as real, (b - NEW_RULES_ACTIVATION_HEIGHT) as real;
    assert x / w <= y / w;
  }

  /** The smallest and the largest timespan that count. */
  datatype Limits = Limits(min: int, max: int)

  function TargetMin(height: nat, timespan: nat): nat {
    if height > NEW_RULES_ACTIVATION_HEIGHT + 10000 then timespan / 4
    else if height > NEW_RULES_ACTIVATION_HEIGHT + 5000 then timespan / 8
    else timespan / 16
  }

  /** From a to b by a factor. */
  function Interpolate(a: int, b: int, f: real): int { (a as real + (b - a) as real * f).Floor }

  function GetDifficultyLimits(height: nat, f: real, p: Params): Limits {
    var min, max := p.nPowTargetTimespan / 4, p.nPowTargetTimespan * 4;
    if height < NEW_RULES_ACTIVATION_HEIGHT then Limits(min, max)
    else Limits(Interpolate(min, TargetMin(height, p.nPowTargetTimespan), f),
        Interpolate(max, p.nPowTargetTimespan * 4, f))
  }

  lemma InterpolateBetween(a: int, b: int, f: real)
    requires b <= a && 0.0 <= f <= 1.0
    ensures b <= Interpolate(a, b, f) <= a
  {
    var e := (a - b) as real;
    assert (b - a) as real * f == 0.0 - e * f;
    RealTimes(e, 0.0, f);
    RealTimes(e, f, 1.0);
  }

  lemma RealTimes(e: real, x: real, y: real)
    requires e >= 0.0 && x <= y
    ensures e * x <= e * y
  {
    var d := y - x;
    assert d >= 0.0 && e * d >= 0.0;
    assert e * y == e * (x + d) == e * x + e * d;
  }

  /** Whatever the height, the limits are in order, and the upper one is four target timespans. */
  lemma LimitsOrdered(height: nat, p: Params)
    ensures var l := GetDifficultyLimits(height, GetTransitionFactor(height), p);
            0 <= l.min <= l.max == p.nPowTargetTimespan * 4
  {
    var f := GetTransitionFactor(height);
    InterpolateBetween(p.nPowTargetTimespan / 4, TargetMin(height, p.nPowTargetTimespan), f);
    InterpolateBetween(p.nPowTargetTimespan * 4, p.nPowTargetTimespan * 4, f);
  }

  function LimitsAt(height: nat, p: Params): Limits { GetDifficultyLimits(height, GetTransitionFactor(height), p) }

  // ------------------------------------------------------------ retargeting

  function Clamp(x: int, l: Limits): int {
    if x < l.min then l.min else if x > l.max then l.max else x
  }

  function Min(a: nat, b: nat): nat { if a > b then b else a }

  /** A target scaled by a timespan, in 256 bits, and capped. */
  function NewTarget(p: Params, nBits: nat, timespan: nat): nat
    requires p.nPowTargetTimespan > 0
  {
    Min(Quotient(Decode(nBits) * timespan % Modulus(), p.nPowTargetTimespan), p.powLimit)
  }

  function NextBits(p: Params, height: nat, nBits: nat, actual: int): nat
    requires p.nPowTargetTimespan > 0
  {
    LimitsOrdered(height, p);
    if p.fPowNoRetargeting then nBits else Encode(NewTarget(p, nBits, Clamp(actual, LimitsAt(height, p))))
  }

  predicate Permitted(p: Params, height: nat, oldBits: nat, newBits: nat)
    requires p.nPowTargetTimespan > 0 && p.nPowTargetSpacing > 0 && DifficultyAdjustmentInterval(p) > 0
  {
    p.fPowAllowMinDifficultyBlocks ||
    if height % DifficultyAdjustmentInterval(p) == 0 then
      LimitsOrdered(height, p);
      var l := LimitsAt(height, p);
      && Decode(newBits) <= Decode(Encode(NewTarget(p, oldBits, l.max)))
      && Decode(Encode(NewTarget(p, oldBits, l.min))) <= Decode(newBits)
    else oldBits == newBits
  }

  /** The parameters leave room for the largest scaling in 256 bits. */
  ghost predicate Roomy(p: Params) {
    && p.nPowTargetTimespan > 0 && p.nPowTargetSpacing > 0 && DifficultyAdjustmentInterval(p) > 0
    && p.nPowTargetTimespan * 4 < BASE && p.powLimit < Modulus()
    && p.powLimit * (p.nPowTargetTimespan * 4) < Modulus()
  }

  lemma ScaleMonotone(p: Params, nBits: nat, s: nat, t: nat)
    requires Roomy(p) && Decode(nBits) <= p.powLimit && s <= t <= p.nPowTargetTimespan * 4
    ensures NewTarget(p, nBits, s) <= NewTarget(p, nBits, t)
  {
    hide PowB, Decode;
    var d := Decode(nBits);
    Scaled256(d, s, t, p.powLimit, p.nPowTargetTimespan * 4, Modulus());
    QuotientMonotone(d * s, d * t, p.nPowTargetTimespan);
  }

  lemma Scaled256(d: nat, s: nat, t: nat, limit: nat, top: nat, m: nat)
    requires d <= limit && s <= t <= top && limit * top < m
    ensures d * s <= d * t < m && d * s % m == d * s && d * t % m == d * t
  {
    Times(s, t, d);
    Times(t, top, d);
    Times(d, limit, top);
    assert s * d == d * s && t * d == d * t && top * d == d * top;
    DivUnique(d * s, m, 0, d * s);
    DivUnique(d * t, m, 0, d * t);
  }

  lemma QuotientMonotone(a: nat, b: nat, p: nat)
    requires p > 0 && a <= b
    ensures Quotient(a, p) <= Quotient(b, p)
  {
    var q, r, q', r' := a / p, a % p, b / p, b % p;
    assert a == q * p + r && b == q' * p + r';
    assert (q' - q + 1) * p == q' * p - q * p + p;
    Positive(q' - q + 1, p);
  }

  /** An old target scaled by a timespan over the target timespan, rounded down and capped. */
  ghost predicate ScaledTo(p: Params, nBits: nat, span: nat, bits: nat)
    requires p.nPowTargetTimespan > 0
  {
    exists x: nat :: && x <= p.powLimit && bits == Encode(x)
                     && (x == p.powLimit || Decode(nBits) * span < (x + 1) * p.nPowTargetTimespan)
                     && x * p.nPowTargetTimespan <= Decode(nBits) * span
  }

  /** Between the limits a retarget scales the target by the time that the interval took. Below the lower limit it
      does what it does there, and above the upper one what it does there. */
  lemma RetargetScales(p: Params, height: nat, nBits: nat, actual: int)
    requires Roomy(p) && !p.fPowNoRetargeting && Decode(nBits) <= p.powLimit
    ensures var l := LimitsAt(height, p); var bits := NextBits(p, height, nBits, actual);
            && 0 <= l.min <= l.max
            && (l.min <= actual <= l.max ==> ScaledTo(p, nBits, actual, bits))
            && (actual <= l.min ==> ScaledTo(p, nBits, l.min, bits))
            && (actual >= l.max ==> ScaledTo(p, nBits, l.max, bits))
  {
    hide PowB, Decode, Encode, ScaledTo;
    LimitsOrdered(height, p);
    var l := LimitsAt(height, p);
    NewTargetScales(p, nBits, Clamp(actual, l));
  }

  lemma NewTargetScales(p: Params, nBits: nat, span: nat)
    requires Roomy(p) && Decode(nBits) <= p.powLimit && span <= p.nPowTargetTimespan * 4
    ensures ScaledTo(p, nBits, span, Encode(NewTarget(p, nBits, span)))
  {
    hide PowB, Decode, Encode;
    var d, t := Decode(nBits), p.nPowTargetTimespan;
    Scaled256(d, span, span, p.powLimit, t * 4, Modulus());
    var q, x := Quotient(d * span, t), NewTarget(p, nBits, span);
    QuotientIs(d * span, t);
    Times(x, q, t);
    assert (q + 1) * t == q * t + t;
  }

  lemma QuotientIs(a: nat, p: nat)
    requires p > 0
    ensures Quotient(a, p) * p <= a < Quotient(a, p) * p + p
  {
    assert a == a / p * p + a % p;
  }

  /** The longer an interval took, the easier the next target. */
  lemma RetargetRises(p: Params, height: nat, nBits: nat, actual: int, longer: int)
    requires Roomy(p) && !p.fPowNoRetargeting && Decode(nBits) <= p.powLimit && actual <= longer
    ensures Decode(NextBits(p, height, nBits, actual)) <= Decode(NextBits(p, height, nBits, longer))
  {
    hide PowB, Decode, Encode;
    LimitsOrdered(height, p);
    var l := LimitsAt(height, p);
    var s, t := Clamp(actual, l), Clamp(longer, l);
    ScaleMonotone(p, nBits, s, t);
    EncodeMonotone(NewTarget(p, nBits, s), NewTarget(p, nBits, t));
  }

  /** A retarget is always a permitted transition. */
  lemma RetargetPermitted(p: Params, height: nat, nBits: nat, actual: int)
    requires Roomy(p) && !p.fPowNoRetargeting && Decode(nBits) <= p.powLimit
             && height % DifficultyAdjustmentInterval(p) == 0
    ensures Permitted(p, height, nBits, NextBits(p, height, nBits, actual))
  {
    hide PowB, Decode, Encode;
    LimitsOrdered(height, p);
    var l := LimitsAt(height, p);
    var t := Clamp(actual, l);
    ScaleMonotone(p, nBits, l.min, t);
    ScaleMonotone(p, nBits, t, l.max);
    EncodeMonotone(NewTarget(p, nBits, l.min), NewTarget(p, nBits, t));
    EncodeMonotone(NewTarget(p, nBits, t), NewTarget(p, nBits, l.max));
  }

  /** At a retarget a transition is permitted exactly if the new target lies between the old one scaled by the lower
      limit and scaled by the upper one, both rounded. Elsewhere the bits must stay. */
  lemma PermittedIff(p: Params, height: nat, oldBits: nat, newBits: nat)
    requires Roomy(p) && Decode(oldBits) <= p.powLimit && !p.fPowAllowMinDifficultyBlocks
    ensures height % DifficultyAdjustmentInterval(p) != 0 ==>
              (Permitted(p, height, oldBits, newBits) <==> oldBits == newBits)
    ensures height % DifficultyAdjustmentInterval(p) == 0 ==>
              (Permitted(p, height, oldBits, newBits) <==> Between(p, height, oldBits, newBits))
    ensures height % DifficultyAdjustmentInterval(p) == 0 && Permitted(p, height, oldBits, newBits) ==>
              Decode(newBits) <= 4 * Decode(oldBits)
  {
    hide PowB, Decode, Encode, NewTarget, ScaledTo;
    LimitsOrdered(height, p);
    var l := LimitsAt(height, p);
    var lo, hi := Encode(NewTarget(p, oldBits, l.min)), Encode(NewTarget(p, oldBits, l.max));
    NewTargetScales(p, oldBits, l.min);
    NewTargetScales(p, oldBits, l.max);
    if Between(p, height, oldBits, newBits) {
      var lo', hi' :| ScaledTo(p, oldBits, l.min, lo') && ScaledTo(p, oldBits, l.max, hi')
                      && Decode(lo') <= Decode(newBits) <= Decode(hi');
      ScaledOnce(p, oldBits, l.min, lo, lo');
      ScaledOnce(p, oldBits, l.max, hi, hi');
    }
    ScaledBelow(p, oldBits, hi);
  }

  ghost predicate Between(p: Params, height: nat, oldBits: nat, newBits: nat)
    requires p.nPowTargetTimespan > 0
  {
    LimitsOrdered(height, p);
    var l := LimitsAt(height, p);
    exists lo, hi :: ScaledTo(p, oldBits, l.min, lo) && ScaledTo(p, oldBits, l.max, hi)
                     && Decode(lo) <= Decode(newBits) <= Decode(hi)
  }

  /** The scaled target is unique. */
  lemma ScaledOnce(p: Params, nBits: nat, span: nat, a: nat, b: nat)
    requires p.nPowTargetTimespan > 0 && ScaledTo(p, nBits, span, a) && ScaledTo(p, nBits, span, b)
    ensures a == b
  {
    hide Decode, Encode;
    var d, t := Decode(nBits) * span, p.nPowTargetTimespan;
    var x: nat :| x <= p.powLimit && a == Encode(x) && (x == p.powLimit || d < (x + 1) * t) && x * t <= d;
    var y: nat :| y <= p.powLimit && b == Encode(y) && (y == p.powLimit || d < (y + 1) * t) && y * t <= d;
    if x < y { Times(x + 1, y, t); }
    if y < x { Times(y + 1, x, t); }
  }

  lemma ScaledBelow(p: Params, nBits: nat, bits: nat)
    requires Roomy(p) && ScaledTo(p, nBits, p.nPowTargetTimespan * 4, bits)
    ensures Decode(bits) <= 4 * Decode(nBits)
  {
    hide PowB, Decode, Encode;
    var d, t := Decode(nBits), p.nPowTargetTimespan;
    var x: nat :| x <= p.powLimit && bits == Encode(x) && x * t <= d * (t * 4);
    LargestBelow(x, 0);
    FourTimes(x, d, t);
  }

  lemma FourTimes(x: nat, d: nat, t: nat)
    requires t > 0 && x * t <= d * (t * 4)
    ensures x <= 4 * d
  {
    assert d * (t * 4) == 4 * d * t;
    if x > 4 * d { Times(4 * d + 1, x, t); }
  }

  // ------------------------------------------------------------ chains

  datatype Block = Block(nBits: nat, nTime: int)

  /** The blocks of a chain by height, the genesis block first. */
  type Blocks = seq<Block>

  /** A header to be appended, with the adjusted time of the clock. */
  datatype Header = Header(nTime: int, now: int)

  function BlockTimes(chain: Blocks): (times: seq<int>)
    ensures |times| == |chain|
  {
    seq(|chain|, i requires 0 <= i < |chain| => chain[i].nTime)
  }

  /** Past the median of the last blocks, and at most two hours ahead of the clock. */
  predicate ValidTime(chain: Blocks, header: Header)
    requires chain != []
  {
    MedianTimePast(BlockTimes(chain)) < header.nTime <= header.now + 2 * 60 * 60
  }

  /** A time is valid exactly if more than half of the last eleven are below it and it is not too far ahead. */
  lemma ValidTimeIff(chain: Blocks, header: Header)
    requires chain != []
    ensures var w := Window(BlockTimes(chain));
            ValidTime(chain, header) <==>
              |w| - AtLeast(w, header.nTime) > |w| / 2 && header.nTime <= header.now + 7200
  {
    PastMedianIff(BlockTimes(chain), header.nTime);
  }

  /** In a chain of valid times each is past the median at every earlier block. */
  lemma ValidTimesPass(chain: Blocks, headers: seq<Header>, i: nat, j: nat)
    requires |headers| == |chain| && 0 < i <= j < |chain|
    requires forall k {:trigger chain[k]} :: 1 <= k < |chain| ==>
               headers[k].nTime == chain[k].nTime && ValidTime(chain[..k], headers[k])
    ensures MedianTimePast(BlockTimes(chain[..i])) < chain[j].nTime
  {
    hide MedianTimePast;
    var times := BlockTimes(chain);
    forall k | 1 <= k < |chain| ensures MedianTimePast(times[..k]) < times[k] {
      assert times[k] == chain[k].nTime && BlockTimes(chain[..k]) == times[..k];
    }
    MedianNeverFalls(times, i, j);
    assert BlockTimes(chain[..i]) == times[..i];
  }

  function LimitBits(p: Params): nat { Encode(p.powLimit) }

  function Interval(p: Params, height: nat): nat
    requires p.nPowTargetSpacing > 0
  {
    (if height >= NEW_PROTOCOL_HEIGHT then p.nPowTargetTimespan else p.nPowTargetTimespan * 12) / p.nPowTargetSpacing
  }

  /** The last block from `height` back that is not of minimum difficulty, or starts an interval, or is the genesis
      block. */
  function LastOrdinary(p: Params, chain: Blocks, height: nat): nat
    requires height < |chain| && p.nPowTargetSpacing > 0 && DifficultyAdjustmentInterval(p) > 0
  {
    if height > 0 && height % DifficultyAdjustmentInterval(p) != 0 && chain[height].nBits == LimitBits(p)
    then LastOrdinary(p, chain, height - 1) else chain[height].nBits
  }

  /** The first block of the interval that ends with the last block. */
  function FirstHeight(p: Params, height: nat): int
    requires p.nPowTargetSpacing > 0
  {
    var interval := Interval(p, height + 1);
    height - (if height + 1 != interval then interval else interval - 1)
  }

  /** At a retarget the first block of the interval exists. */
  lemma FirstExists(p: Params, height: nat)
    requires p.nPowTargetSpacing > 0 && Interval(p, height + 1) > 0 && (height + 1) % Interval(p, height + 1) == 0
    ensures 0 <= FirstHeight(p, height) <= height
    ensures var i := Interval(p, height + 1); FirstHeight(p, height) == if height < i then 0 else height - i
  {
    var i := Interval(p, height + 1);
    var k := (height + 1) / i;
    assert height + 1 == k * i;
    if k >= 2 { Times(2, k, i); } else { assert k == 1 by { Positive(k, i); } }
  }

  ghost predicate Usable(p: Params) {
    p.nPowTargetTimespan > 0 && p.nPowTargetSpacing > 0 && DifficultyAdjustmentInterval(p) > 0 && p.powLimit < Modulus()
  }

  lemma IntervalPositive(p: Params, height: nat)
    requires Usable(p)
    ensures Interval(p, height) > 0
  {
    var s, t := p.nPowTargetSpacing, p.nPowTargetTimespan;
    QuotientMonotone(t, t * 12, s);
  }

  function NextWork(p: Params, chain: Blocks, header: Header): nat
    requires Usable(p)
  {
    if chain == [] then LimitBits(p) else
      var height, last := |chain| - 1, chain[|chain| - 1];
      if !ValidTime(chain, header) then LimitBits(p)
      else if p.fPowAllowMinDifficultyBlocks && height >= p.nHeightEffective
          && header.nTime > last.nTime + p.nPowTargetSpacing * 2 then LimitBits(p)
      else
        IntervalPositive(p, height + 1);
        if (height + 1) % Interval(p, height + 1) != 0 then
          if !p.fPowAllowMinDifficultyBlocks then last.nBits
          else if header.nTime > last.nTime + p.nPowTargetSpacing * 6 then LimitBits(p)
          else LastOrdinary(p, chain, height)
        else
          FirstExists(p, height);
          var bits := NextBits(p, height + 1, last.nBits, last.nTime - chain[FirstHeight(p, height)].nTime);
          if Permitted(p, height + 1, last.nBits, bits) then bits else last.nBits
  }

  /** That block is the last one that is ordinary or starts an interval; all after it are of minimum difficulty. */
  lemma {:induction false} LastOrdinaryIs(p: Params, chain: Blocks, height: nat) returns (k: nat)
    requires height < |chain| && p.nPowTargetSpacing > 0 && DifficultyAdjustmentInterval(p) > 0
    ensures k <= height && LastOrdinary(p, chain, height) == chain[k].nBits
    ensures k == 0 || k % DifficultyAdjustmentInterval(p) == 0 || chain[k].nBits != LimitBits(p)
    ensures forall j :: k < j <= height ==>
              chain[j].nBits == LimitBits(p) && j % DifficultyAdjustmentInterval(p) != 0
  {
    hide Encode;
    k := height;
    if height > 0 && height % DifficultyAdjustmentInterval(p) != 0 && chain[height].nBits == LimitBits(p) {
      k := LastOrdinaryIs(p, chain, height - 1);
    }
  }

  /** What is required where there is no retarget. A network without minimum-difficulty blocks repeats the last bits. On
      one with them a block that comes late may have the limit, and another takes the bits of the last ordinary one. */
  lemma WorkBetween(p: Params, chain: Blocks, header: Header)
    requires Usable(p) && chain != [] && ValidTime(chain, header) && Interval(p, |chain|) > 0
             && |chain| % Interval(p, |chain|) != 0
    ensures var last := chain[|chain| - 1]; var bits := NextWork(p, chain, header);
            var late := header.nTime - last.nTime;
            && (!p.fPowAllowMinDifficultyBlocks ==> bits == last.nBits)
            && (p.fPowAllowMinDifficultyBlocks && late > 6 * p.nPowTargetSpacing ==> bits == LimitBits(p))
            && (p.fPowAllowMinDifficultyBlocks && late > 2 * p.nPowTargetSpacing && |chain| > p.nHeightEffective ==>
                  bits == LimitBits(p))
            && (p.fPowAllowMinDifficultyBlocks && late <= 6 * p.nPowTargetSpacing
                && (late <= 2 * p.nPowTargetSpacing || |chain| <= p.nHeightEffective) ==>
                  bits == LastOrdinary(p, chain, |chain| - 1))
  {
    hide Encode, LastOrdinary, Permitted, NextBits, ValidTime;
  }

  /** A new chain and a header with a bad time get the easiest target, and so does a late block where that is allowed,
      even at a retarget. */
  lemma WorkAtLimit(p: Params, chain: Blocks, header: Header)
    requires Usable(p)
    requires chain == [] || !ValidTime(chain, header)
             || (p.fPowAllowMinDifficultyBlocks && |chain| > p.nHeightEffective
                 && header.nTime - chain[|chain| - 1].nTime > 2 * p.nPowTargetSpacing)
    ensures NextWork(p, chain, header) == Encode(p.powLimit)
  {
  }

  /** A target code that decodes without sign or overflow to at most the limit. */
  ghost predicate GoodBits(p: Params, nBits: nat) {
    nBits < 0x1_0000_0000 && !Negative(nBits) && !Overflow(nBits) && Decode(nBits) <= p.powLimit
  }

  lemma EncodedGood(p: Params, x: nat)
    requires x <= p.powLimit < Modulus()
    ensures GoodBits(p, Encode(x))
  {
    hide PowB, Encode, Decode, Negative, Overflow;
    var k := DecodeEncode(x);
    LargestBelow(x, 0);
  }

  lemma {:induction false} LastOrdinaryGood(p: Params, chain: Blocks, height: nat)
    requires Usable(p) && height < |chain| && forall i :: 0 <= i < |chain| ==> GoodBits(p, chain[i].nBits)
    ensures GoodBits(p, LastOrdinary(p, chain, height))
  {
    if height > 0 { LastOrdinaryGood(p, chain, height - 1); }
  }

  lemma NextWorkGood(p: Params, chain: Blocks, header: Header)
    requires Usable(p) && forall i :: 0 <= i < |chain| ==> GoodBits(p, chain[i].nBits)
    ensures GoodBits(p, NextWork(p, chain, header))
  {
    hide GoodBits, Encode, Permitted, LimitsAt, PowB, Clamp, LastOrdinary, ValidTime;
    EncodedGood(p, p.powLimit);
    if chain != [] {
      var height, last := |chain| - 1, chain[|chain| - 1];
      LastOrdinaryGood(p, chain, height);
      IntervalPositive(p, height + 1);
      if (height + 1) % Interval(p, height + 1) == 0 {
        FirstExists(p, height);
        NextBitsGood(p, height + 1, last.nBits, last.nTime - chain[FirstHeight(p, height)].nTime);
      }
    }
  }

  lemma NextBitsGood(p: Params, height: nat, nBits: nat, actual: int)
    requires Usable(p) && GoodBits(p, nBits)
    ensures GoodBits(p, NextBits(p, height, nBits, actual))
  {
    hide GoodBits, Encode, PowB;
    LimitsOrdered(height, p);
    if !p.fPowNoRetargeting { EncodedGood(p, NewTarget(p, nBits, Clamp(actual, LimitsAt(height, p)))); }
  }

  /** Every block after the genesis block has the bits required of it. */
  ghost predicate ValidChain(p: Params, chain: Blocks, headers: seq<Header>)
    requires Usable(p)
  {
    && |headers| == |chain| > 0
    && forall i {:trigger chain[i]} :: 1 <= i < |chain| ==> chain[i].nBits == NextWork(p, chain[..i], headers[i])
  }

  /** Along every chain, every block's bits decode without sign or overflow to at most the limit. */
  lemma {:induction false} ChainGood(p: Params, chain: Blocks, headers: seq<Header>, i: nat)
    requires Usable(p) && ValidChain(p, chain, headers) && GoodBits(p, chain[0].nBits) && i < |chain|
    ensures forall k :: 0 <= k <= i ==> GoodBits(p, chain[k].nBits)
  {
    hide GoodBits, NextWork;
    if i > 0 {
      ChainGood(p, chain, headers, i - 1);
      NextWorkGood(p, chain[..i], headers[i]);
    }
  }

  /** On the main network the retarget is never overruled by the transition check. */
  lemma RetargetTaken(p: Params, chain: Blocks, header: Header)
    requires Usable(p) && Roomy(p) && !p.fPowNoRetargeting && !p.fPowAllowMinDifficultyBlocks
    requires chain != [] && GoodBits(p, chain[|chain| - 1].nBits) && ValidTime(chain, header)
    requires Interval(p, |chain|) > 0 && |chain| % Interval(p, |chain|) == 0
             && |chain| % DifficultyAdjustmentInterval(p) == 0
    ensures 0 <= FirstHeight(p, |chain| - 1) < |chain|
    ensures var last := chain[|chain| - 1];
            NextWork(p, chain, header) == NextBits(p, |chain|, last.nBits,
                last.nTime - chain[FirstHeight(p, |chain| - 1)].nTime)
  {
    hide Permitted, NextBits, ValidTime, Decode, Encode, PowB, LastOrdinary, Negative, Overflow;
    var height, last := |chain| - 1, chain[|chain| - 1];
    FirstExists(p, height);
    RetargetPermitted(p, |chain|, last.nBits, last.nTime - chain[FirstHeight(p, height)].nTime);
  }

  /** The main network's parameters are roomy, its intervals are multiples of the one the transition check uses, and its
      genesis bits are good. */
  lemma MainFits(height: nat)
    ensures Usable(Main()) && Roomy(Main()) && GoodBits(Main(), 0x1e0ffff0)
    ensures height % Interval(Main(), height) == 0 ==> height % DifficultyAdjustmentInterval(Main()) == 0
  {
    hide Pow2, PowB, GoodBits;
    MainRoom();
    GenesisBits();
    MainIntervals(height);
  }

  /** Along every chain of the main network, whatever its timestamps, every retarget is what the retarget rule
      computes and a permitted transition. */
  lemma MainRetarget(chain: Blocks, headers: seq<Header>, header: Header)
    requires Usable(Main()) && ValidChain(Main(), chain, headers) && GoodBits(Main(), chain[0].nBits)
             && ValidTime(chain, header)
    requires |chain| % Interval(Main(), |chain|) == 0
    ensures DifficultyAdjustmentInterval(Main()) > 0 && FirstHeight(Main(), |chain| - 1) >= 0
    ensures var last := chain[|chain| - 1]; var bits := NextWork(Main(), chain, header);
            && bits == NextBits(Main(), |chain|, last.nBits, last.nTime - chain[FirstHeight(Main(), |chain| - 1)].nTime)
            && Permitted(Main(), |chain|, last.nBits, bits) && GoodBits(Main(), bits)
  {
    hide GoodBits, NextWork, NextBits, Permitted, ValidChain, ValidTime, Pow2, PowB;
    var n := |chain|;
    ValidLength(Main(), chain, headers);
    MainFits(n);
    ChainGood(Main(), chain, headers, n - 1);
    RetargetTaken(Main(), chain, header);
    NextWorkGood(Main(), chain, header);
    var last := chain[n - 1];
    GoodBelow(Main(), last.nBits);
    RetargetPermitted(Main(), n, last.nBits, last.nTime - chain[FirstHeight(Main(), n - 1)].nTime);
  }

  /** Where the interval before a retarget at height n starts on the main network: one block early, but for the
      first. */
  ghost function MainStart(n: nat): (first: nat)
    requires n > 0
    ensures first < n
  {
    var interval := if n >= 69360 then 1440 else 17280;
    if n <= interval then 0 else n - 1 - interval
  }

  /** Such a retarget scales the target by the time from there to the last block, held within the limits. */
  lemma MainScales(chain: Blocks, headers: seq<Header>, header: Header)
    requires Usable(Main()) && ValidChain(Main(), chain, headers) && GoodBits(Main(), chain[0].nBits)
             && ValidTime(chain, header)
    requires |chain| % Interval(Main(), |chain|) == 0
    ensures var l := LimitsAt(|chain|, Main()); var last := chain[|chain| - 1];
            var actual := last.nTime - chain[MainStart(|chain|)].nTime; var bits := NextWork(Main(), chain, header);
            && 0 <= l.min <= l.max
            && (actual <= l.min ==> ScaledTo(Main(), last.nBits, l.min, bits))
            && (l.min <= actual <= l.max ==> ScaledTo(Main(), last.nBits, actual, bits))
            && (actual >= l.max ==> ScaledTo(Main(), last.nBits, l.max, bits))
  {
    hide GoodBits, NextWork, NextBits, Permitted, ValidChain, ValidTime, Pow2, PowB, ScaledTo, LimitsAt, Interval,
         FirstHeight;
    var n := |chain|;
    ValidLength(Main(), chain, headers);
    MainRetarget(chain, headers, header);
    ChainGood(Main(), chain, headers, n - 1);
    GoodBelow(Main(), chain[n - 1].nBits);
    MainIntervals(n);
    MainFits(n);
    FirstExists(Main(), n - 1);
    RetargetScales(Main(), n, chain[n - 1].nBits, chain[n - 1].nTime - chain[MainStart(n)].nTime);
  }

  lemma ValidLength(p: Params, chain: Blocks, headers: seq<Header>)
    requires Usable(p) && ValidChain(p, chain, headers)
    ensures |chain| > 0
  {
  }

  lemma GoodBelow(p: Params, nBits: nat)
    requires GoodBits(p, nBits)
    ensures Decode(nBits) <= p.powLimit
  {
  }

  lemma MainIntervals(height: nat)
    ensures DifficultyAdjustmentInterval(Main()) == 1440
    ensures Interval(Main(), height) == if height >= 69360 then 1440 else 17280
    ensures height % Interval(Main(), height) == 0 ==> height % 1440 == 0
  {
    hide Pow2;
    assert Interval(Main(), height) == 1440 || Interval(Main(), height) == 17280;
    assert height % 17280 == 0 ==> height % 1440 == 0;
  }

  /** The limits of the main network in seconds. The upper one is always four days. The lower one is six hours; from
      the activation height it falls to an hour and a half over 2000 blocks, and comes back in two steps. */
  lemma MainLimits(height: nat)
    ensures var l := LimitsAt(height, Main());
            && l.max == 345600
            && (height <= 175000 || height > 185000 ==> l.min == 21600)
            && (175000 <= height <= 177000 ==> l.min == 21600 - (81 * (height - 175000) + 9) / 10)
            && (177000 <= height <= 180000 ==> l.min == 5400)
            && (180000 < height <= 185000 ==> l.min == 10800)
  {
    hide Pow2;
    LimitsOrdered(height, Main());
    if 175000 <= height < 177000 {
      var k := height - 175000;
      var f := GetTransitionFactor(height);
      assert f == k as real / 2000.0;
      FallingBy(k);
    }
  }

  lemma FallingBy(k: nat)
    ensures Interpolate(21600, 5400, k as real / 2000.0) == 21600 - (81 * k + 9) / 10
  {
    var x := 21600.0 + -16200.0 * (k as real / 2000.0);
    var n := (81 * k + 9) / 10;
    assert -16200.0 * (k as real / 2000.0) == -8.1 * k as real;
    assert 81 * k <= 10 * n < 81 * k + 10;
    assert 8.1 * k as real <= n as real < 8.1 * k as real + 1.0;
  }

  lemma MainRoom()
    ensures Main().powLimit * 345600 < Modulus() && Main().powLimit < Modulus()
  {
    hide Pow2, PowB;
    PowBIsPow2(WIDTH);
    Pow2Add(236, 20);
    Pow2Add(10, 10);
    Ten();
    Times(345600, Pow2(20), Pow2(236));
  }

  lemma Ten()
    ensures Pow2(10) == 1024
  {
  }

  lemma GenesisBits()
    ensures GoodBits(Main(), 0x1e0ffff0)
  {
    hide Pow2, PowB, Bytes;
    BytesIsPow2(27);
    Pow2Add(216, 20);
    Pow2Add(10, 10);
    Ten();
    Times(0xffff0 + 1, Pow2(20), Pow2(216));
    MainRoom();
    DivUnique(0xffff0 * Bytes(27), Modulus(), 0, 0xffff0 * Bytes(27));
  }

  // ------------------------------------------------------------ the operations

  /** Scales a target: multiply, divide, cap. */
  method Retarget(p: Params, limit: BaseUint, nBits: nat, timespan: nat) returns (target: BaseUint)
    requires p.nPowTargetTimespan > 0 && limit.Valid() && limit.Value() == p.powLimit
    requires nBits < 0x1_0000_0000 && timespan < BASE && p.nPowTargetTimespan < BASE
    ensures target.Valid() && target.Value() == NewTarget(p, nBits, timespan)
  {
    hide Val, PowB, Decode;
    var fNegative, fOverflow;
    target, fNegative, fOverflow := SetCompact(nBits);
    target.MultiplyWord(timespan);
    var divisor := new BaseUint(p.nPowTargetTimespan);
    var ok := target.Divide(divisor);
    var c := target.CompareTo(limit);
    if c > 0 { target := limit; }
  }

  method CalculateNextWorkRequired(p: Params, limit: BaseUint, height: nat, nBits: nat, nActualTimespan: int)
    returns (bits: nat)
    requires p.nPowTargetTimespan > 0 && p.nPowTargetTimespan * 4 < BASE && limit.Valid() && limit.Value() == p.powLimit
    requires nBits < 0x1_0000_0000
    ensures bits == NextBits(p, height, nBits, nActualTimespan)
  {
    hide Val, PowB, Decode, Encode;
    if p.fPowNoRetargeting { return nBits; }
    LimitsOrdered(height, p);
    var l := GetDifficultyLimits(height, GetTransitionFactor(height), p);
    var nModulatedTimespan := nActualTimespan;
    if nModulatedTimespan < l.min {
      nModulatedTimespan := l.min;
    } else if nModulatedTimespan > l.max {
      nModulatedTimespan := l.max;
    }
    var bnNew := Retarget(p, limit, nBits, nModulatedTimespan);
    bits := GetCompact(bnNew, false);
  }

  /** Rounds a scaled target to a code and back. */
  method RoundedTarget(p: Params, limit: BaseUint, nBits: nat, timespan: nat) returns (target: BaseUint)
    requires p.nPowTargetTimespan > 0 && limit.Valid() && limit.Value() == p.powLimit
    requires nBits < 0x1_0000_0000 && timespan < BASE && p.nPowTargetTimespan < BASE
    ensures target.Valid() && target.Value() == Decode(Encode(NewTarget(p, nBits, timespan)))
  {
    hide Val, PowB, Decode, Encode, Negative, Overflow;
    var exact := Retarget(p, limit, nBits, timespan);
    ValBound(exact.pn[..]);
    var bits := GetCompact(exact, false);
    ghost var k := DecodeEncode(NewTarget(p, nBits, timespan));
    var fNegative, fOverflow;
    target, fNegative, fOverflow := SetCompact(bits);
  }

  method PermittedDifficultyTransition(p: Params, limit: BaseUint, height: nat, oldBits: nat, newBits: nat)
    returns (ok: bool)
    requires Usable(p) && p.nPowTargetTimespan * 4 < BASE && limit.Valid() && limit.Value() == p.powLimit
    requires oldBits < 0x1_0000_0000 && newBits < 0x1_0000_0000
    ensures ok == Permitted(p, height, oldBits, newBits)
  {
    hide Val, PowB, Decode, Encode, NewTarget;
    if p.fPowAllowMinDifficultyBlocks { return true; }
    if height % DifficultyAdjustmentInterval(p) == 0 {
      LimitsOrdered(height, p);
      var l := GetDifficultyLimits(height, GetTransitionFactor(height), p);
      var observed, fNegative, fOverflow := SetCompact(newBits);
      var maximum := RoundedTarget(p, limit, oldBits, l.max);
      var above := maximum.CompareTo(observed);
      if above < 0 { return false; }
      var minimum := RoundedTarget(p, limit, oldBits, l.min);
      var below := minimum.CompareTo(observed);
      if below > 0 { return false; }
    } else if oldBits != newBits {
      return false;
    }
    return true;
  }

  method ValidateBlockTime(chain: Blocks, header: Header) returns (ok: bool)
    requires chain != []
    ensures ok <==> ValidTime(chain, header)
  {
    var median := GetMedianTimePast(BlockTimes(chain));
    if header.nTime <= median { return false; }
    if header.nTime > header.now + 2 * 60 * 60 { return false; }
    return true;
  }

  method GetNextWorkRequired(p: Params, limit: BaseUint, chain: Blocks, header: Header) returns (bits: nat)
    requires Usable(p) && p.nPowTargetTimespan * 4 < BASE && limit.Valid() && limit.Value() == p.powLimit
    requires forall i :: 0 <= i < |chain| ==> GoodBits(p, chain[i].nBits)
    ensures bits == NextWork(p, chain, header)
  {
    hide Val, PowB, Encode, Permitted, NextBits, Negative, Overflow, Decode, ValidTime, LastOrdinary;
    var nProofOfWorkLimit := GetCompact(limit, false);
    if chain == [] { return nProofOfWorkLimit; }
    var valid := ValidateBlockTime(chain, header);
    if !valid { return nProofOfWorkLimit; }
    var nHeight, last := |chain| - 1, chain[|chain| - 1];
    if p.fPowAllowMinDifficultyBlocks && nHeight >= p.nHeightEffective
        && header.nTime > last.nTime + p.nPowTargetSpacing * 2 {
      return nProofOfWorkLimit;
    }
    IntervalPositive(p, nHeight + 1);
    var interval := Interval(p, nHeight + 1);
    if (nHeight + 1) % interval != 0 {
      bits := BetweenRetargets(p, chain, header, nProofOfWorkLimit);
      return;
    }
    FirstExists(p, nHeight);
    var nHeightFirst := FirstHeight(p, nHeight);
    var actual := last.nTime - chain[nHeightFirst].nTime;
    bits := CalculateNextWorkRequired(p, limit, nHeight + 1, last.nBits, actual);
    NextBitsGood(p, nHeight + 1, last.nBits, actual);
    var ok := PermittedDifficultyTransition(p, limit, nHeight + 1, last.nBits, bits);
    if !ok { return last.nBits; }
  }

  method BetweenRetargets(p: Params, chain: Blocks, header: Header, nProofOfWorkLimit: nat) returns (bits: nat)
    requires Usable(p) && chain != [] && nProofOfWorkLimit == LimitBits(p)
    ensures var last := chain[|chain| - 1];
            bits == if !p.fPowAllowMinDifficultyBlocks then last.nBits
                    else if header.nTime > last.nTime + p.nPowTargetSpacing * 6 then LimitBits(p)
                    else LastOrdinary(p, chain, |chain| - 1)
  {
    hide Encode;
    var last := chain[|chain| - 1];
    if p.fPowAllowMinDifficultyBlocks {
      if header.nTime > last.nTime + p.nPowTargetSpacing * 6 {
        return nProofOfWorkLimit;
      } else {
        var pindex := |chain| - 1;
        while pindex > 0 && pindex % DifficultyAdjustmentInterval(p) != 0 && chain[pindex].nBits == nProofOfWorkLimit
          invariant 0 <= pindex < |chain| && LastOrdinary(p, chain, pindex) == LastOrdinary(p, chain, |chain| - 1)
        {
          pindex := pindex - 1;
        }
        return chain[pindex].nBits;
      }
    }
    return last.nBits;
  }
}
