/**
 * Knock counting of one rotor: how many notches a rotor meets while it
 * advances. A single step moves the rotor to the next position and knocks
 * once when that new position carries a notch. A batch advance by `steps`
 * is meant to deliver, in one callback, the knocks of `steps` single steps,
 * computed in constant time.
 *
 * `StepwiseKnocks` is the reference (repeated single steps), `BatchKnocks`
 * is the constant-time count the rotor uses, and `MaskKnocks` is the count
 * as the bit-mask in enigma/enigma.hpp:110-118 computes it, which differs.
 */
module Knocks {
  import opened Tables

  /** The smaller of two positions, the first entry of a sorted pair. */
  function Min(a: nat, b: nat): (r: nat)
    ensures (r == a || r == b) && r <= a && r <= b
  {
    if a <= b then a else b
  }

  /** The larger of two positions, the second entry of a sorted pair. */
  function Max(a: nat, b: nat): (r: nat)
    ensures (r == a || r == b) && r >= a && r >= b
  {
    if a <= b then b else a
  }

  lemma {:induction false} MulAtLeast(d: int, b: nat)
    ensures d >= 1 ==> d * b >= b
    decreases if d < 0 then 0 else d
  {
    if d > 1 {
      MulAtLeast(d - 1, b);
      assert d * b == (d - 1) * b + b;
    }
  }

  lemma {:induction false} MulMonotone(k: nat, a: nat, b: nat)
    requires a <= b
    ensures k * a <= k * b
  {
    if k > 0 {
      MulMonotone(k - 1, a, b);
      MulSucc(k - 1, a);
      MulSucc(k - 1, b);
    }
  }

  /** Division with remainder splits `x` into `x / b` wholes of `b` and the rest. */
  lemma LapsAndRest(x: nat, b: nat)
    requires b > 0
    ensures x == x / b * b + x % b
  {
  }

  /**
   * Whole laps meet at most `laps * count` knocks and a partial lap at most
   * `count` more, for `count <= b` notches over laps of `b` steps.
   */
  lemma LapBounds(steps: nat, b: nat, laps: nat, rest: nat, count: nat, arc: nat)
    requires b > 0 && laps == steps / b && rest == steps % b
    requires count <= b && arc <= rest && arc <= count
    ensures laps * count + arc <= steps
    ensures laps * count + arc <= (laps + 1) * count
  {
    LapsAndRest(steps, b);
    MulMonotone(laps, count, b);
    MulSucc(laps, count);
  }

  lemma MulSucc(a: int, b: int)
    ensures (a + 1) * b == a * b + b
  {
  }

  /** Euclidean division has one quotient and one remainder. */
  lemma DivModUnique(x: int, b: int, q: int, r: int)
    requires b > 0 && 0 <= r < b && x == q * b + r
    ensures x / b == q && x % b == r
  {
    var q', r' := x / b, x % b;
    var d := q - q';
    assert d * b == r' - r by {
      assert q * b - q' * b == (q - q') * b;
    }
    MulAtLeast(d, b);
    MulAtLeast(-d, b);
  }

  /** Position after one single step: increment, then wrap at `base`. */
  function StepPosition(p: nat, base: nat): (q: nat)
    requires p < base
    ensures q < base && q == (p + 1) % base
  {
    if p + 1 == base then DivModUnique(p + 1, base, 1, 0); 0
    else DivModUnique(p + 1, base, 0, p + 1); p + 1
  }

  /** 1 when a notch sits at position `q`, else 0. */
  function Hit(notches: seq<bool>, q: nat): nat
    requires q < |notches|
  {
    if notches[q] then 1 else 0
  }

  /** Reference: the position after `steps` single steps from `p`. */
  function StepwisePosition(base: nat, p: nat, steps: nat): (q: nat)
    requires p < base
    ensures q < base
    decreases steps
  {
    if steps == 0 then p else StepwisePosition(base, StepPosition(p, base), steps - 1)
  }

  /**
   * Reference: the knocks delivered over `steps` single steps from `p`; each
   * step meets at most one notch.
   */
  function StepwiseKnocks(notches: seq<bool>, p: nat, steps: nat): (knocks: nat)
    requires p < |notches|
    ensures knocks <= steps
    decreases steps
  {
    if steps == 0 then 0
    else
      var q := StepPosition(p, |notches|);
      Hit(notches, q) + StepwiseKnocks(notches, q, steps - 1)
  }

  /** Stepping `a` then `b` times is stepping `a + b` times. */
  lemma {:induction false} StepwiseSplit(notches: seq<bool>, p: nat, a: nat, b: nat)
    requires p < |notches|
    ensures StepwisePosition(|notches|, p, a + b)
         == StepwisePosition(|notches|, StepwisePosition(|notches|, p, a), b)
    ensures StepwiseKnocks(notches, p, a + b)
         == StepwiseKnocks(notches, p, a) + StepwiseKnocks(notches, StepwisePosition(|notches|, p, a), b)
    decreases a
  {
    if a > 0 {
      StepwiseSplit(notches, StepPosition(p, |notches|), a - 1, b);
    }
  }

  /** Steps that do not pass the last position meet the notches in (p, p + steps]. */
  lemma {:induction false} WithinLap(notches: seq<bool>, p: nat, steps: nat)
    requires p + steps < |notches|
    ensures StepwisePosition(|notches|, p, steps) == p + steps
    ensures StepwiseKnocks(notches, p, steps) == CountRange(notches, p + 1, p + steps + 1)
    decreases steps
  {
    if steps > 0 {
      WithinLap(notches, p + 1, steps - 1);
      CountSplit(notches, p + 1, p + 2, p + steps + 1);
    }
  }

  /**
   * At most one revolution that wraps past the last position meets the
   * notches in (p, base) and then those in [0, p + steps - base].
   */
  lemma WrapLap(notches: seq<bool>, p: nat, steps: nat)
    requires p < |notches| && steps <= |notches| <= p + steps
    ensures StepwisePosition(|notches|, p, steps) == p + steps - |notches|
    ensures StepwiseKnocks(notches, p, steps)
         == CountRange(notches, p + 1, |notches|) + CountRange(notches, 0, p + steps - |notches| + 1)
  {
    var n := |notches|;
    var a := n - 1 - p;
    StepwiseSplit(notches, p, a, steps - a);
    WithinLap(notches, p, a);
    WithinLap(notches, 0, steps - a - 1);
    CountSplit(notches, 0, 1, p + steps - n + 1);
  }

  /** Each whole revolution returns to the start and meets every notch once. */
  lemma {:induction false} FullLaps(notches: seq<bool>, p: nat, k: nat)
    requires p < |notches|
    ensures StepwisePosition(|notches|, p, k * |notches|) == p
    ensures StepwiseKnocks(notches, p, k * |notches|) == k * PopCount(notches)
    decreases k
  {
    if k > 0 {
      var n := |notches|;
      assert k * n == (k - 1) * n + n;
      assert k * PopCount(notches) == (k - 1) * PopCount(notches) + PopCount(notches);
      FullLaps(notches, p, k - 1);
      StepwiseSplit(notches, p, (k - 1) * n, n);
      WrapLap(notches, p, n);
      CountSplit(notches, 0, p + 1, n);
    }
  }

  /** Whole revolutions meet every notch once each. */
  function RevolutionKnocks(revolutions: nat, notchCount: nat): nat {
    revolutions * notchCount
  }

  /**
   * The constant-time knock count of a batch advance: `steps / base` whole
   * revolutions, then the arc of the remaining `steps % base` steps, which
   * wraps past the last position when it runs beyond it.
   */
  function BatchKnocks(notches: seq<bool>, p: nat, steps: nat): (knocks: nat)
    requires p < |notches|
    ensures steps / |notches| * PopCount(notches) <= knocks <= steps
    ensures knocks <= (steps / |notches| + 1) * PopCount(notches)
  {
    var laps, rest := steps / |notches|, steps % |notches|;
    var arc := ArcKnocks(notches, p, rest);
    LapBounds(steps, |notches|, laps, rest, PopCount(notches), arc);
    RevolutionKnocks(laps, PopCount(notches)) + arc
  }

  /**
   * The notches on the arc (p, p + rest], read around the rotor: at most one
   * per step, and no notch twice.
   */
  function ArcKnocks(notches: seq<bool>, p: nat, rest: nat): (knocks: nat)
    requires p < |notches| && rest < |notches|
    ensures knocks <= rest && knocks <= PopCount(notches)
  {
    var base := |notches|;
    CountSplit(notches, 0, p + 1, base);
    if p + rest < base then
      CountSplit(notches, p + 1, p + rest + 1, base);
      CountRange(notches, p + 1, p + rest + 1)
    else
      CountSplit(notches, 0, p + rest - base + 1, p + 1);
      CountRange(notches, p + 1, base) + CountRange(notches, 0, p + rest - base + 1)
  }

  /** Advancing by no steps delivers no knocks. */
  lemma NoStepsNoKnocks(notches: seq<bool>, p: nat)
    requires p < |notches|
    ensures BatchKnocks(notches, p, 0) == 0
  {
    DivModUnique(0, |notches|, 0, 0);
  }

  /** Fewer steps than a revolution meet exactly the notches on their arc. */
  lemma ArcIsStepwise(notches: seq<bool>, p: nat, rest: nat)
    requires p < |notches| && rest < |notches|
    ensures StepwiseKnocks(notches, p, rest) == ArcKnocks(notches, p, rest)
    ensures StepwisePosition(|notches|, p, rest)
         == if p + rest < |notches| then p + rest else p + rest - |notches|
  {
    if p + rest < |notches| {
      WithinLap(notches, p, rest);
    } else {
      WrapLap(notches, p, rest);
    }
  }

  /**
   * A batch advance lands where `steps` single steps land, and its knock
   * count is the number of knocks those single steps deliver.
   */
  lemma BatchIsStepwise(notches: seq<bool>, p: nat, steps: nat)
    requires p < |notches|
    ensures (p + steps) % |notches| == StepwisePosition(|notches|, p, steps)
    ensures BatchKnocks(notches, p, steps) == StepwiseKnocks(notches, p, steps)
  {
    var n := |notches|;
    var laps, rest := steps / n, steps % n;
    LapsAndRest(steps, n);
    LapsThenArc(notches, p, steps, laps, rest);
    ModAfterLaps(p, n, laps, rest);
  }

  /**
   * `steps` single steps are `laps` whole revolutions, which return to `p`
   * and meet each notch `laps` times, followed by the arc of `rest` steps.
   */
  lemma LapsThenArc(notches: seq<bool>, p: nat, steps: nat, laps: nat, rest: nat)
    requires p < |notches| && rest < |notches| && steps == laps * |notches| + rest
    ensures StepwisePosition(|notches|, p, steps)
         == if p + rest < |notches| then p + rest else p + rest - |notches|
    ensures StepwiseKnocks(notches, p, steps) == laps * PopCount(notches) + ArcKnocks(notches, p, rest)
  {
    StepwiseSplit(notches, p, laps * |notches|, rest);
    FullLaps(notches, p, laps);
    ArcIsStepwise(notches, p, rest);
  }

  /** Whole laps do not change where an advance lands. */
  lemma ModAfterLaps(p: nat, n: nat, laps: nat, rest: nat)
    requires p < n && rest < n
    ensures (p + (laps * n + rest)) % n == if p + rest < n then p + rest else p + rest - n
  {
    if p + rest < n {
      DivModUnique(p + (laps * n + rest), n, laps, p + rest);
    } else {
      MulSucc(laps, n);
      DivModUnique(p + (laps * n + rest), n, laps + 1, p + rest - n);
    }
  }

  /** `~NotchArray{}`: all `base` bits set. */
  function Ones(base: nat): (bits: seq<bool>)
    ensures |bits| == base && forall i :: 0 <= i < base ==> bits[i]
  {
    seq(base, i => true)
  }

  /** `bits << k`: bit i moves to i + k; bits shifted past the width are lost. */
  function ShiftLeft(bits: seq<bool>, k: nat): (r: seq<bool>)
    ensures |r| == |bits|
    ensures forall i :: 0 <= i < |bits| - k ==> r[i + k] == bits[i]
    ensures forall i :: 0 <= i < k && i < |bits| ==> !r[i]
  {
    seq(|bits|, i requires 0 <= i < |bits| => k <= i && bits[i - k])
  }

  /** `bits >> k`: bit i moves to i - k; bits shifted below 0 are lost. */
  function ShiftRight(bits: seq<bool>, k: nat): (r: seq<bool>)
    ensures |r| == |bits|
    ensures forall i :: k <= i < |bits| ==> r[i - k] == bits[i]
    ensures forall i :: 0 <= i < |bits| && |bits| <= i + k ==> !r[i]
  {
    seq(|bits|, i requires 0 <= i < |bits| => i + k < |bits| && bits[i + k])
  }

  /**
   * The mask built at enigma.hpp:114-117 from the old position and the new
   * one. It holds the bits [base - trail, base - lead), where lead and trail
   * are the smaller and the larger of the two positions, and it is
   * complemented when the advance wrapped (new position below the old).
   */
  function SweepMask(base: nat, position: nat, next: nat): (mask: seq<bool>)
    requires position < base && next < base
    ensures |mask| == base
    ensures position <= next ==>
      forall i :: 0 <= i < base ==> mask[i] == (base - next <= i < base - position)
    ensures next < position ==>
      forall i :: 0 <= i < base ==> mask[i] == !(base - position <= i < base - next)
  {
    var lead := Min(position, next);
    var trail := Max(position, next);
    var mask := ShiftRight(ShiftLeft(Ones(base), lead + (base - trail)), lead);
    if next < position then Not(mask) else mask
  }

  /**
   * The knock count of `advance(steps)` as enigma.hpp:110-118 computes it:
   * `(position + steps) / base` whole revolutions' worth of notches, plus the
   * notches at the mirrored positions [base - next, base - position) when the
   * advance did not wrap, or every notch outside [base - position, base -
   * next) when it did.
   */
  function MaskKnocks(notches: seq<bool>, position: nat, steps: nat): (knocks: nat)
    requires position < |notches|
    ensures var n := |notches|;
            var next := (position + steps) % n;
            knocks
            == (position + steps) / n * PopCount(notches)
               + if position <= next then CountRange(notches, n - next, n - position)
                 else PopCount(notches) - CountRange(notches, n - position, n - next)
  {
    var base := |notches|;
    RevolutionKnocks((position + steps) / base, PopCount(notches))
      + MaskSelected(notches, position, (position + steps) % base)
  }

  /** The notches `(notches & mask).count()` selects, with the source's mask. */
  function MaskSelected(notches: seq<bool>, p: nat, next: nat): (selected: nat)
    requires p < |notches| && next < |notches|
    ensures var n := |notches|;
            selected
            == if p <= next then CountRange(notches, n - next, n - p)
               else PopCount(notches) - CountRange(notches, n - p, n - next)
  {
    SweepMaskSelects(notches, p, next);
    PopCount(And(notches, SweepMask(|notches|, p, next)))
  }

  /**
   * The notches a mask shaped like the source's selects: those at the
   * mirrored positions [base - next, base - position) when the advance did
   * not wrap, or every notch outside [base - position, base - next) when it
   * did.
   */
  lemma SweepMaskCounts(notches: seq<bool>, mask: seq<bool>, p: nat, next: nat)
    requires p < |notches| && next < |notches| && |mask| == |notches|
    requires p <= next ==>
      forall i :: 0 <= i < |mask| ==> mask[i] == (|notches| - next <= i < |notches| - p)
    requires next < p ==>
      forall i :: 0 <= i < |mask| ==> mask[i] == !(|notches| - p <= i < |notches| - next)
    ensures var n := |notches|;
            PopCount(And(notches, mask))
            == if p <= next then CountRange(notches, n - next, n - p)
               else PopCount(notches) - CountRange(notches, n - p, n - next)
  {
    var n := |notches|;
    if next < p {
      ComplementMaskCount(notches, mask, n - p, n - next);
    } else {
      IntervalMaskCount(notches, mask, n - next, n - p);
    }
  }

  /** The notches the source's own mask selects, by the lemma above. */
  lemma SweepMaskSelects(notches: seq<bool>, p: nat, next: nat)
    requires p < |notches| && next < |notches|
    ensures var n := |notches|;
            PopCount(And(notches, SweepMask(n, p, next)))
            == if p <= next then CountRange(notches, n - next, n - p)
               else PopCount(notches) - CountRange(notches, n - p, n - next)
  {
    var mask := SweepMask(|notches|, p, next);
    SweepMaskCounts(notches, mask, p, next);
  }

  /**
   * The batch count of k whole revolutions: k knocks per notch, and the
   * position stays where it was.
   */
  lemma BatchWholeRevolutions(notches: seq<bool>, p: nat, k: nat)
    requires p < |notches|
    ensures (p + k * |notches|) % |notches| == p
    ensures BatchKnocks(notches, p, k * |notches|) == k * PopCount(notches)
  {
    var n := |notches|;
    DivModUnique(p + k * n, n, k, p);
    DivModUnique(k * n, n, k, 0);
  }

  /**
   * Whole revolutions (and no steps at all) are counted right by the
   * source's mask as well: k revolutions knock k times per notch.
   */
  lemma WholeRevolutions(notches: seq<bool>, p: nat, k: nat)
    requires p < |notches|
    ensures MaskKnocks(notches, p, k * |notches|) == k * PopCount(notches)
    ensures BatchKnocks(notches, p, k * |notches|) == k * PopCount(notches)
    ensures StepwiseKnocks(notches, p, k * |notches|) == k * PopCount(notches)
  {
    var n := |notches|;
    BatchWholeRevolutions(notches, p, k);
    DivModUnique(p + k * n, n, k, p);
    FullLaps(notches, p, k);
  }

  /**
   * Counter-example to the doc comment at enigma.hpp:105-108: from position
   * 0, one step onto the only notch, at 1, knocks once; the mask looks at bit
   * base - 1 instead and counts nothing.
   */
  lemma MaskMissesReachedNotch(notches: seq<bool>)
    requires |notches| >= 3
    requires forall i :: 0 <= i < |notches| ==> notches[i] == (i == 1)
    ensures StepwiseKnocks(notches, 0, 1) == 1
    ensures BatchKnocks(notches, 0, 1) == 1
    ensures MaskKnocks(notches, 0, 1) == 0
  {
    var n := |notches|;
    DivModUnique(1, n, 0, 1);
    CountNone(notches, n - 1, n);
    BatchIsStepwise(notches, 0, 1);
  }

  /**
   * Counter-example to the same comment: from the last position, one step
   * onto the only notch, at 0, knocks once; the source counts one whole
   * revolution and then the complemented mask, which holds bit 0 again.
   */
  lemma MaskCountsWrappedNotchTwice(notches: seq<bool>)
    requires |notches| >= 2
    requires forall i :: 0 <= i < |notches| ==> notches[i] == (i == 0)
    ensures StepwiseKnocks(notches, |notches| - 1, 1) == 1
    ensures BatchKnocks(notches, |notches| - 1, 1) == 1
    ensures MaskKnocks(notches, |notches| - 1, 1) == 2
  {
    var n := |notches|;
    CountSingle(notches, 0, 0, n);
    CountNone(notches, 1, n);
    WrappedStepCount(notches);
    WrappedMaskCount(notches);
  }

  /** Single steps and the corrected count from the last position onto a notch at 0. */
  lemma WrappedStepCount(notches: seq<bool>)
    requires |notches| >= 2 && notches[0] && CountRange(notches, 0, 1) == 1
    ensures StepwiseKnocks(notches, |notches| - 1, 1) == 1
    ensures BatchKnocks(notches, |notches| - 1, 1) == 1
  {
    var n := |notches|;
    assert StepPosition(n - 1, n) == 0;
    DivModUnique(1, n, 0, 1);
    assert ArcKnocks(notches, n - 1, 1) == CountRange(notches, 0, 1);
  }

  /** The source's count of the step from the last position onto the only notch, at 0. */
  lemma WrappedMaskCount(notches: seq<bool>)
    requires |notches| >= 2
    requires PopCount(notches) == 1 && CountRange(notches, 1, |notches|) == 0
    ensures MaskKnocks(notches, |notches| - 1, 1) == 2
  {
    var n := |notches|;
    DivModUnique(n - 1 + 1, n, 1, 0);
    assert MaskKnocks(notches, n - 1, 1)
        == 1 * PopCount(notches) + (PopCount(notches) - CountRange(notches, n - (n - 1), n - 0));
  }
}
