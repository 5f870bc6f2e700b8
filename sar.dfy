/**
 * The resolver itself: the bit search loop and the neighbour refinement,
 * written as the source writes them, and proved against SarSpec.
 */
module Sar {
  import opened Bits
  import opened SarSpec

  /** `min(candidates, key=lambda c: abs(y_from_x(c) - target))`: scans the
      candidates in order and replaces the best one only on a strictly
      smaller error, so the first minimum wins. */
  method MinByAbsError(candidates: seq<int>, target: int) returns (best: int)
    requires |candidates| > 0
    ensures best in candidates
    ensures forall c :: c in candidates ==> AbsError(best, target) <= AbsError(c, target)
    ensures IsFirstMinimiser(candidates, target, best)
  {
    best := candidates[0];
    var bestKey := AbsError(best, target);
    ghost var k: nat := 0;
    for i := 1 to |candidates|
      invariant k < i && candidates[k] == best && bestKey == AbsError(best, target)
      invariant forall j :: 0 <= j < i ==> bestKey <= AbsError(candidates[j], target)
      invariant forall j :: 0 <= j < k ==> AbsError(candidates[j], target) > bestKey
    {
      var key := AbsError(candidates[i], target);
      if key < bestKey {
        best, bestKey, k := candidates[i], key, i;
      }
    }
    assert FirstMinimumAt(candidates, target, k);
  }

  /** `sar_successive_approx(target)` under the given bit-keep policy. */
  method SarSuccessiveApprox(target: int, policy: Policy) returns (r: SarResult)
    ensures IsResultOf(policy, target, r)
    ensures |r.steps| == 4 && forall i :: 0 <= i < 4 ==> r.steps[i].bit == 3 - i
    ensures IsSarCode(policy, Clip(target), KeptCode(r.steps))
    ensures 0 <= r.x <= MaxCode
    ensures r.y == 1000 - 30 * r.x && r.absError == Abs(r.y - target)
    ensures forall c :: 0 <= c <= MaxCode ==> r.absError <= AbsError(c, target)
  {
    var t := Clip(target);
    var x: nat := 0;
    var steps: seq<Step> := [];
    var bit: int := 3;
    while bit >= 0
      invariant -1 <= bit <= 3 && |steps| == 3 - bit
      invariant IsTrailPrefix(policy, t, steps)
      invariant x == KeptCode(steps)
      invariant LowBitsClear(x, bit + 1)
    {
      var trial := Or(x, ShiftLeft(1, bit));
      var yTrial := YFromX(trial);
      var keep := Keep(policy, yTrial, t);
      OrAlignedIsAdd(x, bit);
      AlignedAfterSet(x, bit);
      var step := Step(bit, trial, yTrial, keep);
      TrailPrefixExtend(policy, t, steps, step);
      if keep {
        x := trial;
      }
      steps := steps + [step];
      bit := bit - 1;
    }

    var candidates := [x];
    if x < MaxCode {
      candidates := candidates + [x + 1];
    }
    assert candidates == Candidates(x);
    var bestX := MinByAbsError(candidates, target);
    var bestY := YFromX(bestX);
    r := SarResult(target, bestX, bestY, Abs(bestY - target), steps);

    TrailYieldsSarCode(policy, t, steps);
    ResultInRange(policy, target, r);
    NearestCode(policy, target, r);
    forall i | 0 <= i < 4
      ensures r.steps[i].bit == 3 - i
    {
      assert StepFollows(policy, t, steps, i);
    }
  }
}
