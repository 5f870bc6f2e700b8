/**
 * How the strict (`y_trial > t`) and the inclusive (`y_trial >= t`) bit-keep
 * policies relate, and the results for the demonstration targets.
 */
module PolicyComparison {
  import opened SarSpec

  /** Trails of the two policies (or of one) share their first k steps as long
      as their first k keep flags agree. */
  lemma PrefixesAgreeWhileKeepsAgree(p1: Policy, p2: Policy, t: int, s1: seq<Step>, s2: seq<Step>, k: nat)
    requires IsTrail(p1, t, s1) && IsTrail(p2, t, s2) && k <= Width
    requires forall j :: 0 <= j < k ==> s1[j].keep == s2[j].keep
    ensures s1[..k] == s2[..k]
  {
    PrefixesAgree(p1, p2, t, s1, s2, k);
  }

  /** At the first step where the keep flags of the two policies differ, both
      tried the same code, its output equals the clipped target, and only the
      inclusive policy kept it. */
  lemma FirstKeepDifferenceIsTie(t: int, strict: seq<Step>, inclusive: seq<Step>, i: nat)
    requires IsTrail(StrictGreater, t, strict) && IsTrail(GreaterOrEqual, t, inclusive)
    requires i < Width && strict[i].keep != inclusive[i].keep
    requires forall j :: 0 <= j < i ==> strict[j].keep == inclusive[j].keep
    ensures strict[..i] == inclusive[..i]
    ensures strict[i].trial == inclusive[i].trial && strict[i].trialY == inclusive[i].trialY
    ensures strict[i].trialY == t
    ensures !strict[i].keep && inclusive[i].keep
  {
    PrefixesAgreeWhileKeepsAgree(StrictGreater, GreaterOrEqual, t, strict, inclusive, i);
    assert StepFollows(StrictGreater, t, strict, i) && StepFollows(GreaterOrEqual, t, inclusive, i);
  }

  /** The two policies produce the same trail exactly when no trial output of
      the strict trail equals the clipped target. */
  lemma TrailsEqualIffNoTie(t: int, strict: seq<Step>, inclusive: seq<Step>)
    requires IsTrail(StrictGreater, t, strict) && IsTrail(GreaterOrEqual, t, inclusive)
    ensures strict == inclusive <==> forall i :: 0 <= i < Width ==> strict[i].trialY != t
  {
    if forall i :: 0 <= i < Width ==> strict[i].trialY != t {
      PrefixesAgreeWhilePoliciesAgree(StrictGreater, GreaterOrEqual, t, strict, inclusive, Width);
      assert strict == strict[..Width] && inclusive == inclusive[..Width];
    } else {
      var i :| 0 <= i < Width && strict[i].trialY == t;
      assert StepFollows(StrictGreater, t, strict, i);
      assert StepFollows(GreaterOrEqual, t, inclusive, i);
      assert inclusive[i].trialY == t ==> inclusive[i].keep;
      assert strict[i] != inclusive[i];
    }
  }

  /** Every trial code is at least 1, so no trial output reaches 1000. */
  lemma TrialBelowTop(p: Policy, t: int, s: seq<Step>, i: nat)
    requires IsTrail(p, t, s) && i < Width
    ensures s[i].trial >= 1 && s[i].trialY <= 970
  {
    assert StepFollows(p, t, s, i);
  }

  /** Although their trails can differ, the two policies always end on the
      same code, output and error: when some trial output equals the clipped
      target, the refinement moves the strict result up onto that trial code,
      which the inclusive search already kept. */
  lemma PoliciesAgreeOnResult(target: int, rs: SarResult, ri: SarResult)
    requires IsResultOf(StrictGreater, target, rs) && IsResultOf(GreaterOrEqual, target, ri)
    ensures rs.x == ri.x && rs.y == ri.y && rs.absError == ri.absError
  {
    var t := Clip(target);
    TrailsEqualIffNoTie(t, rs.steps, ri.steps);
    if rs.steps == ri.steps {
      FirstMinimiserUnique(Candidates(KeptCode(rs.steps)), target, rs.x, ri.x);
    } else {
      var i :| 0 <= i < Width && rs.steps[i].trialY == t;
      var tie := rs.steps[i].trial;
      TrialBelowTop(StrictGreater, t, rs.steps, i);
      assert StepFollows(StrictGreater, t, rs.steps, i);
      ResultInRange(StrictGreater, target, rs);
      ResultInRange(GreaterOrEqual, target, ri);
      NearestCode(StrictGreater, target, rs);
      NearestCode(GreaterOrEqual, target, ri);
      if target < TargetLow {
        assert AbsError(MaxCode, target) == TargetLow - target;
        assert rs.x == MaxCode && ri.x == MaxCode;
      } else {
        assert t == target && tie <= MaxCode;
        assert AbsError(tie, target) == 0;
        assert YFromX(rs.x) == target == YFromX(ri.x);
      }
    }
  }

  /** Demonstration target 630, under either policy (no trial output equals
      630): bits 3 and 2 are kept, and the search ends on code 12 (output 640,
      error 10). */
  lemma Demo630(p: Policy, r: SarResult)
    requires IsResultOf(p, 630, r)
    ensures r.steps == [Step(3, 8, 760, true), Step(2, 12, 640, true), Step(1, 14, 580, false), Step(0, 13, 610, false)]
    ensures r.x == 12 && r.y == 640 && r.absError == 10
  {
    var s := [Step(3, 8, 760, true), Step(2, 12, 640, true), Step(1, 14, 580, false), Step(0, 13, 610, false)];
    assert s[..1] == [s[0]] && s[..2] == [s[0], s[1]] && s[..3] == [s[0], s[1], s[2]];
    assert StepFollows(p, 630, s, 0) && StepFollows(p, 630, s, 1);
    assert StepFollows(p, 630, s, 2) && StepFollows(p, 630, s, 3);
    TrailUnique(p, 630, s, r.steps);
    RefinementChoice(12, 630, r.x);
  }

  /** Demonstration target 780, under either policy (no trial output equals
      780): bit 3 is dropped, the other three kept, and the search ends on
      code 7 (output 790, error 10). */
  lemma Demo780(p: Policy, r: SarResult)
    requires IsResultOf(p, 780, r)
    ensures r.steps == [Step(3, 8, 760, false), Step(2, 4, 880, true), Step(1, 6, 820, true), Step(0, 7, 790, true)]
    ensures r.x == 7 && r.y == 790 && r.absError == 10
  {
    var s := [Step(3, 8, 760, false), Step(2, 4, 880, true), Step(1, 6, 820, true), Step(0, 7, 790, true)];
    assert s[..1] == [s[0]] && s[..2] == [s[0], s[1]] && s[..3] == [s[0], s[1], s[2]];
    assert StepFollows(p, 780, s, 0) && StepFollows(p, 780, s, 1);
    assert StepFollows(p, 780, s, 2) && StepFollows(p, 780, s, 3);
    TrailUnique(p, 780, s, r.steps);
    RefinementChoice(7, 780, r.x);
  }

  /** The strict trail for target 790: bit 0 (trial 7, output 790) is dropped. */
  lemma StrictTrail790(s: seq<Step>)
    requires IsTrail(StrictGreater, 790, s)
    ensures s == [Step(3, 8, 760, false), Step(2, 4, 880, true), Step(1, 6, 820, true), Step(0, 7, 790, false)]
    ensures KeptCode(s) == 6
  {
    var e := [Step(3, 8, 760, false), Step(2, 4, 880, true), Step(1, 6, 820, true), Step(0, 7, 790, false)];
    assert e[..1] == [e[0]] && e[..2] == [e[0], e[1]] && e[..3] == [e[0], e[1], e[2]];
    assert StepFollows(StrictGreater, 790, e, 0) && StepFollows(StrictGreater, 790, e, 1);
    assert StepFollows(StrictGreater, 790, e, 2) && StepFollows(StrictGreater, 790, e, 3);
    TrailUnique(StrictGreater, 790, e, s);
  }

  /** The inclusive trail for target 790: bit 0 (trial 7, output 790) is kept. */
  lemma InclusiveTrail790(s: seq<Step>)
    requires IsTrail(GreaterOrEqual, 790, s)
    ensures s == [Step(3, 8, 760, false), Step(2, 4, 880, true), Step(1, 6, 820, true), Step(0, 7, 790, true)]
    ensures KeptCode(s) == 7
  {
    var e := [Step(3, 8, 760, false), Step(2, 4, 880, true), Step(1, 6, 820, true), Step(0, 7, 790, true)];
    assert e[..1] == [e[0]] && e[..2] == [e[0], e[1]] && e[..3] == [e[0], e[1], e[2]];
    assert StepFollows(GreaterOrEqual, 790, e, 0) && StepFollows(GreaterOrEqual, 790, e, 1);
    assert StepFollows(GreaterOrEqual, 790, e, 2) && StepFollows(GreaterOrEqual, 790, e, 3);
    TrailUnique(GreaterOrEqual, 790, e, s);
  }

  /** Target 790 lands on the output of code 7: the policies disagree on
      keeping bit 0 (trial 7), the strict search stops at 6 and the inclusive
      one at 7, and both return code 7 with error 0. */
  lemma Tie790(rs: SarResult, ri: SarResult)
    requires IsResultOf(StrictGreater, 790, rs) && IsResultOf(GreaterOrEqual, 790, ri)
    ensures rs.steps[..3] == ri.steps[..3]
    ensures rs.steps[3] == Step(0, 7, 790, false) && ri.steps[3] == Step(0, 7, 790, true)
    ensures KeptCode(rs.steps) == 6 && KeptCode(ri.steps) == 7
    ensures rs.x == ri.x == 7 && rs.absError == ri.absError == 0
  {
    StrictTrail790(rs.steps);
    InclusiveTrail790(ri.steps);
    assert rs.steps[..3] == ri.steps[..3];
    RefinementChoice(6, 790, rs.x);
    RefinementChoice(7, 790, ri.x);
  }
}
