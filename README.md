# 4-bit successive-approximation search, modelled in Dafny

The repository resolves a target value to the 4-bit code `x` in [0, 15] whose
output `y = 1000 - 30·x` is closest to that target. The search has three stages:

1. The target is clipped into [550, 1000].
2. Bits 3, 2, 1, 0 are tried in that order. Each trial is `x | (1 << bit)`.
   The bit is kept when the trial output passes a threshold test against the
   clipped target `t`. Every trial is recorded as a step `(bit, trial, y_trial, keep)`.
3. The search code and, when it is below 15, its upper neighbour are the
   candidates. The first of them with the least distance from the
   **unclipped** target is returned.

There are two copies of the search. They differ only in the threshold test:
`successive_approximation.py` keeps a bit on `y_trial > t` (line 31), and
`successive_approximation_scheme.py` keeps it on `y_trial >= t` (line 29).
The model has one resolver with a `Policy` parameter instead of two copies:
`StrictGreater` is the first file and `GreaterOrEqual` is the second.

Files:

- `bits.dfy` (module `Bits`): Python's `<<` and `|` on non-negative integers.
  `|` is defined bit by bit; `v << n` is `v * 2^n`. The module includes the
  fact that setting a clear bit is an addition.
- `sar_spec.dfy` (module `SarSpec`): the declarative side. It defines the
  transfer function, clipping, the keep test of each policy, and what a
  well-formed step trail is (`IsTrail`). It defines the code the search must
  reach (`IsSarCode`: the largest accepted code, or 0) and `min`'s first-minimum
  choice (`IsFirstMinimiser`). `IsResultOf` states everything a call returns.
  The module also holds the lemmas about these definitions.
- `sar.dfy` (module `Sar`): the resolver as the source writes it. It has the
  descending bit loop, which updates `x` and appends to `steps`; the candidate
  list, which is built by append; and `min` with a key, as a scanning loop. Both
  methods are proved against `SarSpec`.
- `policies.dfy` (module `PolicyComparison`): how the two policies relate,
  and the demonstration targets 630 and 780, with 790 as the tie case.

On a tie, such as target 790, the two files produce different step trails.
`PolicyComparison.TrailsEqualIffNoTie` shows the trails differ exactly when
some trial output equals the clipped target. The two files never return a
different code, output or error (`PolicyComparison.PoliciesAgreeOnResult`).
On a tie the strict search stops one code short of the tied trial code, and
the neighbour refinement moves it onto that code. For 790 both return code 7
(`PolicyComparison.Tie790`).

## Model

| member | source | states |
|---|---|---|
| Bits.OrAlignedIsAdd | successive_approximation.py:28 | `x \| (1 << bit)` equals `x + 2^bit` when bits 0..bit of x are clear |
| Bits.AlignedAfterSet | successive_approximation.py:27-33 | after bit b is set or left clear, bits below b are still clear, so the next trial's OR is again an addition |
| SarSpec.YFromXStrictlyDecreasing | successive_approximation.py:9-10 | `y_from_x` is strictly decreasing: a < b implies y(a) > y(b) |
| SarSpec.Clip | successive_approximation.py:22 | the clipped target lies in [550, 1000]; it equals the target inside that range and 550 or 1000 outside it |
| SarSpec.KeepDiffersOnlyAtTie | successive_approximation_scheme.py:29 | the `>=` keep test and the `>` test disagree exactly when y_trial equals t; a strict keep implies an inclusive keep |
| SarSpec.AcceptsDownwardClosed | successive_approximation.py:31 | every code below a code that passes the keep test also passes it |
| SarSpec.TrailPrefixExtend | successive_approximation.py:32-34 | appending the step for the next bit keeps the trail well formed; the kept code becomes the trial exactly when keep holds |
| SarSpec.TrailPrefixInvariant | successive_approximation.py:27-33 | greedy invariant after k steps, with w = 2^(4-k): the kept code x is accepted (or 0), x + w <= 16, and every accepted code is below x + w |
| SarSpec.TrailYieldsSarCode | successive_approximation.py:27-33 | after the loop, x is the largest code in [0, 15] that passes the keep test, or 0 when none does |
| SarSpec.PrefixesAgree | successive_approximation.py:27-34 | two trails (of either policy) share their first k steps as long as, at each of those steps where both tried the same output, they made the same keep decision |
| SarSpec.PrefixesAgreeWhilePoliciesAgree | successive_approximation_scheme.py:26-32 | two trails share their first k steps while both policies give the same verdict on the first trail's outputs |
| SarSpec.TrailUnique | successive_approximation.py:27-34 | one policy and one clipped target admit exactly one step trail |
| SarSpec.Candidates | successive_approximation.py:37-39 | the candidate list starts with x and has x + 1 as a second entry exactly when x < 15 |
| SarSpec.FirstMinimiserUnique | successive_approximation.py:42 | `min` with a key has exactly one first minimum |
| SarSpec.RefinementChoice | successive_approximation_scheme.py:34-38 | the refinement keeps x unless x + 1 exists and is strictly closer to the unclipped target (a tie goes to x); the choice is no worse than either candidate |
| SarSpec.ResultUnique | successive_approximation.py:20-44 | the search is deterministic: one policy and one target admit one result |
| SarSpec.ResultInRange | successive_approximation.py:37-44 | the returned code is in [0, 15] and is the search code or the code after it |
| SarSpec.NearestCode | successive_approximation.py:36-42 | the returned code is a nearest code to the unclipped target over all of [0, 15], not only over the two candidates |
| SarSpec.SarCodeAtLowerClip | successive_approximation_scheme.py:26-36 | with t = 550 the inclusive search reaches 15 and forms no x + 1 candidate; the strict search reaches 14 and forms two candidates |
| SarSpec.SarCodeAtUpperClip | successive_approximation.py:22-33 | with t = 1000 the search code is 0 under both policies |
| SarSpec.TargetsBelowRangeShareTrail | successive_approximation.py:22-44 | a target at or below 550 has the same step trail as 550 and ends on code 15; its error exceeds that of 550 by 550 - target |
| SarSpec.TargetsAboveRangeShareTrail | successive_approximation_scheme.py:22-40 | a target at or above 1000 has the same step trail as 1000 and ends on code 0; its error exceeds that of 1000 by target - 1000 |
| Sar.MinByAbsError | successive_approximation.py:42 | returns a candidate with the least error, and the first such candidate in list order |
| Sar.SarSuccessiveApprox | successive_approximation.py:20-44 | the result is the one `IsResultOf` describes: four steps for bits 3, 2, 1, 0 whose trials, outputs and keep flags follow the policy's test against the clipped target; the search code is the largest accepted code; the code is in [0, 15] and nearest to the unclipped target; y = 1000 - 30·x and the error is measured against the unclipped target |
| PolicyComparison.PrefixesAgreeWhileKeepsAgree | successive_approximation_scheme.py:26-32 | trails of the two policies share their first k steps while their first k keep flags agree |
| PolicyComparison.FirstKeepDifferenceIsTie | successive_approximation.py:31 | at the first step where the keep flags differ, both policies tried the same code, its output equals t, and only the inclusive policy kept it |
| PolicyComparison.TrailsEqualIffNoTie | successive_approximation_scheme.py:29 | the two policies give the same trail exactly when no strict trial output equals t |
| PolicyComparison.TrialBelowTop | successive_approximation.py:28-29 | every trial code is at least 1, so no trial output reaches 1000 |
| PolicyComparison.PoliciesAgreeOnResult | successive_approximation_scheme.py:20-40 | for every target, both policies return the same code, output and error |
| PolicyComparison.Demo630 | successive_approximation.py:48 | target 630, under either policy, has trail (3,8,760,kept) (2,12,640,kept) (1,14,580,not kept) (0,13,610,not kept) and ends on code 12, output 640, error 10 |
| PolicyComparison.Demo780 | successive_approximation.py:48 | target 780, under either policy, has trail (3,8,760,not kept) (2,4,880,kept) (1,6,820,kept) (0,7,790,kept) and ends on code 7, output 790, error 10 |
| PolicyComparison.StrictTrail790 | successive_approximation.py:27-34 | the strict trail for t = 790 drops bit 0 (trial 7, output 790) and keeps code 6 |
| PolicyComparison.InclusiveTrail790 | successive_approximation_scheme.py:26-32 | the inclusive trail for t = 790 keeps bit 0 (trial 7, output 790) and keeps code 7 |
| PolicyComparison.Tie790 | successive_approximation_scheme.py:29-38 | for target 790 the policies share the first three steps, disagree on keeping trial 7, and both return code 7 with error 0 |

## Left out

- `main()` and the `__main__` guard (both files) are left out. They only print the results for targets 630 and 780. The values they print are stated by `PolicyComparison.Demo630` and `PolicyComparison.Demo780`.
- The `int(target)` coercion is left out. The target is a Dafny `int`, so non-integer inputs are not modelled.
- `SARResult` is a `@dataclass` and its `steps` is a Python list of tuples. Both are modelled as immutable values: the result as a datatype, and the steps as a `seq<Step>`. Nothing in the source mutates a result after it is returned.
- Python's `min` is modelled only for a non-empty list. It raises on an empty list, but the candidate list always holds at least x.
- `Bits.Or` and `Bits.ShiftLeft` model `|` and `<<` for non-negative operands only. Every operand in the source is non-negative.
