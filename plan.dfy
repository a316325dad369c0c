/**
 * The frame index planner of FrameExtractor.extract: which source frame is
 * fetched for output file number j, given the video length L (in frames)
 * and the sample count S.
 *
 * The source accumulates L/S in a float and takes its ceiling; here the
 * accumulator after j steps is the exact rational j*L/S, so the planned
 * index has the closed form below.
 */
module FramePlan {

  /** Ceiling of a / s, in integers. */
  function CeilDiv(a: int, s: int): (q: int)
    requires s > 0
    ensures (q - 1) * s < a <= q * s
  {
    var q := (a + s - 1) / s;
    assert (a + s - 1) == q * s + (a + s - 1) % s;
    q
  }

  /**
   * The end clamp: after j steps the accumulator is j*L/S, and the clamp
   * fires when one more step would pass frame L-1, i.e. j*L/S + L/S > L-1.
   */
  predicate Clamped(L: nat, S: nat, j: nat)
    requires S > 0
  {
    (j + 1) * L > (L - 1) * S
  }

  /** Clamped is the source's test j*L/S + L/S > L-1, in exact rationals. */
  lemma ClampedIsSourceTest(L: nat, S: nat, j: nat)
    requires S > 0
    ensures Clamped(L, S, j)
            <==> (j as real) * (L as real) / (S as real) + (L as real) / (S as real) > (L - 1) as real
  {
    var step := (L as real) / (S as real);
    assert (j as real) * (L as real) / (S as real) + step == ((j + 1) * L) as real / (S as real);
    assert ((j + 1) * L) as real / (S as real) > (L - 1) as real
           <==> ((j + 1) * L) as real > ((L - 1) * S) as real;
  }

  /**
   * Source frame index planned for output file number j: 0 for the first
   * file, L-1 once the clamp fires, otherwise the ceiling of j*L/S.
   * (With S == 0 only the first file is ever planned.)
   */
  function PlannedIndex(L: nat, S: nat, j: nat): (r: int)
    requires S > 0 || j == 0
    ensures L > 0 ==> 0 <= r < L
  {
    if j == 0 then 0
    else if Clamped(L, S, j) then L - 1
    else
      var c := CeilDiv(j * L, S);
      // not clamped: j*L + L <= (L-1)*S, so (c-1)*S < j*L < (L-1)*S
      MulLtCancel(c - 1, L - 1, S);
      c
  }

  /** The whole plan for S outputs, one index per output file number. */
  function Plan(L: nat, S: nat): (p: seq<int>)
    ensures |p| == S
    ensures forall j :: 0 <= j < S ==> p[j] == PlannedIndex(L, S, j)
  {
    seq(S, j requires 0 <= j < S => PlannedIndex(L, S, j))
  }

  lemma MulMonoRight(a: int, b: int, c: nat)
    requires a <= b
    ensures a * c <= b * c
  {
    assert b * c - a * c == (b - a) * c;
  }

  lemma MulLtCancel(a: int, b: int, c: int)
    requires c > 0 && a * c < b * c
    ensures a < b
  {
    if a >= b {
      MulMonoRight(b, a, c);
    }
  }

  lemma CeilDivMono(a: int, b: int, s: int)
    requires s > 0 && a <= b
    ensures CeilDiv(a, s) <= CeilDiv(b, s)
  {
    var p, q := CeilDiv(a, s), CeilDiv(b, s);
    if p > q {
      MulMonoRight(q, p - 1, s);
    }
  }

  /** Once the clamp fires it keeps firing for every later output. */
  lemma ClampPersists(L: nat, S: nat, j: nat, k: nat)
    requires S > 0 && j <= k && Clamped(L, S, j)
    ensures Clamped(L, S, k)
  {
    MulMonoRight(j + 1, k + 1, L);
  }

  /** The clamp always fires on the final output S-1. */
  lemma ClampAtLast(L: nat, S: nat)
    requires S > 0
    ensures Clamped(L, S, S - 1)
  {
    assert S * L - (L - 1) * S == S;
  }

  /** Planned indices never decrease, also when S > L and indices repeat. */
  lemma PlanMonotone(L: nat, S: nat, j: nat, k: nat)
    requires L > 0 && S > 0 && j <= k
    ensures PlannedIndex(L, S, j) <= PlannedIndex(L, S, k)
  {
    if j > 0 && !Clamped(L, S, k) {
      if Clamped(L, S, j) {
        ClampPersists(L, S, j, k);
      }
      MulMonoRight(j, k, L);
      CeilDivMono(j * L, k * L, S);
    }
  }

  /** With S >= 2 the last planned index is exactly the last frame L-1. */
  lemma LastIsLastFrame(L: nat, S: nat)
    requires S >= 2
    ensures PlannedIndex(L, S, S - 1) == L - 1
  {
    ClampAtLast(L, S);
  }

  /** With S <= L the clamp fires only on the final output. */
  lemma NoEarlyClamp(L: nat, S: nat, j: nat)
    requires 0 < S <= L && j < S - 1
    ensures !Clamped(L, S, j)
  {
    MulMonoRight(j + 1, S - 1, L);
    assert (S - 1) * L - (L - 1) * S == S - L;
  }

  /** With S <= L consecutive planned indices strictly increase. */
  lemma StepStrict(L: nat, S: nat, j: nat)
    requires 0 < S <= L && j + 1 < S
    ensures PlannedIndex(L, S, j) < PlannedIndex(L, S, j + 1)
  {
    NoEarlyClamp(L, S, j);
    if j + 1 == S - 1 {
      ClampAtLast(L, S);
      if j > 0 {
        // j unclamped: ceil(j*L/S) <= ceil((L-1) - L/S) <= L-2
        var c := CeilDiv(j * L, S);
        assert (L - 2) * S == (L - 1) * S - S;
        MulLtCancel(c - 1, L - 2, S);
      }
    } else {
      NoEarlyClamp(L, S, j + 1);
      var a, b := CeilDiv(j * L, S), CeilDiv((j + 1) * L, S);
      assert (j + 1) * L == j * L + L;
      if j == 0 {
        MulLtCancel(0, b, S);
      } else {
        // (a-1)*S < j*L, so a*S < j*L + S <= (j+1)*L <= b*S
        assert (a - 1) * S == a * S - S;
        MulLtCancel(a, b, S);
      }
    }
  }

  /** With S <= L the whole plan is strictly increasing. */
  lemma {:induction false} PlanStrict(L: nat, S: nat, j: nat, k: nat)
    requires 0 < S <= L && j < k < S
    ensures PlannedIndex(L, S, j) < PlannedIndex(L, S, k)
    decreases k - j
  {
    StepStrict(L, S, j);
    if j + 1 < k {
      PlanStrict(L, S, j + 1, k);
    }
  }

  /** With S == L every frame is taken, in order: 0, 1, ..., L-1. */
  lemma EveryFrame(L: nat, j: nat)
    requires j < L
    ensures PlannedIndex(L, L, j) == j
  {
    if j > 0 && j < L - 1 {
      NoEarlyClamp(L, L, j);
      var c := CeilDiv(j * L, L);
      assert (c - 1) * L < j * L <= c * L;
      if c < j { MulMonoRight(c, j - 1, L); }
      if c > j { MulMonoRight(j, c - 1, L); }
    } else if j > 0 {
      ClampAtLast(L, L);
    }
  }

  lemma EveryFramePlan(L: nat)
    ensures Plan(L, L) == seq(L, j => j)
  {
    forall j | 0 <= j < L
      ensures Plan(L, L)[j] == j
    {
      EveryFrame(L, j);
    }
  }

  /**
   * The shape of a plan: S entries, the first 0, all within [0, L-1],
   * never decreasing, and ending on L-1 when S >= 2.
   */
  lemma PlanShape(L: nat, S: nat)
    requires L > 0 && S > 0
    ensures |Plan(L, S)| == S && Plan(L, S)[0] == 0
    ensures forall j :: 0 <= j < S ==> 0 <= Plan(L, S)[j] <= L - 1
    ensures forall j, k :: 0 <= j <= k < S ==> Plan(L, S)[j] <= Plan(L, S)[k]
    ensures S >= 2 ==> Plan(L, S)[S - 1] == L - 1
    ensures S == 1 ==> Plan(L, S) == [0]
  {
    forall j, k | 0 <= j <= k < S
      ensures Plan(L, S)[j] <= Plan(L, S)[k]
    {
      PlanMonotone(L, S, j, k);
    }
    if S >= 2 {
      LastIsLastFrame(L, S);
    }
  }

  /**
   * What the progress bar is advanced by over the first n steps: each step
   * adds the new index minus the previous one. The sum telescopes to the
   * index of file n.
   */
  function Advanced(L: nat, S: nat, n: nat): (total: int)
    requires S > 0
    ensures total == PlannedIndex(L, S, n)
  {
    if n == 0 then 0
    else Advanced(L, S, n - 1) + (PlannedIndex(L, S, n) - PlannedIndex(L, S, n - 1))
  }

  /**
   * With S >= 2 the step increments plus the closing single update sum to
   * the bar's total L.
   */
  lemma ProgressReachesTotal(L: nat, S: nat)
    requires S >= 2
    ensures Advanced(L, S, S - 1) + 1 == L
  {
    LastIsLastFrame(L, S);
  }

  /** 100 frames sampled 10 times: the clamp replaces 90 by 99. */
  lemma HundredByTen()
    ensures Plan(100, 10) == [0, 10, 20, 30, 40, 50, 60, 70, 80, 99]
  {
  }

  /** 7 frames sampled 3 times. */
  lemma SevenByThree()
    ensures Plan(7, 3) == [0, 3, 6]
  {
  }
}
