/**
 Score propagation (the iteration of `txtrank.analyze`).

 Every word starts with score 1. One update replaces the score vector pr by
 (1 - d) + d * (g . pr), g being the normalised co-occurrence matrix and d the
 damping factor. After each update the sum of the new scores is compared
 with the sum remembered from the previous update (0 before the first); the
 iteration stops early when the two differ by less than `minDiff`, and after
 `steps` updates otherwise. Floats are exact reals here.
 */
module Scores {
  import opened Graph

  /** s[0] + ... + s[m - 1]. */
  function SumTo(s: seq<real>, m: nat): real
    requires m <= |s|
  {
    if m == 0 then 0.0 else SumTo(s, m - 1) + s[m - 1]
  }

  /** The sum of all scores, as `sum(pr)`. */
  function Sum(s: seq<real>): real {
    SumTo(s, |s|)
  }

  /** row[0] * pr[0] + ... + row[c - 1] * pr[c - 1]. */
  function DotTo(row: seq<real>, pr: seq<real>, c: nat): real
    requires c <= |row| && c <= |pr|
  {
    if c == 0 then 0.0 else DotTo(row, pr, c - 1) + row[c - 1] * pr[c - 1]
  }

  function Abs(x: real): real {
    if x < 0.0 then -x else x
  }

  /** The initial scores: 1 for every word. */
  function Ones(n: nat): (r: seq<real>)
    ensures |r| == n
  {
    seq(n, i => 1.0)
  }

  /** One update: (1 - d) + d * (g . pr). */
  function Step(g: seq<seq<real>>, d: real, pr: seq<real>): (r: seq<real>)
    requires IsSquare(g, |g|) && |pr| == |g|
    ensures |r| == |g|
  {
    seq(|g|, i requires 0 <= i < |g| => (1.0 - d) + d * DotTo(g[i], pr, |g|))
  }

  /** The scores after k updates from the initial ones. */
  function Power(g: seq<seq<real>>, d: real, k: nat): (r: seq<real>)
    requires IsSquare(g, |g|)
    ensures |r| == |g|
  {
    if k == 0 then Ones(|g|) else Step(g, d, Power(g, d, k - 1))
  }

  /** The remembered total the k-th update (k >= 1) is compared with: 0 at first, then the previous sum. */
  function PreviousTotal(g: seq<seq<real>>, d: real, k: nat): real
    requires IsSquare(g, |g|) && k >= 1
  {
    if k == 1 then 0.0 else Sum(Power(g, d, k - 1))
  }

  /** The early-exit test fires right after the k-th update. */
  predicate Converged(g: seq<seq<real>>, d: real, minDiff: real, k: nat)
    requires IsSquare(g, |g|) && k >= 1
  {
    Abs(PreviousTotal(g, d, k) - Sum(Power(g, d, k))) < minDiff
  }

  /** The number of updates performed when k of them have been done without an early exit. */
  function ExitFrom(g: seq<seq<real>>, d: real, minDiff: real, steps: nat, k: nat): nat
    requires IsSquare(g, |g|) && k <= steps
    decreases steps - k
  {
    if k == steps then steps
    else if Converged(g, d, minDiff, k + 1) then k + 1
    else ExitFrom(g, d, minDiff, steps, k + 1)
  }

  /** The number of updates the iteration performs. */
  function ExitStep(g: seq<seq<real>>, d: real, minDiff: real, steps: nat): nat
    requires IsSquare(g, |g|)
  {
    ExitFrom(g, d, minDiff, steps, 0)
  }

  lemma {:induction false} ExitFromSpec(g: seq<seq<real>>, d: real, minDiff: real, steps: nat, k: nat)
    requires IsSquare(g, |g|) && k <= steps
    ensures k <= ExitFrom(g, d, minDiff, steps, k) <= steps
    ensures forall j :: k < j < ExitFrom(g, d, minDiff, steps, k) ==> !Converged(g, d, minDiff, j)
    ensures ExitFrom(g, d, minDiff, steps, k) < steps ==>
      k < ExitFrom(g, d, minDiff, steps, k) && Converged(g, d, minDiff, ExitFrom(g, d, minDiff, steps, k))
    decreases steps - k
  {
    if k < steps && !Converged(g, d, minDiff, k + 1) {
      ExitFromSpec(g, d, minDiff, steps, k + 1);
    }
  }

  /**
   What the loop's exit means: e is the number of updates performed exactly
   when e <= steps, the test did not fire after any update before the e-th,
   and, if the loop stopped before `steps`, it fired after the e-th.
   */
  lemma ExitStepCharacterised(g: seq<seq<real>>, d: real, minDiff: real, steps: nat, e: nat)
    requires IsSquare(g, |g|)
    ensures e == ExitStep(g, d, minDiff, steps) <==>
      && e <= steps
      && (forall j :: 1 <= j < e ==> !Converged(g, d, minDiff, j))
      && (e < steps ==> 1 <= e && Converged(g, d, minDiff, e))
  {
    ExitFromSpec(g, d, minDiff, steps, 0);
  }

  /**
   The model of the iteration of `analyze`: start from all ones, update,
   stop when the total moved by less than `minDiff`, at most `steps` times.
   */
  method Propagate(g: seq<seq<real>>, d: real, minDiff: real, steps: nat) returns (pr: seq<real>)
    requires IsSquare(g, |g|)
    ensures pr == Power(g, d, ExitStep(g, d, minDiff, steps))
  {
    pr := Ones(|g|);
    var previousPr := 0.0;
    ghost var updates := 0;
    for epoch := 0 to steps
      invariant updates == epoch
      invariant pr == Power(g, d, epoch)
      invariant previousPr == if epoch == 0 then 0.0 else Sum(Power(g, d, epoch))
      invariant forall j :: 1 <= j <= epoch ==> !Converged(g, d, minDiff, j)
    {
      pr := Step(g, d, pr);
      updates := epoch + 1;
      var total := Sum(pr);
      if Abs(previousPr - total) < minDiff {
        break;
      }
      previousPr := total;
    }
    ExitStepCharacterised(g, d, minDiff, steps, updates);
  }

  /** No update is performed when `steps` is 0; otherwise at least one is. */
  lemma ExitStepBounds(g: seq<seq<real>>, d: real, minDiff: real, steps: nat)
    requires IsSquare(g, |g|)
    ensures steps == 0 ==> ExitStep(g, d, minDiff, steps) == 0
    ensures steps >= 1 ==> 1 <= ExitStep(g, d, minDiff, steps) <= steps
  {
    ExitFromSpec(g, d, minDiff, steps, 0);
  }

  /** Every entry of a real matrix is non-negative. */
  predicate NonNegativeEntries(g: seq<seq<real>>)
    requires IsSquare(g, |g|)
  {
    forall i, j :: 0 <= i < |g| && 0 <= j < |g| ==> 0.0 <= g[i][j]
  }

  lemma {:induction false} DotNonNegative(row: seq<real>, pr: seq<real>, c: nat)
    requires c <= |row| && c <= |pr|
    requires forall j :: 0 <= j < c ==> 0.0 <= row[j] && 0.0 <= pr[j]
    ensures 0.0 <= DotTo(row, pr, c)
  {
    if c > 0 {
      DotNonNegative(row, pr, c - 1);
      assert 0.0 <= row[c - 1] * pr[c - 1];
    }
  }

  lemma {:induction false} DotZeroRow(row: seq<real>, pr: seq<real>, c: nat)
    requires c <= |row| && c <= |pr|
    requires forall j :: 0 <= j < c ==> row[j] == 0.0
    ensures DotTo(row, pr, c) == 0.0
  {
    if c > 0 {
      DotZeroRow(row, pr, c - 1);
    }
  }

  /**
   With a damping factor in [0, 1] and a non-negative matrix, no score is
   ever negative, and after the first update none is below 1 - d.
   */
  lemma {:induction false} ScoreFloor(g: seq<seq<real>>, d: real, k: nat)
    requires IsSquare(g, |g|) && NonNegativeEntries(g) && 0.0 <= d <= 1.0
    ensures forall i :: 0 <= i < |g| ==> 0.0 <= Power(g, d, k)[i]
    ensures k >= 1 ==> forall i :: 0 <= i < |g| ==> 1.0 - d <= Power(g, d, k)[i]
  {
    if k > 0 {
      ScoreFloor(g, d, k - 1);
      var pr := Power(g, d, k - 1);
      forall i | 0 <= i < |g|
        ensures 1.0 - d <= Power(g, d, k)[i]
      {
        DotNonNegative(g[i], pr, |g|);
        assert 0.0 <= d * DotTo(g[i], pr, |g|);
      }
    }
  }

  /** A word without neighbours scores exactly 1 - d after any number of updates. */
  lemma IsolatedScore(g: seq<seq<real>>, d: real, k: nat, i: nat)
    requires IsSquare(g, |g|) && i < |g| && ZeroRow(g, i) && k >= 1
    ensures Power(g, d, k)[i] == 1.0 - d
  {
    DotZeroRow(g[i], Power(g, d, k - 1), |g|);
  }

  /** The number of words among the first m that have a neighbour. */
  function LinkedCount(g: seq<seq<real>>, m: nat): nat
    requires IsSquare(g, |g|) && m <= |g|
  {
    if m == 0 then 0 else LinkedCount(g, m - 1) + if ZeroColumn(g, m - 1) then 0 else 1
  }

  /** The sum of the scores of the words among the first m that have a neighbour. */
  function LinkedMass(g: seq<seq<real>>, s: seq<real>, m: nat): real
    requires IsSquare(g, |g|) && m <= |g| && |s| == |g|
  {
    if m == 0 then 0.0 else LinkedMass(g, s, m - 1) + if ZeroColumn(g, m - 1) then 0.0 else s[m - 1]
  }

  /** The products of rows 0 .. m - 1 with pr, added up. */
  function RowDots(g: seq<seq<real>>, pr: seq<real>, m: nat): real
    requires IsSquare(g, |g|) && |pr| == |g| && m <= |g|
  {
    if m == 0 then 0.0 else RowDots(g, pr, m - 1) + DotTo(g[m - 1], pr, |g|)
  }

  /** pr[j] times the sum of column j over rows 0 .. m - 1, added up for j < c. */
  function Weighted(g: seq<seq<real>>, pr: seq<real>, m: nat, c: nat): real
    requires IsSquare(g, |g|) && |pr| == |g| && m <= |g| && c <= |g|
  {
    if c == 0 then 0.0 else Weighted(g, pr, m, c - 1) + pr[c - 1] * RealColSum(g, c - 1, m)
  }

  lemma {:induction false} WeightedNoRows(g: seq<seq<real>>, pr: seq<real>, c: nat)
    requires IsSquare(g, |g|) && |pr| == |g| && c <= |g|
    ensures Weighted(g, pr, 0, c) == 0.0
  {
    if c > 0 {
      WeightedNoRows(g, pr, c - 1);
    }
  }

  lemma {:induction false} WeightedOneMoreRow(g: seq<seq<real>>, pr: seq<real>, m: nat, c: nat)
    requires IsSquare(g, |g|) && |pr| == |g| && 1 <= m <= |g| && c <= |g|
    ensures Weighted(g, pr, m, c) == Weighted(g, pr, m - 1, c) + DotTo(g[m - 1], pr, c)
  {
    if c > 0 {
      WeightedOneMoreRow(g, pr, m, c - 1);
      var x := pr[c - 1];
      var a := RealColSum(g, c - 1, m - 1);
      var b := g[m - 1][c - 1];
      assert x * (a + b) == x * a + b * x;
    }
  }

  /** Adding up g . pr by rows is adding up pr weighted by the column sums. */
  lemma {:induction false} RowDotsByColumn(g: seq<seq<real>>, pr: seq<real>, m: nat)
    requires IsSquare(g, |g|) && |pr| == |g| && m <= |g|
    ensures RowDots(g, pr, m) == Weighted(g, pr, m, |g|)
  {
    if m == 0 {
      WeightedNoRows(g, pr, |g|);
    } else {
      RowDotsByColumn(g, pr, m - 1);
      WeightedOneMoreRow(g, pr, m, |g|);
    }
  }

  lemma {:induction false} ZeroColumnSum(g: seq<seq<real>>, j: nat, m: nat)
    requires IsSquare(g, |g|) && j < |g| && m <= |g| && ZeroColumn(g, j)
    ensures RealColSum(g, j, m) == 0.0
  {
    if m > 0 {
      ZeroColumnSum(g, j, m - 1);
    }
  }

  /** In a column-stochastic matrix, weighting by the column sums keeps exactly the linked words. */
  lemma {:induction false} WeightedIsLinked(g: seq<seq<real>>, pr: seq<real>, c: nat)
    requires ColumnStochastic(g) && |pr| == |g| && c <= |g|
    ensures Weighted(g, pr, |g|, c) == LinkedMass(g, pr, c)
  {
    if c > 0 {
      WeightedIsLinked(g, pr, c - 1);
      if ZeroColumn(g, c - 1) {
        ZeroColumnSum(g, c - 1, |g|);
      }
    }
  }

  /** (a + b) * x == a * x + b * x, for the real counts of the mass lemmas. */
  lemma Distribute(a: real, b: real, x: real)
    ensures (a + b) * x == a * x + b * x
  {
  }

  /** Losing the share d of c and gaining it back leaves c. */
  lemma Rebalance(c: real, d: real, rows: real)
    requires rows == c
    ensures c * (1.0 - d) + d * rows == c
  {
  }

  /** Every word without incoming links also has no outgoing ones. */
  predicate UnlinkedIdle(g: seq<seq<real>>)
    requires IsSquare(g, |g|)
  {
    forall j :: 0 <= j < |g| && ZeroColumn(g, j) ==> ZeroRow(g, j)
  }

  /** The linked mass after one update, counted over the first m words. */
  lemma {:induction false} LinkedMassStep(g: seq<seq<real>>, d: real, pr: seq<real>, m: nat)
    requires IsSquare(g, |g|) && UnlinkedIdle(g) && |pr| == |g| && m <= |g|
    ensures LinkedMass(g, Step(g, d, pr), m) == LinkedCount(g, m) as real * (1.0 - d) + d * RowDots(g, pr, m)
  {
    if m > 0 {
      var i := m - 1;
      var next := Step(g, d, pr);
      LinkedMassStep(g, d, pr, i);
      var dot := DotTo(g[i], pr, |g|);
      var count := LinkedCount(g, i) as real;
      var rows := RowDots(g, pr, i);
      assert RowDots(g, pr, m) == rows + dot;
      if ZeroColumn(g, i) {
        DotZeroRow(g[i], pr, |g|);
        assert LinkedMass(g, next, m) == LinkedMass(g, next, i);
        assert LinkedCount(g, m) as real == count;
      } else {
        assert LinkedMass(g, next, m) == LinkedMass(g, next, i) + ((1.0 - d) + d * dot);
        assert LinkedCount(g, m) as real == count + 1.0;
        Distribute(count, 1.0, 1.0 - d);
        assert d * (rows + dot) == d * rows + d * dot;
      }
    }
  }

  lemma {:induction false} LinkedMassOnes(g: seq<seq<real>>, m: nat)
    requires IsSquare(g, |g|) && m <= |g|
    ensures LinkedMass(g, Ones(|g|), m) == LinkedCount(g, m) as real
  {
    if m > 0 {
      LinkedMassOnes(g, m - 1);
    }
  }

  /**
   One update keeps the linked mass c of the first n = |g| words when g . pr
   adds up to c. (The length and the count are parameters, which keeps the
   solver from unfolding the sums at |g|.)
   */
  lemma LinkedMassKept(g: seq<seq<real>>, d: real, pr: seq<real>, n: nat, c: real)
    requires IsSquare(g, |g|) && UnlinkedIdle(g) && |pr| == |g| && n == |g|
    requires c == LinkedCount(g, n) as real && RowDots(g, pr, n) == c
    ensures LinkedMass(g, Step(g, d, pr), n) == c
  {
    LinkedMassStep(g, d, pr, n);
    Rebalance(c, d, RowDots(g, pr, n));
  }

  /** The linked mass after k updates, over the first n = |g| words. */
  lemma {:induction false} MassConservedTo(g: seq<seq<real>>, d: real, k: nat, n: nat, c: real)
    requires ColumnStochastic(g) && n == |g| && c == LinkedCount(g, n) as real
    ensures LinkedMass(g, Power(g, d, k), n) == c
  {
    if k == 0 {
      LinkedMassOnes(g, n);
    } else {
      var pr := Power(g, d, k - 1);
      MassConservedTo(g, d, k - 1, n, c);
      RowDotsByColumn(g, pr, n);
      WeightedIsLinked(g, pr, n);
      LinkedMassKept(g, d, pr, n, c);
    }
  }

  /**
   Conservation of the linked mass: on a column-stochastic matrix the scores
   of the words that have a neighbour always add up to the number of those
   words, whatever d and however many updates.
   */
  lemma MassConserved(g: seq<seq<real>>, d: real, k: nat)
    requires ColumnStochastic(g)
    ensures LinkedMass(g, Power(g, d, k), |g|) == LinkedCount(g, |g|) as real
  {
    MassConservedTo(g, d, k, |g|, LinkedCount(g, |g|) as real);
  }

  /** A total split into the linked words and the unlinked ones, each of the latter scoring x. */
  lemma {:induction false} SumSplit(g: seq<seq<real>>, s: seq<real>, x: real, m: nat)
    requires IsSquare(g, |g|) && |s| == |g| && m <= |g|
    requires forall j :: 0 <= j < m && ZeroColumn(g, j) ==> s[j] == x
    ensures SumTo(s, m) == LinkedMass(g, s, m) + (m - LinkedCount(g, m)) as real * x
  {
    if m > 0 {
      var i := m - 1;
      SumSplit(g, s, x, i);
      var unlinked := (i - LinkedCount(g, i)) as real;
      if ZeroColumn(g, i) {
        assert (m - LinkedCount(g, m)) as real == unlinked + 1.0;
        Distribute(unlinked, 1.0, x);
      } else {
        assert (m - LinkedCount(g, m)) as real == unlinked;
      }
    }
  }

  /**
   The total score is the same after every update: with c words that have
   a neighbour among n, it is c + (n - c) * (1 - d).
   */
  lemma TotalAfterUpdate(g: seq<seq<real>>, d: real, k: nat)
    requires ColumnStochastic(g) && k >= 1
    ensures Sum(Power(g, d, k)) == LinkedCount(g, |g|) as real + (|g| - LinkedCount(g, |g|)) as real * (1.0 - d)
  {
    var n := |g|;
    var pr := Power(g, d, k);
    forall j | 0 <= j < n && ZeroColumn(g, j)
      ensures pr[j] == 1.0 - d
    {
      IsolatedScore(g, d, k, j);
    }
    SumSplit(g, pr, 1.0 - d, n);
    MassConservedTo(g, d, k, n, LinkedCount(g, n) as real);
  }

  /**
   Hence the early-exit test, which compares totals, always fires after the
   second update (for any positive `minDiff`): the iteration performs one
   update if the first total is already below `minDiff`, and two otherwise.
   */
  lemma ExitAtSecondUpdate(g: seq<seq<real>>, d: real, minDiff: real, steps: nat)
    requires ColumnStochastic(g) && minDiff > 0.0 && steps >= 2
    ensures Converged(g, d, minDiff, 2)
    ensures ExitStep(g, d, minDiff, steps) == if Converged(g, d, minDiff, 1) then 1 else 2
  {
    TotalAfterUpdate(g, d, 1);
    TotalAfterUpdate(g, d, 2);
    ExitFromSpec(g, d, minDiff, steps, 0);
    ExitFromSpec(g, d, minDiff, steps, 1);
  }

  /**
   The outcome of the iteration on a non-negative column-stochastic matrix,
   for a damping factor in [0, 1] and at least one step: no score is below
   1 - d, a word without neighbours scores exactly 1 - d, the scores add up
   to c + (n - c) * (1 - d) for the c words with a neighbour, and with a
   positive threshold and at least two steps at most two updates are made.
   */
  lemma IterationOutcome(g: seq<seq<real>>, d: real, minDiff: real, steps: nat)
    requires ColumnStochastic(g) && NonNegativeEntries(g) && steps >= 1
    ensures 0.0 <= d <= 1.0 ==> forall i :: 0 <= i < |g| ==> 1.0 - d <= Power(g, d, ExitStep(g, d, minDiff, steps))[i]
    ensures forall i :: 0 <= i < |g| && ZeroRow(g, i) ==> Power(g, d, ExitStep(g, d, minDiff, steps))[i] == 1.0 - d
    ensures Sum(Power(g, d, ExitStep(g, d, minDiff, steps)))
      == LinkedCount(g, |g|) as real + (|g| - LinkedCount(g, |g|)) as real * (1.0 - d)
    ensures minDiff > 0.0 && steps >= 2 ==> 1 <= ExitStep(g, d, minDiff, steps) <= 2
  {
    var e := ExitStep(g, d, minDiff, steps);
    ExitStepBounds(g, d, minDiff, steps);
    if 0.0 <= d <= 1.0 {
      ScoreFloor(g, d, e);
    }
    forall i | 0 <= i < |g| && ZeroRow(g, i)
      ensures Power(g, d, e)[i] == 1.0 - d
    {
      IsolatedScore(g, d, e, i);
    }
    TotalAfterUpdate(g, d, e);
    if minDiff > 0.0 && steps >= 2 {
      ExitAtSecondUpdate(g, d, minDiff, steps);
    }
  }
}
