/** Balanced batch splitting (util/calc.py): `largest_divisible_by_all` and
    `split_threads`, as written, next to corrected versions that keep the
    promises of their docstrings. */
module Calc {
  import opened Py

  predicate NoZero(ds: seq<int>)
  {
    forall i :: 0 <= i < |ds| ==> ds[i] != 0
  }

  /** `t % d == 0` for every `d` in `ds`. For a nonzero `d`, Python's and
      Dafny's remainders are zero for the same `t`. */
  predicate DividesAll(t: int, ds: seq<int>)
  {
    forall i :: 0 <= i < |ds| ==> ds[i] != 0 && t % ds[i] == 0
  }

  /** The head of `ds` sorted in reverse: its largest entry. */
  function MaxOf(ds: seq<int>): (m: int)
    requires |ds| > 0
    ensures m in ds
    ensures forall i :: 0 <= i < |ds| ==> ds[i] <= m
  {
    if |ds| == 1 then ds[0] else Max(ds[0], MaxOf(ds[1..]))
  }

  /** The product of the magnitudes of `ds`: a positive common multiple. */
  function Period(ds: seq<int>): (p: int)
    requires NoZero(ds)
    ensures 0 < p
  {
    if |ds| == 0 then 1
    else
      var rest := Period(ds[1..]);
      MulLe(Abs(ds[0]), 1, rest);
      Abs(ds[0]) * rest
  }

  lemma {:induction false} PeriodDividesAll(ds: seq<int>, t: int)
    requires NoZero(ds) && t % Period(ds) == 0
    ensures DividesAll(t, ds)
  {
    if |ds| > 0 {
      var a, p := Abs(ds[0]), Period(ds[1..]);
      assert Period(ds) == a * p;
      FactorsDivide(t, a, p);
      PeriodDividesAll(ds[1..], t);
      ModAbs(t, ds[0]);
      forall i | 1 <= i < |ds|
        ensures ds[i] != 0 && t % ds[i] == 0
      {
        assert ds[i] == ds[1..][i - 1];
      }
    }
  }

  lemma ModAbs(t: int, x: int)
    requires x != 0 && t % Abs(x) == 0
    ensures t % x == 0
  {
    if x < 0 {
      DivMod(t, -x);
      var k := t / (-x);
      assert t == x * (-k);
      MulModZero(x, -k);
    }
  }

  /** Both factors of a positive product divide its multiples. */
  lemma FactorsDivide(t: int, a: int, b: int)
    requires 0 < a && 0 < b && t % (a * b) == 0
    ensures t % a == 0 && t % b == 0
  {
    var ab := a * b;
    MulLe(a, 1, b);
    DivMod(t, ab);
    var j := t / ab;
    assert t == ab * j;
    assert t == a * (b * j);
    MulModZero(a, b * j);
    assert t == b * (a * j);
    MulModZero(b, a * j);
  }

  /** A common multiple of `ds` is a multiple of any `s` with `s` or `-s` in `ds`. */
  lemma CommonMultipleOf(c: int, s: int, ds: seq<int>)
    requires s != 0 && (s in ds || -s in ds) && DividesAll(c, ds)
    ensures c % s == 0
  {
    if s !in ds {
      var i :| 0 <= i < |ds| && ds[i] == -s;
      ModNeg(c, -s);
    }
  }

  /** A multiple of `x` is a multiple of `-x`. */
  lemma ModNeg(t: int, x: int)
    requires x != 0 && t % x == 0
    ensures t % (-x) == 0
  {
    var k := t / x;
    assert t == x * k;
    assert t == (-x) * (-k);
    MulModZero(-x, -k);
  }

  /** The loop of calc.py:94-103 from the candidate `m * s`: step down by `s`,
      then return the first candidate every entry divides. */
  function StepDown(m: int, s: int, ds: seq<int>): (r: int)
    requires s != 0 && NoZero(ds)
    ensures DividesAll(r, ds)
    decreases (m - 1) % Period(ds)
  {
    var t := (m - 1) * s;
    if DividesAll(t, ds) then t
    else
      StepDownProgress(m, s, ds);
      StepDown(m - 1, s, ds)
  }

  lemma StepDownProgress(m: int, s: int, ds: seq<int>)
    requires s != 0 && NoZero(ds) && !DividesAll((m - 1) * s, ds)
    ensures 0 <= (m - 2) % Period(ds) < (m - 1) % Period(ds)
  {
    var p := Period(ds);
    DivMod(m - 1, p);
    var q, r := (m - 1) / p, (m - 1) % p;
    if r == 0 {
      MulAssoc(p, q, s);
      MulModZero(p, q * s);
      PeriodDividesAll(ds, (m - 1) * s);
    }
    ModUnique(m - 2, p, q, r - 1);
  }

  /** Stepping from `m * s`, the loop stops at the nearest common multiple
      strictly beyond `m * s` in the direction of the step. */
  lemma {:induction false} StepDownNearest(m: int, s: int, ds: seq<int>)
    requires s != 0 && NoZero(ds) && (s in ds || -s in ds)
    ensures 0 < s ==> StepDown(m, s, ds) < m * s
    ensures 0 < s ==> forall c :: DividesAll(c, ds) && c < m * s ==> c <= StepDown(m, s, ds)
    ensures s < 0 ==> m * s < StepDown(m, s, ds)
    ensures s < 0 ==> forall c :: DividesAll(c, ds) && m * s < c ==> StepDown(m, s, ds) <= c
    decreases (m - 1) % Period(ds)
  {
    var t := (m - 1) * s;
    var r := StepDown(m, s, ds);
    assert t == m * s - s;
    if !DividesAll(t, ds) {
      StepDownProgress(m, s, ds);
      StepDownNearest(m - 1, s, ds);
    }
    forall c | DividesAll(c, ds)
      ensures 0 < s && c < m * s ==> c <= r
      ensures s < 0 && m * s < c ==> r <= c
    {
      CommonMultipleOf(c, s, ds);
      if 0 < s && c < m * s {
        MultipleBelow(c, s, m);
      }
      if s < 0 && m * s < c {
        MultipleAbove(c, s, m);
      }
    }
  }

  /** `largest_divisible_by_all(number, ds)` as written (calc.py:77-103). An
      empty list fails at `[0]`; a zero divisor always ends in a modulo by
      zero, because the divisors tested before it are all met at a multiple
      of their product. */
  function LargestDivisibleByAll(number: int, ds: seq<int>): (r: Result<int>)
    ensures r.Err? <==> |ds| == 0 || 0 in ds
    ensures |ds| == 0 ==> r == Err(IndexError)
    ensures |ds| > 0 && 0 in ds ==> r == Err(ZeroDivisionError)
    ensures r.Ok? ==> DividesAll(r.value, ds)
  {
    if |ds| == 0 then Err(IndexError)
    else if 0 in ds then Err(ZeroDivisionError)
    else
      var s := MaxOf(ds);
      // `number - number % s` is `s * (number // s)`
      Ok(StepDown(FloorDiv(number, s), s, ds))
  }

  /** What the loop actually returns: with a positive largest divisor `s`, the
      largest common multiple that is at most `number - s` (not `number`, since
      it steps down before the first test); with a negative `s`, the smallest
      common multiple that is at least `number - s`. */
  lemma LargestDivisibleByAllNearest(number: int, ds: seq<int>)
    requires |ds| > 0 && 0 !in ds
    ensures var r := LargestDivisibleByAll(number, ds).value;
      0 < MaxOf(ds) ==> (r <= number - MaxOf(ds) &&
        forall c :: DividesAll(c, ds) && c <= number - MaxOf(ds) ==> c <= r)
    ensures var r := LargestDivisibleByAll(number, ds).value;
      MaxOf(ds) < 0 ==> (number - MaxOf(ds) <= r &&
        forall c :: DividesAll(c, ds) && number - MaxOf(ds) <= c ==> r <= c)
  {
    var s := MaxOf(ds);
    if 0 < s {
      NearestBelow(number, s, ds);
    } else {
      NearestAbove(number, s, ds);
    }
  }

  lemma NearestBelow(number: int, s: int, ds: seq<int>)
    requires 0 < s && NoZero(ds) && s in ds
    ensures StepDown(number / s, s, ds) <= number - s
    ensures forall c :: DividesAll(c, ds) && c <= number - s ==> c <= StepDown(number / s, s, ds)
  {
    var m := number / s;
    var r := StepDown(m, s, ds);
    StepDownNearest(m, s, ds);
    DivMod(number, s);
    var ms := m * s;
    assert (m - 1) * s == ms - s;
    CommonMultipleOf(r, s, ds);
    MultipleBelow(r, s, m);
  }

  lemma NearestAbove(number: int, s: int, ds: seq<int>)
    requires s < 0 && NoZero(ds) && s in ds
    ensures number - s <= StepDown(FloorDiv(number, s), s, ds)
    ensures forall c :: DividesAll(c, ds) && number - s <= c ==> StepDown(FloorDiv(number, s), s, ds) <= c
  {
    var m := FloorDiv(number, s);
    var r := StepDown(m, s, ds);
    StepDownNearest(m, s, ds);
    BracketNeg(number, s);
    CommonMultipleOf(r, s, ds);
    MultipleAbove(r, s, m);
  }

  /** For a negative step, `number` lies in `(m * s + s, m * s]` for `m = number // s`. */
  lemma BracketNeg(number: int, s: int)
    requires s < 0
    ensures FloorDiv(number, s) * s + s < number <= FloorDiv(number, s) * s
    ensures (FloorDiv(number, s) - 1) * s == FloorDiv(number, s) * s - s
  {
    var m := (-number) / (-s);
    DivMod(-number, -s);
    assert (-s) * m == -(m * s);
    MulSucc(m - 1, s);
  }

  /** The docstring promises the largest common multiple at most `number`, but
      380 is itself divisible by 2 and 5 and the loop returns 370. */
  lemma LargestDivisibleByAllSkipsNumber()
    ensures DividesAll(380, [2, 5])
    ensures LargestDivisibleByAll(380, [2, 5]) == Ok(370)
  {
    assert MaxOf([2, 5]) == 5;
    assert FloorDiv(380, 5) == 76;
    assert !DividesAll(375, [2, 5]) by {
      assert [2, 5][0] == 2;
    }
    assert DividesAll(370, [2, 5]);
    assert StepDown(75, 5, [2, 5]) == 370;
    assert StepDown(76, 5, [2, 5]) == StepDown(75, 5, [2, 5]);
  }

  /** Nothing keeps the result positive: below 5 the loop steps down past 0
      and returns -10. */
  lemma LargestDivisibleByAllNegative()
    ensures LargestDivisibleByAll(3, [2, 5]) == Ok(-10)
  {
    assert MaxOf([2, 5]) == 5;
    assert FloorDiv(3, 5) == 0;
    assert !DividesAll(-5, [2, 5]) by {
      assert [2, 5][0] == 2;
    }
    assert DividesAll(-10, [2, 5]);
    assert StepDown(-1, 5, [2, 5]) == -10;
    assert StepDown(0, 5, [2, 5]) == StepDown(-1, 5, [2, 5]);
  }

  /** Corrected `largest_divisible_by_all`: test a candidate before stepping
      down, so the result is the largest common multiple at most `number`. */
  function LargestCommonMultipleAtMost(number: int, ds: seq<int>): (r: Result<int>)
    ensures r.Err? <==> |ds| == 0 || 0 in ds
    ensures r.Ok? ==> DividesAll(r.value, ds) && r.value <= number
    ensures r.Ok? ==> forall c :: DividesAll(c, ds) && c <= number ==> c <= r.value
  {
    if |ds| == 0 then Err(IndexError)
    else if 0 in ds then Err(ZeroDivisionError)
    else
      var s := Abs(MaxOf(ds));
      NearestAtMost(number, s, ds);
      Ok(StepDown(number / s + 1, s, ds))
  }

  lemma NearestAtMost(number: int, s: int, ds: seq<int>)
    requires 0 < s && NoZero(ds) && (s in ds || -s in ds)
    ensures StepDown(number / s + 1, s, ds) <= number
    ensures forall c :: DividesAll(c, ds) && c <= number ==> c <= StepDown(number / s + 1, s, ds)
  {
    var q := number / s;
    var r := StepDown(q + 1, s, ds);
    StepDownNearest(q + 1, s, ds);
    Bracket(number, s);
    CommonMultipleOf(r, s, ds);
    MultipleBelow(r, s, q + 1);
  }

  /** `number` lies in `[q * s, (q + 1) * s)` for `q = number / s`. */
  lemma Bracket(number: int, s: int)
    requires 0 < s
    ensures (number / s) * s <= number < (number / s + 1) * s
    ensures (number / s + 1 - 1) * s == (number / s) * s
  {
    var q := number / s;
    DivMod(number, s);
    MulSucc(q, s);
    assert s * q == q * s;
  }

  /** The counts `split_threads` derives before distributing (calc.py:36-46):
      the even share per batch, the remainder no whole `divisible_by` covers,
      and how many batches receive a `divisible_by` bonus. */
  datatype Plan = Plan(base: int, finalRemainder: int, bonusBatches: int)

  function MakePlan(numberToSplit: int, n: int, nb: int, d: int): Plan
    requires nb != 0 && d != 0
  {
    var remainder := n - numberToSplit;
    var finalRemainder := PyMod(remainder, d);
    Plan(TruncDiv(numberToSplit, nb), finalRemainder, TruncDiv(remainder - finalRemainder, d))
  }

  /** The bonuses and the final remainder add up to what the even share left. */
  lemma PlanExact(numberToSplit: int, n: int, nb: int, d: int)
    requires nb != 0 && d != 0
    ensures MakePlan(numberToSplit, n, nb, d).bonusBatches * d
          + MakePlan(numberToSplit, n, nb, d).finalRemainder == n - numberToSplit
    ensures numberToSplit % nb == 0 ==>
      MakePlan(numberToSplit, n, nb, d).base * nb == numberToSplit
    ensures 0 < d && numberToSplit <= n ==>
      0 <= MakePlan(numberToSplit, n, nb, d).finalRemainder < d
      && MakePlan(numberToSplit, n, nb, d).bonusBatches == (n - numberToSplit) / d
      && 0 <= MakePlan(numberToSplit, n, nb, d).bonusBatches
  {
    PlanBonus(n - numberToSplit, d);
    if numberToSplit % nb == 0 {
      PlanBase(numberToSplit, nb);
    }
    if 0 < d && numberToSplit <= n {
      PlanBonusNonneg(n - numberToSplit, d);
    }
  }

  /** `int((rem - rem % d) / d)` is exactly `rem // d`. */
  lemma PlanBonus(rem: int, d: int)
    requires d != 0
    ensures TruncDiv(rem - PyMod(rem, d), d) == FloorDiv(rem, d)
  {
    var q := FloorDiv(rem, d);
    assert rem - PyMod(rem, d) == d * q;
    TruncDivExact(q, d);
  }

  /** The even share is exact when `nb` divides the threads to split. */
  lemma PlanBase(numberToSplit: int, nb: int)
    requires nb != 0 && numberToSplit % nb == 0
    ensures TruncDiv(numberToSplit, nb) * nb == numberToSplit
  {
    var j := numberToSplit / nb;
    if 0 < nb {
      DivMod(numberToSplit, nb);
    } else {
      DivMod(numberToSplit, -nb);
      assert numberToSplit % (-nb) == 0;
      j := -(numberToSplit / (-nb));
    }
    assert numberToSplit == nb * j;
    TruncDivExact(j, nb);
  }

  /** For a positive divisor and a non-negative remainder, the bonus count is
      Euclidean division and not negative. */
  lemma PlanBonusNonneg(rem: int, d: int)
    requires 0 < d && 0 <= rem
    ensures FloorDiv(rem, d) == rem / d && 0 <= rem / d
    ensures 0 <= PyMod(rem, d) < d
  {
    DivMod(rem, d);
  }

  /** `for i in range(lo, hi, 1): xs[i] += v`, failing at the first index
      outside the list. */
  function AddOverRange(xs: seq<int>, lo: int, hi: int, v: int): (r: Result<seq<int>>)
    ensures r.Ok? <==> hi <= lo || (-|xs| <= lo && hi <= |xs|)
    ensures r.Err? ==> r.error == IndexError
    ensures r.Ok? ==> |r.value| == |xs|
    ensures r.Ok? && 0 <= lo ==> forall j {:trigger r.value[j]} :: 0 <= j < |xs| ==>
      r.value[j] == xs[j] + (if lo <= j < hi then v else 0)
    decreases hi - lo
  {
    if hi <= lo then Ok(xs)
    else
      var ys :- AddAt(xs, lo, v);
      AddOverRange(ys, lo + 1, hi, v)
  }

  /** Each of the `hi - lo` additions raises the total by `v`. */
  lemma {:induction false} AddOverRangeSum(xs: seq<int>, lo: int, hi: int, v: int)
    requires AddOverRange(xs, lo, hi, v).Ok?
    ensures Sum(AddOverRange(xs, lo, hi, v).value) == Sum(xs) + Max(0, hi - lo) * v
    decreases hi - lo
  {
    if lo < hi {
      var ys := AddAt(xs, lo, v).value;
      SumAddAt(xs, lo, v);
      AddOverRangeSum(ys, lo + 1, hi, v);
      MulSucc(Max(0, hi - (lo + 1)), v);
    }
  }

  lemma MulAssoc(a: int, b: int, c: int)
    ensures (a * b) * c == a * (b * c)
  {
  }

  lemma MulSucc(m: int, v: int)
    ensures (m + 1) * v == v + m * v
  {
  }

  /** Lines 39 and 61-74 of calc.py: start every batch at the even share, hand
      out the `divisible_by` bonuses, then the final remainder. */
  function Distribute(numberToSplit: int, n: int, nb: int, peak: bool, d: int): (r: Result<seq<int>>)
    requires nb != 0 && d != 0
    ensures r.Ok? ==> |r.value| == Max(0, nb)
    ensures r.Err? ==> r.error == IndexError
  {
    var plan := MakePlan(numberToSplit, n, nb, d);
    if peak then DistributeCentre(plan, nb, d) else DistributeEnds(plan, nb, d)
  }

  /** The `peak_at_center` branch: one run of bonuses from `int(n_add_none / 2)`,
      the final remainder on batch `int(n_batches / 2)`. */
  function DistributeCentre(plan: Plan, nb: int, d: int): (r: Result<seq<int>>)
    ensures r.Ok? ==> |r.value| == Max(0, nb)
    ensures r.Err? ==> r.error == IndexError
  {
    var perBatch := Repeat(plan.base, nb);
    var k := plan.bonusBatches;
    var start := TruncDiv(nb - k, 2);
    var bumped :- AddOverRange(perBatch, start, start + k, d);
    if plan.finalRemainder > 0 then AddAt(bumped, TruncDiv(nb, 2), plan.finalRemainder)
    else Ok(bumped)
  }

  /** The other branch: bonuses on the first `int(k / 2)` batches and from
      `int(k / 2) + n_add_none` to the end, the final remainder on the last. */
  function DistributeEnds(plan: Plan, nb: int, d: int): (r: Result<seq<int>>)
    ensures r.Ok? ==> |r.value| == Max(0, nb)
    ensures r.Err? ==> r.error == IndexError
  {
    var perBatch := Repeat(plan.base, nb);
    var k := plan.bonusBatches;
    var front :- AddOverRange(perBatch, 0, TruncDiv(k, 2), d);
    var both :- AddOverRange(front, TruncDiv(k, 2) + (nb - k), nb, d);
    if plan.finalRemainder > 0 then AddAt(both, -1, plan.finalRemainder)
    else Ok(both)
  }

  /** Where the final remainder goes: the middle batch, or the last one. */
  function RemainderIndex(nb: nat, peak: bool): nat
  {
    if peak then nb / 2 else Max(0, nb - 1)
  }

  /** One run of `+v` over `[lo, lo + k)` on top of `base`, then `fr` added at
      `at` when positive. */
  function Bumped(nb: nat, base: int, lo: int, k: int, v: int, at: int, fr: int): seq<int>
  {
    seq(nb, i => base + (if lo <= i < lo + k then v else 0) + (if fr > 0 && i == at then fr else 0))
  }

  /** Centre peak: one contiguous run of `k` bonuses starting at
      `(nb - k) / 2`, and the final remainder on batch `nb / 2`. */
  function PeakShape(p: Plan, nb: nat, d: int): seq<int>
  {
    Bumped(nb, p.base, (nb - p.bonusBatches) / 2, p.bonusBatches, d, nb / 2, p.finalRemainder)
  }

  /** Edges: bonuses on the first `k / 2` and the last `k - k / 2` batches, and
      the final remainder on the last batch. With more than `nb` bonuses the
      two runs overlap and the batches they share get both. */
  function EdgeShape(p: Plan, nb: nat, d: int): seq<int>
  {
    var front := p.bonusBatches / 2;
    var back := nb - (p.bonusBatches - front);
    seq(nb, i =>
      p.base + (if i < front then d else 0) + (if back <= i then d else 0)
             + (if p.finalRemainder > 0 && i == nb - 1 then p.finalRemainder else 0))
  }

  /** The distribution the comments of calc.py:47-60 describe. */
  function Shape(p: Plan, nb: nat, peak: bool, d: int): seq<int>
  {
    if peak then PeakShape(p, nb, d) else EdgeShape(p, nb, d)
  }

  /** When the bonuses fit (at most `nb` for the centre peak, at most `2 * nb`
      for the edges) the distribution is exactly the shape its comments
      describe. */
  lemma DistributeShape(numberToSplit: int, n: int, nb: int, peak: bool, d: int)
    requires 0 < nb && 0 < d && numberToSplit <= n
    requires MakePlan(numberToSplit, n, nb, d).bonusBatches <= (if peak then nb else 2 * nb)
    ensures Distribute(numberToSplit, n, nb, peak, d).Ok?
    ensures Distribute(numberToSplit, n, nb, peak, d).value
      == Shape(MakePlan(numberToSplit, n, nb, d), nb, peak, d)
  {
    PlanExact(numberToSplit, n, nb, d);
    if peak {
      CentreShape(MakePlan(numberToSplit, n, nb, d), nb, d);
    } else {
      EndsShape(MakePlan(numberToSplit, n, nb, d), nb, d);
    }
  }

  /** The centre-peak branch yields the centre-peak shape when the bonuses fit. */
  lemma CentreShape(p: Plan, nb: int, d: int)
    requires 0 < nb && 0 <= p.bonusBatches <= nb
    ensures DistributeCentre(p, nb, d) == Ok(PeakShape(p, nb, d))
  {
    var k := p.bonusBatches;
    TruncDivNonneg(nb, 2);
    TruncDivNonneg(nb - k, 2);
    PeakRun(Repeat(p.base, nb), p, nb, d, (nb - k) / 2);
  }

  /** The other branch yields the two-ended shape whenever neither run leaves
      the list, overlapping runs included. */
  lemma EndsShape(p: Plan, nb: int, d: int)
    requires 0 < nb && 0 <= p.bonusBatches <= 2 * nb
    ensures DistributeEnds(p, nb, d) == Ok(EdgeShape(p, nb, d))
  {
    var k := p.bonusBatches;
    TruncDivNonneg(k, 2);
    EdgeRuns(Repeat(p.base, nb), p, nb, d, k / 2, k / 2 + (nb - k));
  }

  /** With more than `nb` bonuses, the centre-peak run leaves the list. */
  lemma DistributePeakOverflow(numberToSplit: int, n: int, nb: int, d: int)
    requires 0 < nb && 0 < d && numberToSplit <= n
    requires nb < MakePlan(numberToSplit, n, nb, d).bonusBatches
    ensures Distribute(numberToSplit, n, nb, true, d) == Err(IndexError)
  {
    var k := MakePlan(numberToSplit, n, nb, d).bonusBatches;
    var start := TruncDiv(nb - k, 2);
    assert nb < start + k;
  }

  lemma PeakRun(xs: seq<int>, p: Plan, nb: int, d: int, start: int)
    requires 0 < nb && |xs| == nb && forall i :: 0 <= i < nb ==> xs[i] == p.base
    requires 0 <= p.bonusBatches <= nb && start == (nb - p.bonusBatches) / 2
    ensures AddOverRange(xs, start, start + p.bonusBatches, d).Ok?
    ensures var b := AddOverRange(xs, start, start + p.bonusBatches, d).value;
      p.finalRemainder > 0 ==>
        AddAt(b, nb / 2, p.finalRemainder).Ok? && AddAt(b, nb / 2, p.finalRemainder).value == PeakShape(p, nb, d)
    ensures p.finalRemainder <= 0 ==>
      AddOverRange(xs, start, start + p.bonusBatches, d).value == PeakShape(p, nb, d)
  {
    RunThenRemainder(xs, p.base, start, p.bonusBatches, d, nb / 2, p.finalRemainder);
  }

  lemma RunThenRemainder(xs: seq<int>, base: int, lo: int, k: int, v: int, at: int, fr: int)
    requires forall i :: 0 <= i < |xs| ==> xs[i] == base
    requires 0 <= lo && 0 <= k && lo + k <= |xs| && 0 <= at < |xs|
    ensures AddOverRange(xs, lo, lo + k, v).Ok?
    ensures var b := AddOverRange(xs, lo, lo + k, v).value;
      fr > 0 ==> AddAt(b, at, fr).Ok? && AddAt(b, at, fr).value == Bumped(|xs|, base, lo, k, v, at, fr)
    ensures fr <= 0 ==> AddOverRange(xs, lo, lo + k, v).value == Bumped(|xs|, base, lo, k, v, at, fr)
  {
    RunBumped(xs, base, lo, k, v);
    var b := AddOverRange(xs, lo, lo + k, v).value;
    if fr > 0 {
      RemainderBumped(b, base, lo, k, v, at, fr);
    } else {
      assert Bumped(|xs|, base, lo, k, v, at, fr) == Bumped(|xs|, base, lo, k, v, 0, 0);
    }
  }

  lemma RunBumped(xs: seq<int>, base: int, lo: int, k: int, v: int)
    requires forall i :: 0 <= i < |xs| ==> xs[i] == base
    requires 0 <= lo && 0 <= k && lo + k <= |xs|
    ensures AddOverRange(xs, lo, lo + k, v).Ok?
    ensures AddOverRange(xs, lo, lo + k, v).value == Bumped(|xs|, base, lo, k, v, 0, 0)
  {
    var r := AddOverRange(xs, lo, lo + k, v);
    assert r.Ok?;
    var shape := Bumped(|xs|, base, lo, k, v, 0, 0);
    forall i | 0 <= i < |xs|
      ensures r.value[i] == shape[i]
    {
      assert r.value[i] == xs[i] + (if lo <= i < lo + k then v else 0);
    }
    assert r.value == shape;
  }

  lemma RemainderBumped(b: seq<int>, base: int, lo: int, k: int, v: int, at: int, fr: int)
    requires b == Bumped(|b|, base, lo, k, v, 0, 0)
    requires 0 <= at < |b| && fr > 0
    ensures AddAt(b, at, fr).Ok?
    ensures AddAt(b, at, fr).value == Bumped(|b|, base, lo, k, v, at, fr)
  {
  }

  lemma EdgeRuns(xs: seq<int>, p: Plan, nb: int, d: int, front: int, back: int)
    requires 0 < nb && |xs| == nb && forall i :: 0 <= i < nb ==> xs[i] == p.base
    requires 0 <= p.bonusBatches <= 2 * nb
    requires front == p.bonusBatches / 2 && back == front + (nb - p.bonusBatches)
    ensures AddOverRange(xs, 0, front, d).Ok?
    ensures AddOverRange(AddOverRange(xs, 0, front, d).value, back, nb, d).Ok?
    ensures var b := AddOverRange(AddOverRange(xs, 0, front, d).value, back, nb, d).value;
      p.finalRemainder > 0 ==>
        AddAt(b, -1, p.finalRemainder).Ok? && AddAt(b, -1, p.finalRemainder).value == EdgeShape(p, nb, d)
    ensures p.finalRemainder <= 0 ==>
      AddOverRange(AddOverRange(xs, 0, front, d).value, back, nb, d).value == EdgeShape(p, nb, d)
  {
    var f := AddOverRange(xs, 0, front, d);
    assert f.Ok?;
    var b := AddOverRange(f.value, back, nb, d);
    assert b.Ok?;
    EdgeValues(xs, f.value, b.value, p, nb, d, front, back);
    if p.finalRemainder > 0 {
      var c := AddAt(b.value, -1, p.finalRemainder);
      assert c.Ok?;
      EdgeRemainder(b.value, c.value, p, nb, d);
    }
  }

  lemma EdgeValues(xs: seq<int>, f: seq<int>, b: seq<int>, p: Plan, nb: int, d: int, front: int, back: int)
    requires 0 < nb && |xs| == nb && forall i :: 0 <= i < nb ==> xs[i] == p.base
    requires 0 <= p.bonusBatches <= 2 * nb
    requires front == p.bonusBatches / 2 && back == front + (nb - p.bonusBatches)
    requires |f| == nb && forall j :: 0 <= j < nb ==> f[j] == xs[j] + (if 0 <= j < front then d else 0)
    requires |b| == nb && forall j :: 0 <= j < nb ==> b[j] == f[j] + (if back <= j < nb then d else 0)
    ensures p.finalRemainder <= 0 ==> b == EdgeShape(p, nb, d)
    ensures forall j :: 0 <= j < nb ==>
      b[j] == p.base + (if j < p.bonusBatches / 2 then d else 0)
                     + (if nb - (p.bonusBatches - p.bonusBatches / 2) <= j then d else 0)
  {
    if p.finalRemainder <= 0 {
      var shape := EdgeShape(p, nb, d);
      assert forall j :: 0 <= j < nb ==> b[j] == shape[j];
    }
  }

  lemma EdgeRemainder(b: seq<int>, c: seq<int>, p: Plan, nb: int, d: int)
    requires 0 < nb && |b| == nb && p.finalRemainder > 0
    requires forall j :: 0 <= j < nb ==>
      b[j] == p.base + (if j < p.bonusBatches / 2 then d else 0)
                     + (if nb - (p.bonusBatches - p.bonusBatches / 2) <= j then d else 0)
    requires |c| == nb && forall j :: 0 <= j < nb ==> c[j] == b[j] + (if j == nb - 1 then p.finalRemainder else 0)
    ensures c == EdgeShape(p, nb, d)
  {
    var shape := EdgeShape(p, nb, d);
    assert forall j :: 0 <= j < nb ==> c[j] == shape[j];
  }

  /** A successful distribution hands out exactly `n` threads. */
  lemma DistributeSum(numberToSplit: int, n: int, nb: int, peak: bool, d: int)
    requires 0 < nb && 0 < d && numberToSplit <= n && numberToSplit % nb == 0
    requires Distribute(numberToSplit, n, nb, peak, d).Ok?
    ensures Sum(Distribute(numberToSplit, n, nb, peak, d).value) == n
  {
    var p := MakePlan(numberToSplit, n, nb, d);
    PlanExact(numberToSplit, n, nb, d);
    if peak {
      CentreSum(p, nb, d);
    } else {
      EndsSum(p, nb, d);
    }
  }

  /** The centre-peak branch adds the bonuses and the remainder to the even shares. */
  lemma CentreSum(p: Plan, nb: int, d: int)
    requires 0 < nb && 0 <= p.bonusBatches && 0 <= p.finalRemainder
    requires DistributeCentre(p, nb, d).Ok?
    ensures Sum(DistributeCentre(p, nb, d).value) == p.base * nb + p.bonusBatches * d + p.finalRemainder
  {
    var xs := Repeat(p.base, nb);
    SumRepeat(p.base, nb);
    var k := p.bonusBatches;
    PeakSum(xs, nb * p.base + k * d + p.finalRemainder, k, p.finalRemainder, nb, d, TruncDiv(nb - k, 2));
  }

  /** So does the branch that bumps both ends. */
  lemma EndsSum(p: Plan, nb: int, d: int)
    requires 0 < nb && 0 <= p.bonusBatches && 0 <= p.finalRemainder
    requires DistributeEnds(p, nb, d).Ok?
    ensures Sum(DistributeEnds(p, nb, d).value) == p.base * nb + p.bonusBatches * d + p.finalRemainder
  {
    var xs := Repeat(p.base, nb);
    SumRepeat(p.base, nb);
    var k := p.bonusBatches;
    TruncDivNonneg(k, 2);
    EdgeSum(xs, nb * p.base + k * d + p.finalRemainder, k, p.finalRemainder, nb, d, k / 2);
  }

  lemma PeakSum(xs: seq<int>, total: int, k: int, fr: int, nb: int, d: int, start: int)
    requires 0 < nb && |xs| == nb && Sum(xs) + k * d + fr == total && 0 <= k
    requires AddOverRange(xs, start, start + k, d).Ok?
    requires fr > 0 ==> AddAt(AddOverRange(xs, start, start + k, d).value, TruncDiv(nb, 2), fr).Ok?
    ensures fr > 0 ==>
      Sum(AddAt(AddOverRange(xs, start, start + k, d).value, TruncDiv(nb, 2), fr).value) == total
    ensures fr <= 0 ==> Sum(AddOverRange(xs, start, start + k, d).value) == total - fr
  {
    var b := AddOverRange(xs, start, start + k, d).value;
    AddOverRangeSum(xs, start, start + k, d);
    assert Max(0, k) == k;
    if fr > 0 {
      SumAddAt(b, TruncDiv(nb, 2), fr);
    }
  }

  lemma EdgeSum(xs: seq<int>, total: int, k: int, fr: int, nb: int, d: int, h: int)
    requires 0 < nb && |xs| == nb && Sum(xs) + k * d + fr == total && 0 <= h <= k
    requires AddOverRange(xs, 0, h, d).Ok?
    requires AddOverRange(AddOverRange(xs, 0, h, d).value, h + (nb - k), nb, d).Ok?
    ensures var b := AddOverRange(AddOverRange(xs, 0, h, d).value, h + (nb - k), nb, d).value;
      Sum(b) == total - fr && (fr > 0 && AddAt(b, -1, fr).Ok? ==> Sum(AddAt(b, -1, fr).value) == total)
  {
    var f := AddOverRange(xs, 0, h, d).value;
    AddOverRangeSum(xs, 0, h, d);
    var b := AddOverRange(f, h + (nb - k), nb, d).value;
    AddOverRangeSum(f, h + (nb - k), nb, d);
    assert Max(0, h) == h && Max(0, nb - (h + (nb - k))) == k - h;
    SplitProduct(h, k, d);
    if fr > 0 && AddAt(b, -1, fr).Ok? {
      SumAddAt(b, -1, fr);
    }
  }

  lemma SplitProduct(h: int, k: int, d: int)
    ensures h * d + (k - h) * d == k * d
  {
  }


  /** `split_threads(n_threads, n_batches, peak_at_center, divisible_by)` as
      written (calc.py:3-74). */
  function SplitThreads(n: int, nb: int, peak: bool, d: int): (r: Result<seq<int>>)
    ensures nb == 0 || d == 0 ==> r == Err(ZeroDivisionError)
    ensures r.Ok? ==> |r.value| == Max(0, nb)
  {
    var numberToSplit :- LargestDivisibleByAll(n, [d, nb]);
    Distribute(numberToSplit, n, nb, peak, d)
  }

  /** The number `split_threads` divides evenly before handing out the rest. */
  function NumberToSplit(n: int, nb: int, d: int): int
    requires nb != 0 && d != 0
  {
    LargestDivisibleByAll(n, [d, nb]).value
  }

  /** The even share, remainder and bonus count `split_threads` works with. */
  function SplitPlan(n: int, nb: int, d: int): Plan
    requires nb != 0 && d != 0
  {
    MakePlan(NumberToSplit(n, nb, d), n, nb, d)
  }

  lemma NumberToSplitFacts(n: int, nb: int, d: int)
    requires 0 < nb && 0 < d
    ensures NumberToSplit(n, nb, d) < n
    ensures NumberToSplit(n, nb, d) % nb == 0 && NumberToSplit(n, nb, d) % d == 0
    ensures SplitThreads(n, nb, true, d) == Distribute(NumberToSplit(n, nb, d), n, nb, true, d)
    ensures SplitThreads(n, nb, false, d) == Distribute(NumberToSplit(n, nb, d), n, nb, false, d)
  {
    LargestDivisibleByAllNearest(n, [d, nb]);
    assert MaxOf([d, nb]) == Max(d, nb);
    assert [d, nb][1] == nb;
  }

  /** `split_threads` returns `n_batches` counts that add up to `n_threads`
      whenever it does not raise. */
  lemma SplitThreadsTotals(n: int, nb: int, peak: bool, d: int)
    requires 0 < nb && 0 < d && SplitThreads(n, nb, peak, d).Ok?
    ensures |SplitThreads(n, nb, peak, d).value| == nb
    ensures Sum(SplitThreads(n, nb, peak, d).value) == n
  {
    NumberToSplitFacts(n, nb, d);
    DistributeSum(NumberToSplit(n, nb, d), n, nb, peak, d);
  }

  /** `split_threads` places the bonuses as its comments describe: one centred
      run when at most `n_batches` of them fit, and otherwise (edges) always,
      the front and back runs overlapping when there are more than
      `n_batches`. */
  lemma SplitThreadsShape(n: int, nb: int, peak: bool, d: int)
    requires 0 < nb && 0 < d && (peak ==> SplitPlan(n, nb, d).bonusBatches <= nb)
    ensures SplitThreads(n, nb, peak, d).Ok?
    ensures SplitThreads(n, nb, peak, d).value == Shape(SplitPlan(n, nb, d), nb, peak, d)
  {
    NumberToSplitFacts(n, nb, d);
    SplitBonusBelow(n, nb, d);
    DistributeShape(NumberToSplit(n, nb, d), n, nb, peak, d);
  }

  /** The step-down leaves fewer than `2 * n_batches` bonus batches: the next
      common multiple `number_to_split + d * nb` is above `n - max(d, nb)`. */
  lemma SplitBonusBelow(n: int, nb: int, d: int)
    requires 0 < nb && 0 < d
    ensures 0 <= SplitPlan(n, nb, d).bonusBatches < 2 * nb
  {
    var m := NumberToSplit(n, nb, d);
    NextCommonAbove(n, nb, d);
    NumberToSplitFacts(n, nb, d);
    PlanExact(m, n, nb, d);
    BonusBound(SplitPlan(n, nb, d).bonusBatches, d, nb, n - m);
  }

  /** The common multiple after `number_to_split` lies above `n - max(d, nb)`. */
  lemma NextCommonAbove(n: int, nb: int, d: int)
    requires 0 < nb && 0 < d
    ensures n - Max(d, nb) < NumberToSplit(n, nb, d) + d * nb
  {
    var m := NumberToSplit(n, nb, d);
    assert MaxOf([d, nb]) == Max(d, nb);
    LargestDivisibleByAllNearest(n, [d, nb]);
    assert m == LargestDivisibleByAll(n, [d, nb]).value;
    NumberToSplitFacts(n, nb, d);
    CommonStep(m, d, nb);
    MulLe(d, 1, nb);
  }

  /** Adding `d * nb` keeps a common multiple of `d` and `nb` one. */
  lemma CommonStep(m: int, d: int, nb: int)
    requires 0 < nb && 0 < d && m % d == 0 && m % nb == 0
    ensures DividesAll(m + d * nb, [d, nb])
  {
    DivMod(m, d);
    DivMod(m, nb);
    assert m + d * nb == d * (m / d + nb);
    assert m + d * nb == nb * (m / nb + d);
    MulModZero(d, m / d + nb);
    MulModZero(nb, m / nb + d);
  }

  /** `k * d <= r < d * nb + max(d, nb)` leaves `k < 2 * nb`. */
  lemma BonusBound(k: int, d: int, nb: int, r: int)
    requires 0 < nb && 0 < d && 0 <= k && k * d <= r < d * nb + Max(d, nb)
    ensures k < 2 * nb
  {
    if 2 * nb <= k {
      MulLe(d, 2 * nb, k);
      assert 2 * nb * d <= k * d;
      assert d * nb + Max(d, nb) <= 2 * nb * d by {
        MulLe(d, 1, nb);
        MulLe(nb, 1, d);
      }
    }
  }

  /** With a centre peak, `split_threads` raises IndexError exactly when there
      are more bonus batches than batches. */
  lemma SplitThreadsPeakFails(n: int, nb: int, d: int)
    requires 0 < nb && 0 < d
    ensures SplitThreads(n, nb, true, d).Ok? <==> SplitPlan(n, nb, d).bonusBatches <= nb
    ensures SplitThreads(n, nb, true, d).Err? ==> SplitThreads(n, nb, true, d).error == IndexError
  {
    NumberToSplitFacts(n, nb, d);
    if SplitPlan(n, nb, d).bonusBatches <= nb {
      DistributeShape(NumberToSplit(n, nb, d), n, nb, true, d);
    } else {
      DistributePeakOverflow(NumberToSplit(n, nb, d), n, nb, d);
    }
  }

  /** The worked example of the docstring (calc.py:20-23). */
  lemma SplitThreadsDocExample()
    ensures SplitThreads(379, 5, true, 2) == Ok([76, 76, 77, 76, 74])
  {
    DocExampleNumber();
    assert TruncDiv(370, 5) == 74 && PyMod(9, 2) == 1 && TruncDiv(8, 2) == 4;
    assert SplitPlan(379, 5, 2) == Plan(74, 1, 4);
    SplitThreadsShape(379, 5, true, 2);
    DocExampleShape();
  }

  /** The centre-peak shape of the docstring's plan. */
  lemma DocExampleShape()
    ensures PeakShape(Plan(74, 1, 4), 5, 2) == [76, 76, 77, 76, 74]
  {
    var s := PeakShape(Plan(74, 1, 4), 5, 2);
    assert s[0] == 76 && s[1] == 76 && s[2] == 77 && s[3] == 76 && s[4] == 74;
  }

  /** The docstring's example steps down from 379 to 370. */
  lemma DocExampleNumber()
    ensures NumberToSplit(379, 5, 2) == 370
  {
    assert MaxOf([2, 5]) == 5;
    assert FloorDiv(379, 5) == 75;
    assert DividesAll(370, [2, 5]);
    assert StepDown(75, 5, [2, 5]) == 370;
  }

  /** The step-down leaves 7 bonus batches for 5 batches, and the centre-peak
      run indexes past the end of the list. */
  lemma SplitThreadsPeakOverflow()
    ensures SplitThreads(12, 5, true, 1) == Err(IndexError)
  {
    assert MaxOf([1, 5]) == 5;
    assert NumberToSplit(12, 5, 1) == 5;
    assert SplitPlan(12, 5, 1) == Plan(1, 0, 7);
    SplitThreadsPeakFails(12, 5, 1);
  }

  /** The docstring promises heavier first and last batches without a centre
      peak, but with 7 bonuses for 5 batches the two runs overlap and the
      middle batches come out heaviest. */
  lemma SplitThreadsEdgesNotHeavier()
    ensures SplitThreads(12, 5, false, 1) == Ok([2, 3, 3, 2, 2])
  {
    assert MaxOf([1, 5]) == 5;
    assert NumberToSplit(12, 5, 1) == 5;
    assert SplitPlan(12, 5, 1) == Plan(1, 0, 7);
    NumberToSplitFacts(12, 5, 1);
    OverlappingEnds();
  }

  /** Eight bonuses on five batches: the edge runs `[0, 4)` and `[1, 5)`
      overlap, which the general edge shape covers. */
  lemma SplitThreadsEdgesOverlap()
    ensures SplitThreads(13, 5, false, 1) == Ok([2, 3, 3, 3, 2])
  {
    assert MaxOf([1, 5]) == 5;
    assert NumberToSplit(13, 5, 1) == 5;
    assert SplitPlan(13, 5, 1) == Plan(1, 0, 8);
    SplitThreadsShape(13, 5, false, 1);
    var s := EdgeShape(Plan(1, 0, 8), 5, 1);
    assert s[0] == 2 && s[1] == 3 && s[2] == 3 && s[3] == 3 && s[4] == 2;
    assert s == [2, 3, 3, 3, 2];
  }

  /** A negative divisor makes the bonus count negative, so no bonus run is
      added and two threads of ten are lost: the counts sum to 8. */
  lemma SplitThreadsNegativeDivisor()
    ensures SplitThreads(10, 2, true, -1) == Ok([4, 4])
  {
    assert MaxOf([-1, 2]) == 2;
    assert NumberToSplit(10, 2, -1) == 8;
    assert SplitPlan(10, 2, -1) == Plan(4, 0, -2);
    var xs := Repeat(4, 2);
    assert AddOverRange(xs, 2, 0, -1) == Ok(xs);
    assert xs == [4, 4];
  }

  /** Seven bonuses on five batches: three at the front, and four from batch 1
      to the end. */
  lemma OverlappingEnds()
    ensures DistributeEnds(Plan(1, 0, 7), 5, 1) == Ok([2, 3, 3, 2, 2])
  {
    var xs := Repeat(1, 5);
    assert TruncDiv(7, 2) == 3;
    var f := AddOverRange(xs, 0, 3, 1);
    assert f.Ok?;
    assert f.value[0] == 2 && f.value[1] == 2 && f.value[2] == 2 && f.value[3] == 1 && f.value[4] == 1;
    var b := AddOverRange(f.value, 1, 5, 1);
    assert b.Ok?;
    assert b.value[0] == 2 && b.value[1] == 3 && b.value[2] == 3 && b.value[3] == 2 && b.value[4] == 2;
    assert b.value == [2, 3, 3, 2, 2];
  }

  /** The docstring allows at most one batch off the divisor, but both batches
      of `split_threads(8, 2, True, 4)` are. */
  lemma SplitThreadsTwoOffDivisor()
    ensures SplitThreads(8, 2, true, 4) == Ok([6, 2])
    ensures 6 % 4 != 0 && 2 % 4 != 0
  {
    assert MaxOf([4, 2]) == 4;
    assert NumberToSplit(8, 2, 4) == 4;
    assert SplitPlan(8, 2, 4) == Plan(2, 0, 1);
    SplitThreadsShape(8, 2, true, 4);
    var s := PeakShape(Plan(2, 0, 1), 2, 4);
    assert s[0] == 6 && s[1] == 2;
    assert s == [6, 2];
  }

  /** The corrected split divides evenly the largest multiple of
      `divisible_by * n_batches` that fits. */
  function CorrectedNumberToSplit(n: int, nb: int, d: int): (m: int)
    requires 0 < nb && 0 < d
    ensures m <= n && m % (d * nb) == 0
    ensures n < m + d * nb
  {
    MulLe(d, 1, nb);
    var L := d * nb;
    var m := LargestCommonMultipleAtMost(n, [L]).value;
    assert [L][0] == L;
    NextMultipleAbove(n, L, m);
    m
  }

  /** The next multiple of `L` after the largest one at most `n` exceeds `n`. */
  lemma NextMultipleAbove(n: int, L: int, m: int)
    requires 0 < L && m == LargestCommonMultipleAtMost(n, [L]).value
    ensures n < m + L
  {
    assert [L][0] == L;
    assert m % L == 0;
    DivMod(m, L);
    assert m + L == L * (m / L + 1);
    MulModZero(L, m / L + 1);
    assert DividesAll(m + L, [L]);
  }

  function CorrectedPlan(n: int, nb: int, d: int): Plan
    requires 0 < nb && 0 < d
  {
    MakePlan(CorrectedNumberToSplit(n, nb, d), n, nb, d)
  }

  /** Corrected `split_threads`: every even share is a multiple of
      `divisible_by` and fewer than `n_batches` bonuses remain, so the
      distribution never leaves the list. Batch and divisor counts below one
      are rejected. */
  function SplitThreadsCorrected(n: int, nb: int, peak: bool, d: int): (r: Result<seq<int>>)
    ensures r.Ok? <==> 0 < nb && 0 < d
    ensures r.Err? ==> r.error == ValueError
    ensures r.Ok? ==> |r.value| == nb && Sum(r.value) == n
    ensures r.Ok? ==> forall i :: 0 <= i < nb && i != RemainderIndex(nb, peak) ==>
      r.value[i] % d == 0
    ensures r.Ok? && 0 <= n ==> forall i :: 0 <= i < nb ==> 0 <= r.value[i]
  {
    if nb < 1 || d < 1 then Err(ValueError)
    else
      var numberToSplit := CorrectedNumberToSplit(n, nb, d);
      CorrectedPlanFacts(n, nb, d);
      DistributeShape(numberToSplit, n, nb, peak, d);
      DistributeSum(numberToSplit, n, nb, peak, d);
      ShapeDivisible(CorrectedPlan(n, nb, d), nb, peak, d);
      Distribute(numberToSplit, n, nb, peak, d)
  }

  lemma CorrectedPlanFacts(n: int, nb: int, d: int)
    requires 0 < nb && 0 < d
    ensures CorrectedNumberToSplit(n, nb, d) % nb == 0
    ensures 0 <= CorrectedPlan(n, nb, d).bonusBatches < nb
    ensures CorrectedPlan(n, nb, d).base % d == 0
    ensures 0 <= CorrectedPlan(n, nb, d).finalRemainder < d
    ensures 0 <= n ==> 0 <= CorrectedPlan(n, nb, d).base
  {
    var m := CorrectedNumberToSplit(n, nb, d);
    MulLe(d, 1, nb);
    var L := d * nb;
    DivMod(m, L);
    var j := m / L;
    assert m == nb * (d * j);
    MulModZero(nb, d * j);
    PlanExact(m, n, nb, d);
    TruncDivExact(d * j, nb);
    var p := CorrectedPlan(n, nb, d);
    assert p.base == d * j;
    MulModZero(d, j);
    var k := p.bonusBatches;
    assert k * d <= n - m < L;
    if nb <= k {
      MulLe(d, nb, k);
    }
    if 0 <= n && j < 0 {
      MulLe(L, j, -1);
    }
    if 0 <= n {
      MulNonneg(d, j);
    }
  }

  /** In both shapes every batch but the remainder batch is the even share
      plus zero, one or two `divisible_by`, and none goes below the even share. */
  lemma ShapeDivisible(p: Plan, nb: nat, peak: bool, d: int)
    requires 0 < d && p.base % d == 0 && 0 <= p.finalRemainder
    ensures forall i :: 0 <= i < nb && i != RemainderIndex(nb, peak) ==> Shape(p, nb, peak, d)[i] % d == 0
    ensures forall i :: 0 <= i < nb ==> p.base <= Shape(p, nb, peak, d)[i]
  {
    var j := p.base / d;
    DivMod(p.base, d);
    assert p.base == d * j && p.base + d == d * (j + 1);
    MulModZero(d, j);
    MulModZero(d, j + 1);
    assert p.base + 2 * d == d * (j + 2);
    MulModZero(d, j + 2);
    var s := Shape(p, nb, peak, d);
    forall i | 0 <= i < nb && i != RemainderIndex(nb, peak)
      ensures s[i] % d == 0
    {
      assert s[i] == p.base || s[i] == p.base + d || s[i] == p.base + 2 * d;
    }
  }

  /** The corrected split places the bonuses and the remainder as the comments
      describe, with fewer than `n_batches` bonuses. */
  lemma SplitThreadsCorrectedShape(n: int, nb: int, peak: bool, d: int)
    requires 0 < nb && 0 < d
    ensures CorrectedPlan(n, nb, d).bonusBatches < nb
    ensures SplitThreadsCorrected(n, nb, peak, d).value == Shape(CorrectedPlan(n, nb, d), nb, peak, d)
  {
    CorrectedPlanFacts(n, nb, d);
    DistributeShape(CorrectedNumberToSplit(n, nb, d), n, nb, peak, d);
  }

  /** A multiple of `L` within `L` below `n` is the one the corrected split uses. */
  lemma CorrectedNumberToSplitIs(n: int, nb: int, d: int, m: int)
    requires 0 < nb && 0 < d
    requires m % (d * nb) == 0 && m <= n < m + d * nb
    ensures CorrectedNumberToSplit(n, nb, d) == m
  {
    MulLe(d, 1, nb);
    var r := CorrectedNumberToSplit(n, nb, d);
    if m < r {
      MultiplesApart(m, r, d * nb);
    } else if r < m {
      MultiplesApart(r, m, d * nb);
    }
  }

  /** Distinct multiples of `L` are at least `L` apart. */
  lemma MultiplesApart(a: int, b: int, L: int)
    requires 0 < L && a % L == 0 && b % L == 0 && a < b
    ensures a + L <= b
  {
    DivMod(b, L);
    var q := b / L;
    assert b == L * q;
    MultipleBelow(a, L, q);
    assert (q - 1) * L == L * q - L;
  }

  /** The corrected split keeps the docstring's worked example. */
  lemma CorrectedDocExample()
    ensures SplitThreadsCorrected(379, 5, true, 2) == Ok([76, 76, 77, 76, 74])
  {
    CorrectedNumberToSplitIs(379, 5, 2, 370);
    assert CorrectedPlan(379, 5, 2) == Plan(74, 1, 4);
    SplitThreadsCorrectedShape(379, 5, true, 2);
    DocExampleShape();
  }

  /** Where the original raises IndexError, the corrected split peaks. */
  lemma CorrectedPeakFits()
    ensures SplitThreadsCorrected(12, 5, true, 1) == Ok([2, 3, 3, 2, 2])
  {
    CorrectedNumberToSplitIs(12, 5, 1, 10);
    assert CorrectedPlan(12, 5, 1) == Plan(2, 0, 2);
    SplitThreadsCorrectedShape(12, 5, true, 1);
    var s := PeakShape(Plan(2, 0, 2), 5, 1);
    assert s[0] == 2 && s[1] == 3 && s[2] == 3 && s[3] == 2 && s[4] == 2;
    assert s == [2, 3, 3, 2, 2];
  }

  /** Without a centre peak, the corrected split makes the ends heavier. */
  lemma CorrectedEdgesHeavier()
    ensures SplitThreadsCorrected(12, 5, false, 1) == Ok([3, 2, 2, 2, 3])
  {
    CorrectedNumberToSplitIs(12, 5, 1, 10);
    assert CorrectedPlan(12, 5, 1) == Plan(2, 0, 2);
    SplitThreadsCorrectedShape(12, 5, false, 1);
    var s := EdgeShape(Plan(2, 0, 2), 5, 1);
    assert s[0] == 3 && s[1] == 2 && s[2] == 2 && s[3] == 2 && s[4] == 3;
    assert s == [3, 2, 2, 2, 3];
  }

  /** Where the original leaves both batches off the divisor, the corrected
      split leaves none. */
  lemma CorrectedAllDivisible()
    ensures SplitThreadsCorrected(8, 2, true, 4) == Ok([4, 4])
  {
    CorrectedNumberToSplitIs(8, 2, 4, 8);
    assert CorrectedPlan(8, 2, 4) == Plan(4, 0, 0);
    SplitThreadsCorrectedShape(8, 2, true, 4);
    var s := PeakShape(Plan(4, 0, 0), 2, 4);
    assert s[0] == 4 && s[1] == 4;
    assert s == [4, 4];
  }
}
