/** Python value semantics the scripts rely on: the exceptions they can raise,
    integer division and remainder, and list indexing with negative indices. */
module Py {

  /** Python's `None`-or-value. */
  datatype Option<+T> = None | Some(value: T)

  /** The Python exceptions the modelled code can raise on bad input. */
  datatype PyError = IndexError | ZeroDivisionError | TypeError | ValueError

  /** A computation that either returns a value or raises a Python exception. */
  datatype Result<+T> = Ok(value: T) | Err(error: PyError) {
    predicate IsFailure() {
      Err?
    }

    function PropagateFailure<U>(): Result<U>
      requires Err?
    {
      Err(error)
    }

    function Extract(): T
      requires Ok?
    {
      value
    }
  }

  function Abs(x: int): int {
    if x < 0 then -x else x
  }

  function Max(a: int, b: int): int {
    if a < b then b else a
  }

  function Min(a: int, b: int): int {
    if a < b then a else b
  }

  /** Python `int(a / b)`: true division, then truncation toward zero. */
  function TruncDiv(a: int, b: int): (q: int)
    requires b != 0
    ensures 0 <= a ==> 0 <= a - q * b < Abs(b)
    ensures a < 0 ==> -Abs(b) < a - q * b <= 0
  {
    var q0 := Abs(a) / Abs(b);
    TruncDivFacts(a, b, q0);
    if (0 <= a) == (0 < b) then q0 else -q0
  }

  lemma TruncDivFacts(a: int, b: int, q0: int)
    requires b != 0 && q0 == Abs(a) / Abs(b)
    ensures 0 <= Abs(a) - q0 * Abs(b) < Abs(b)
    ensures (0 <= a) == (0 < b) ==> a - q0 * b == (if 0 <= a then 1 else -1) * (Abs(a) - q0 * Abs(b))
    ensures (0 <= a) != (0 < b) ==> a - (-q0) * b == (if 0 <= a then 1 else -1) * (Abs(a) - q0 * Abs(b))
  {
    var A, B := Abs(a), Abs(b);
    assert A == q0 * B + A % B;
    if 0 < b {
      assert q0 * b == q0 * B;
    } else {
      assert b == -B;
      assert q0 * b == -(q0 * B);
    }
  }

  /** Python `a // b`: division rounding toward negative infinity. */
  function FloorDiv(a: int, b: int): int
    requires b != 0
  {
    if 0 < b then a / b else (-a) / (-b)
  }

  /** Python `a % b`: the remainder takes the sign of the divisor. */
  function PyMod(a: int, b: int): (r: int)
    requires b != 0
    ensures a == b * FloorDiv(a, b) + r
    ensures 0 < b ==> 0 <= r < b
    ensures b < 0 ==> b < r <= 0
  {
    if 0 < b then
      a % b
    else
      -((-a) % (-b))
  }

  /** Python's `[x] * n`, which is empty for `n <= 0`. */
  function Repeat<T>(x: T, n: int): (r: seq<T>)
    ensures |r| == Max(0, n)
    ensures forall i :: 0 <= i < |r| ==> r[i] == x
  {
    if n <= 0 then [] else seq(n, _ => x)
  }

  /** The position a Python index `i` denotes in a list of length `n`:
      negative indices count from the end, anything outside `[-n, n)` raises. */
  function NormIndex(n: nat, i: int): (r: Option<nat>)
    ensures r.Some? <==> 0 <= i + n && i < n
    ensures r.Some? ==> r.value < n && (r.value == i || r.value == i + n)
  {
    if 0 <= i < n then Some(i)
    else if 0 <= i + n && i < 0 then Some(i + n)
    else None
  }

  /** Python `xs[i]`. */
  function Get<T>(xs: seq<T>, i: int): (r: Result<T>)
    ensures r.Ok? <==> -|xs| <= i < |xs|
    ensures 0 <= i < |xs| ==> r == Ok(xs[i])
    ensures -|xs| <= i < 0 ==> r == Ok(xs[|xs| + i])
    ensures r.Err? ==> r.error == IndexError
  {
    match NormIndex(|xs|, i)
    case Some(j) => Ok(xs[j])
    case None => Err(IndexError)
  }

  /** Python `xs[i] += v` on a list of integers. */
  function AddAt(xs: seq<int>, i: int, v: int): (r: Result<seq<int>>)
    ensures r.Ok? <==> -|xs| <= i < |xs|
    ensures r.Err? ==> r.error == IndexError
    ensures r.Ok? ==> |r.value| == |xs|
    ensures r.Ok? ==> forall j {:trigger r.value[j]} :: 0 <= j < |xs| ==>
      r.value[j] == xs[j] + (if j == i || j == i + |xs| then v else 0)
  {
    match NormIndex(|xs|, i)
    case Some(j) => Ok(xs[j := xs[j] + v])
    case None => Err(IndexError)
  }

  /** Python `sum(xs)`. */
  function Sum(xs: seq<int>): int
  {
    if |xs| == 0 then 0 else xs[0] + Sum(xs[1..])
  }

  lemma {:induction false} SumAppend(xs: seq<int>, ys: seq<int>)
    ensures Sum(xs + ys) == Sum(xs) + Sum(ys)
  {
    if |xs| == 0 {
      assert xs + ys == ys;
    } else {
      assert (xs + ys)[1..] == xs[1..] + ys;
      SumAppend(xs[1..], ys);
    }
  }

  lemma {:induction false} SumRepeat(x: int, n: nat)
    ensures Sum(Repeat(x, n)) == n * x
  {
    if n > 0 {
      assert Repeat(x, n) == [x] + Repeat(x, n - 1);
      SumAppend([x], Repeat(x, n - 1));
      SumRepeat(x, n - 1);
    }
  }

  /** Raising one entry by `v` raises the total by `v`. */
  lemma {:induction false} SumUpdate(xs: seq<int>, j: nat, v: int)
    requires j < |xs|
    ensures Sum(xs[j := xs[j] + v]) == Sum(xs) + v
  {
    if j == 0 {
      assert xs[j := xs[j] + v][1..] == xs[1..];
    } else {
      assert xs[j := xs[j] + v][1..] == xs[1..][j - 1 := xs[j] + v];
      SumUpdate(xs[1..], j - 1, v);
    }
  }

  /** A successful `xs[i] += v` raises the total by `v`, wherever `i` points. */
  lemma SumAddAt(xs: seq<int>, i: int, v: int)
    requires AddAt(xs, i, v).Ok?
    ensures Sum(AddAt(xs, i, v).value) == Sum(xs) + v
  {
    var j := NormIndex(|xs|, i).value;
    SumUpdate(xs, j, v);
  }

  lemma ConcatAssoc<T>(a: seq<T>, b: seq<T>, c: seq<T>)
    ensures (a + b) + c == a + (b + c)
  {
  }

  lemma CountAppend<T>(a: seq<T>, b: seq<T>, x: T)
    ensures multiset(a + b)[x] == multiset(a)[x] + multiset(b)[x]
  {
  }

  // Small facts of integer arithmetic the solver does not find on its own.

  lemma MulNonneg(a: int, b: int)
    requires 0 <= a && 0 <= b
    ensures 0 <= a * b
  {
  }

  lemma MulLe(p: int, a: int, b: int)
    requires 0 < p && a <= b
    ensures p * a <= p * b
  {
    MulNonneg(p, b - a);
    assert p * (b - a) == p * b - p * a;
  }

  lemma DivMod(x: int, p: int)
    requires 0 < p
    ensures x == p * (x / p) + x % p && 0 <= x % p < p
  {
  }

  /** Euclidean division has one quotient and one remainder. */
  lemma ModUnique(x: int, p: int, q: int, r: int)
    requires 0 < p && x == p * q + r && 0 <= r < p
    ensures x % p == r && x / p == q
  {
    var q', r' := x / p, x % p;
    DivMod(x, p);
    assert p * (q - q') == r' - r;
    if q - q' >= 1 { MulLe(p, 1, q - q'); }
    if q - q' <= -1 { MulLe(p, q - q', -1); }
  }

  lemma MulModZero(a: int, k: int)
    requires a != 0
    ensures (a * k) % a == 0
  {
    if 0 < a {
      ModUnique(a * k, a, k, 0);
    } else {
      assert a * k == (-a) * (-k);
      ModUnique(a * k, -a, -k, 0);
      assert (a * k) % (-a) == (a * k) % a;
    }
  }

  /** A multiple of `s > 0` below `m * s` is at most `(m - 1) * s`. */
  lemma MultipleBelow(c: int, s: int, m: int)
    requires 0 < s && c % s == 0 && c < m * s
    ensures c <= (m - 1) * s
  {
    var j := c / s;
    DivMod(c, s);
    if j >= m { MulLe(s, m, j); }
    MulLe(s, j, m - 1);
  }

  /** A multiple of `s < 0` above `m * s` is at least `(m - 1) * s`. */
  lemma MultipleAbove(c: int, s: int, m: int)
    requires s < 0 && c % s == 0 && m * s < c
    ensures (m - 1) * s <= c
  {
    assert c % (-s) == 0;
    assert m * s == (-m) * (-s);
    MultipleBelow(-c, -s, m) by {
      assert (-c) % (-s) == 0 by {
        DivMod(c, -s);
        assert -c == (-s) * (-(c / (-s)));
        MulModZero(-s, -(c / (-s)));
      }
      assert -c < m * (-s);
    }
    assert (m - 1) * s == -((m - 1) * (-s));
  }

  /** `int(a / b)` of a non-negative `a` by a positive `b` is floor division. */
  lemma TruncDivNonneg(a: int, b: int)
    requires 0 <= a && 0 < b
    ensures TruncDiv(a, b) == a / b
  {
    var q := TruncDiv(a, b);
    ModUnique(a, b, q, a - q * b);
  }

  /** `int(a / b)` is exact when `b` divides `a`. */
  lemma TruncDivExact(j: int, b: int)
    requires b != 0
    ensures TruncDiv(b * j, b) == j
  {
    var q := TruncDiv(b * j, b);
    assert b * j - q * b == b * (j - q);
    MulSmall(b, j - q);
  }

  /** The only multiple of `b` strictly between `-|b|` and `|b|` is zero. */
  lemma MulSmall(b: int, d: int)
    requires b != 0 && -Abs(b) < b * d < Abs(b)
    ensures d == 0
  {
    var B := Abs(b);
    assert b * d == B * d || b * d == -(B * d);
    if d >= 1 {
      MulLe(B, 1, d);
    } else if d <= -1 {
      MulLe(B, d, -1);
    }
  }

  /** How `n / d` moves from `n - 1` to `n`. */
  lemma DivStep(n: int, d: int)
    requires 0 < d
    ensures n % d == 0 ==> n / d == (n - 1) / d + 1
    ensures n % d != 0 ==> n / d == (n - 1) / d
  {
    var q, r := (n - 1) / d, (n - 1) % d;
    DivMod(n - 1, d);
    if r + 1 < d {
      ModUnique(n, d, q, r + 1);
    } else {
      ModUnique(n, d, q + 1, 0);
    }
  }
}
