/** The thread-placement primitives of colour_gradient.py: the balanced
    per-colour split, the colour centres, the nearest-free-slot search, the
    fallback fill and one placement step. A placement is a sequence of slots,
    each empty (`None`) or holding a colour letter. */
module Gradient {
  import opened Py
  import opened Text

  // ---------------------------------------------------------------------
  // get_n_threads_per_colour (colour_gradient.py:24-43)
  // ---------------------------------------------------------------------

  /** `for i in range(lo, hi): xs[i] += 1; xs[-(i+1)] += 1`. */
  function AddPairs(xs: seq<int>, lo: int, hi: int): (r: Result<seq<int>>)
    ensures r.Ok? ==> |r.value| == |xs|
    decreases hi - lo
  {
    if hi <= lo then Ok(xs)
    else
      match AddAt(xs, lo, 1)
      case Err(e) => Err(e)
      case Ok(front) =>
        match AddAt(front, -(lo + 1), 1)
        case Err(e) => Err(e)
        case Ok(both) => AddPairs(both, lo + 1, hi)
  }

  /** Pairs inside the list add one at each end of the range `[lo, hi)` and
      its mirror image. */
  lemma {:induction false} AddPairsValues(xs: seq<int>, lo: int, hi: int)
    requires 0 <= lo <= hi <= |xs|
    ensures AddPairs(xs, lo, hi).Ok?
    ensures forall j {:trigger AddPairs(xs, lo, hi).value[j]} :: 0 <= j < |xs| ==>
      AddPairs(xs, lo, hi).value[j] == xs[j] + (if lo <= j < hi then 1 else 0)
                                             + (if |xs| - hi <= j < |xs| - lo then 1 else 0)
    decreases hi - lo
  {
    if lo < hi {
      var front := AddAt(xs, lo, 1);
      var both := AddAt(front.value, -(lo + 1), 1);
      AddPairsValues(both.value, lo + 1, hi);
    }
  }

  /** Each pair adds two threads, so the pairs add `2 * (hi - lo)` to the total. */
  lemma {:induction false} AddPairsSum(xs: seq<int>, lo: int, hi: int)
    requires 0 <= lo <= hi <= |xs|
    requires AddPairs(xs, lo, hi).Ok?
    ensures Sum(AddPairs(xs, lo, hi).value) == Sum(xs) + 2 * (hi - lo)
    decreases hi - lo
  {
    if lo < hi {
      var front := AddAt(xs, lo, 1);
      var both := AddAt(front.value, -(lo + 1), 1);
      SumAddAt(xs, lo, 1);
      SumAddAt(front.value, -(lo + 1), 1);
      AddPairsSum(both.value, lo + 1, hi);
    }
  }

  /** `get_n_threads_per_colour(n_threads, n_colours)` under Python 2, where
      `/` on integers rounds down. */
  function ThreadsPerColour(n: int, c: int): (r: Result<seq<int>>)
    ensures c == 0 ==> r == Err(ZeroDivisionError)
    ensures r.Ok? ==> |r.value| == Max(0, c)
  {
    if c == 0 then Err(ZeroDivisionError)
    else
      var floor := FloorDiv(n, c);
      var counts := Repeat(floor, c);
      var remainder := PyMod(n, c);
      var remIsOdd := remainder % 2 != 0;
      var evenRemainder := if remIsOdd then remainder - 1 else remainder;
      var paired :- AddPairs(counts, 0, FloorDiv(evenRemainder, 2));
      if remIsOdd then
        if c % 2 != 0 then AddAt(paired, FloorDiv(c - 1, 2), 1)
        else AddAt(paired, FloorDiv(evenRemainder, 2), 1)
      else Ok(paired)
  }

  /** Where the lone extra thread of an odd remainder goes: the middle colour
      when there is one, otherwise the first colour after the front extras. */
  function LoneExtraIndex(c: nat, remainder: nat): nat
  {
    if c % 2 == 1 then (c - 1) / 2 else remainder / 2
  }

  /** The balanced split as its comments describe it: the even share, one
      extra for each of the first and last `remainder / 2` colours, and the
      lone extra of an odd remainder. */
  function PerColourShape(n: int, c: nat): seq<int>
    requires 0 < c
  {
    var h := (n % c) / 2;
    seq(c, i =>
      n / c + (if i < h || c - h <= i then 1 else 0)
            + (if (n % c) % 2 == 1 && i == LoneExtraIndex(c, n % c) then 1 else 0))
  }

  lemma ThreadsPerColourShape(n: int, c: int)
    requires 0 < c
    ensures ThreadsPerColour(n, c).Ok?
    ensures ThreadsPerColour(n, c).value == PerColourShape(n, c)
    ensures Sum(ThreadsPerColour(n, c).value) == n
  {
    var r := n % c;
    var h := r / 2;
    var counts := Repeat(n / c, c);
    DivMod(n, c);
    AddPairsValues(counts, 0, h);
    AddPairsSum(counts, 0, h);
    SumRepeat(n / c, c);
    var paired := AddPairs(counts, 0, h).value;
    PerColourSteps(n, c, h, paired);
    if r % 2 != 0 {
      PerColourLoneExtra(n, c, paired);
      SumAddAt(paired, LoneExtraIndex(c, r), 1);
      assert r == 2 * h + 1;
    } else {
      var shape := PerColourShape(n, c);
      assert forall i :: 0 <= i < c ==> paired[i] == shape[i];
      assert paired == shape;
    }
  }

  /** The steps of `get_n_threads_per_colour` for a positive colour count. */
  lemma PerColourSteps(n: int, c: int, h: int, paired: seq<int>)
    requires 0 < c && h == (n % c) / 2
    requires AddPairs(Repeat(n / c, c), 0, h).Ok? && paired == AddPairs(Repeat(n / c, c), 0, h).value
    ensures (n % c) % 2 != 0 ==> ThreadsPerColour(n, c) == AddAt(paired, LoneExtraIndex(c, n % c), 1)
    ensures (n % c) % 2 == 0 ==> ThreadsPerColour(n, c) == Ok(paired)
  {
    var r := n % c;
    assert FloorDiv(n, c) == n / c && PyMod(n, c) == r;
    var even := if r % 2 != 0 then r - 1 else r;
    assert FloorDiv(even, 2) == h;
    if c % 2 != 0 {
      assert FloorDiv(c - 1, 2) == LoneExtraIndex(c, r);
    }
  }

  lemma PerColourLoneExtra(n: int, c: int, paired: seq<int>)
    requires 0 < c && (n % c) % 2 != 0
    requires |paired| == c && forall j :: 0 <= j < c ==>
      paired[j] == n / c + (if j < (n % c) / 2 then 1 else 0) + (if c - (n % c) / 2 <= j < c then 1 else 0)
    ensures AddAt(paired, LoneExtraIndex(c, n % c), 1).Ok?
    ensures AddAt(paired, LoneExtraIndex(c, n % c), 1).value == PerColourShape(n, c)
  {
    var r := n % c;
    var h := r / 2;
    var m := LoneExtraIndex(c, r);
    assert h <= m < c - h;
    var res := AddAt(paired, m, 1).value;
    var shape := PerColourShape(n, c);
    assert forall i :: 0 <= i < c ==> res[i] == shape[i];
    assert res == shape;
  }

  /** `get_n_threads_per_colour` returns `n_colours` counts that add up to
      `n_threads`, each the even share or one more. */
  lemma ThreadsPerColourBalanced(n: int, c: int)
    requires 0 < c
    ensures ThreadsPerColour(n, c).Ok? && |ThreadsPerColour(n, c).value| == c
    ensures Sum(ThreadsPerColour(n, c).value) == n
    ensures forall i :: 0 <= i < c ==>
      ThreadsPerColour(n, c).value[i] == n / c || ThreadsPerColour(n, c).value[i] == n / c + 1
  {
    ThreadsPerColourShape(n, c);
  }

  /** The split is symmetric when the remainder is even or there is a middle colour. */
  lemma ThreadsPerColourSymmetry(n: int, c: int)
    requires 0 < c
    ensures ThreadsPerColour(n, c).Ok?
    ensures (n % c) % 2 == 0 || c % 2 == 1 ==>
      forall i :: 0 <= i < c ==> ThreadsPerColour(n, c).value[i] == ThreadsPerColour(n, c).value[c - 1 - i]
  {
    ThreadsPerColourShape(n, c);
    if (n % c) % 2 == 0 || c % 2 == 1 {
      ShapeSymmetric(n, c);
    }
  }

  /** With an even number of colours and an odd remainder, the lone extra
      sits at `remainder / 2`, left of centre, so the split is lopsided. */
  lemma ThreadsPerColourLopsided(n: int, c: int)
    requires 0 < c && (n % c) % 2 == 1 && c % 2 == 0
    ensures ThreadsPerColour(n, c).Ok?
    ensures ThreadsPerColour(n, c).value[(n % c) / 2] == n / c + 1
    ensures ThreadsPerColour(n, c).value[c - 1 - (n % c) / 2] == n / c
    ensures (n % c) / 2 < c - 1 - (n % c) / 2
  {
    ThreadsPerColourShape(n, c);
    ShapeLoneExtra(n, c);
  }

  lemma ShapeSymmetric(n: int, c: int)
    requires 0 < c
    requires (n % c) % 2 == 0 || c % 2 == 1
    ensures forall i :: 0 <= i < c ==> PerColourShape(n, c)[i] == PerColourShape(n, c)[c - 1 - i]
  {
    var s := PerColourShape(n, c);
    var r := n % c;
    var h := r / 2;
    forall i | 0 <= i < c
      ensures s[i] == s[c - 1 - i]
    {
      var j := c - 1 - i;
      assert (i < h || c - h <= i) == (j < h || c - h <= j);
      if r % 2 == 1 {
        assert (i == (c - 1) / 2) == (j == (c - 1) / 2);
      }
    }
  }

  lemma ShapeLoneExtra(n: int, c: int)
    requires 0 < c
    requires (n % c) % 2 == 1 && c % 2 == 0
    ensures PerColourShape(n, c)[(n % c) / 2] == n / c + 1
    ensures PerColourShape(n, c)[c - 1 - (n % c) / 2] == n / c
    ensures (n % c) / 2 < c - 1 - (n % c) / 2
  {
    var r := n % c;
    var h := r / 2;
    assert r < c && r == 2 * h + 1;
    assert LoneExtraIndex(c, r) == h;
  }

  // ---------------------------------------------------------------------
  // get_colour_centers (colour_gradient.py:46-53)
  // ---------------------------------------------------------------------

  /** Python's `xs[1:-1]`. */
  function Inner(xs: seq<int>): (r: seq<int>)
    ensures |r| == Max(0, |xs| - 2)
    ensures forall i :: 0 <= i < |r| ==> r[i] == xs[i + 1]
  {
    if |xs| <= 2 then [] else xs[1..|xs| - 1]
  }

  /** The middle centres: each is the running start plus `int(count / 2.0)`. */
  function Mids(start: int, xs: seq<int>): (r: seq<int>)
    ensures |r| == |xs|
    decreases |xs|
  {
    if |xs| == 0 then [] else [start + TruncDiv(xs[0], 2)] + Mids(start + xs[0], xs[1..])
  }

  /** `get_colour_centers(counts)`, with the global thread count a parameter. */
  function ColourCenters(counts: seq<int>, nThreads: int): (r: Result<seq<int>>)
    ensures r.Ok? <==> |counts| > 0
    ensures r.Err? ==> r.error == IndexError
    ensures r.Ok? ==> |r.value| == Max(2, |counts|)
    ensures r.Ok? ==> r.value[0] == 0 && r.value[|r.value| - 1] == nThreads
  {
    if |counts| == 0 then Err(IndexError)
    else Ok([0] + Mids(counts[0], Inner(counts)) + [nThreads])
  }

  lemma {:induction false} MidsValues(start: int, xs: seq<int>)
    ensures forall j :: 0 <= j < |xs| ==> Mids(start, xs)[j] == start + Sum(xs[..j]) + TruncDiv(xs[j], 2)
    decreases |xs|
  {
    if |xs| > 0 {
      MidsValues(start + xs[0], xs[1..]);
      forall j | 0 <= j < |xs|
        ensures Mids(start, xs)[j] == start + Sum(xs[..j]) + TruncDiv(xs[j], 2)
      {
        if j > 0 {
          assert xs[..j][1..] == xs[1..][..j - 1];
          assert Mids(start, xs)[j] == Mids(start + xs[0], xs[1..])[j - 1];
        }
      }
    }
  }

  /** Middle centre `i` is the start of block `i` (the threads of the colours
      before it) plus half its own count rounded toward zero; with a positive
      count it lies inside its own block. */
  lemma ColourCentersInBlocks(counts: seq<int>, nThreads: int)
    requires |counts| >= 2
    ensures forall i :: 1 <= i < |counts| - 1 ==>
      ColourCenters(counts, nThreads).value[i] == Sum(counts[..i]) + TruncDiv(counts[i], 2)
    ensures forall i :: 1 <= i < |counts| - 1 && 0 < counts[i] ==>
      Sum(counts[..i]) <= ColourCenters(counts, nThreads).value[i] < Sum(counts[..i + 1])
  {
    var inner := Inner(counts);
    MidsValues(counts[0], inner);
    var r := ColourCenters(counts, nThreads).value;
    forall i | 1 <= i < |counts| - 1
      ensures r[i] == Sum(counts[..i]) + TruncDiv(counts[i], 2)
      ensures 0 < counts[i] ==> Sum(counts[..i]) <= r[i] < Sum(counts[..i + 1])
    {
      assert r[i] == Mids(counts[0], inner)[i - 1];
      assert counts[..i] == [counts[0]] + inner[..i - 1];
      SumAppend([counts[0]], inner[..i - 1]);
      assert counts[..i + 1] == counts[..i] + [counts[i]];
      SumAppend(counts[..i], [counts[i]]);
      if 0 < counts[i] {
        TruncDivNonneg(counts[i], 2);
      }
    }
  }

  // ---------------------------------------------------------------------
  // Slots and colour letters
  // ---------------------------------------------------------------------

  /** A placement: one slot per thread, empty or holding a colour letter. */
  type Slots = seq<Option<char>>

  /** Colours whose letter `chr(65 + c)` exists: Python 2's `chr` takes only
      `0 .. 255`, so colour 191 and above raise `ValueError`. */
  const ColourLimit: nat := 256 - 65

  /** `chr(65 + c)`: colour 0 is 'A', colour 1 is 'B', and so on. */
  function ColourChar(c: nat): char
    requires c < ColourLimit
  {
    (65 + c) as char
  }

  /** `sum(x is None for x in placement)`. */
  function CountFree(p: Slots): nat
  {
    if |p| == 0 then 0 else (if p[0].None? then 1 else 0) + CountFree(p[1..])
  }

  lemma {:induction false} CountFreeFill(p: Slots, k: nat, x: char)
    requires k < |p| && p[k].None?
    ensures CountFree(p[k := Some(x)]) == CountFree(p) - 1
  {
    if k > 0 {
      assert p[k := Some(x)][1..] == p[1..][k - 1 := Some(x)];
      CountFreeFill(p[1..], k - 1, x);
    }
  }

  lemma {:induction false} CountFreeZero(p: Slots)
    ensures CountFree(p) == 0 <==> forall i :: 0 <= i < |p| ==> p[i].Some?
  {
    if |p| > 0 {
      CountFreeZero(p[1..]);
      assert forall i :: 1 <= i < |p| ==> p[i] == p[1..][i - 1];
    }
  }

  // ---------------------------------------------------------------------
  // find_closest_point (colour_gradient.py:56-83)
  // ---------------------------------------------------------------------

  /** Slots the backward scan visits: `range(s, max(0, s - maxJump), -1)`. */
  predicate InLeftScan(j: int, s: int, maxJump: int)
  {
    Max(0, s - maxJump) < j <= s
  }

  /** Slots the forward scan visits: `range(s, min(n, s + maxJump))`. */
  predicate InRightScan(j: int, s: int, maxJump: int, n: int)
  {
    s <= j < Min(n, s + maxJump)
  }

  predicate Scanned(j: int, s: int, maxJump: int, n: int)
  {
    InLeftScan(j, s, maxJump) || InRightScan(j, s, maxJump, n)
  }

  /** No slot either scan visits is empty. */
  predicate NoFreeInReach(p: Slots, s: int, maxJump: int)
  {
    forall j :: 0 <= j < |p| && Scanned(j, s, maxJump, |p|) ==> p[j].Some?
  }

  /** `k` is the empty slot nearest to `s` that the scans visit, preferring
      the left one when two are equally near. */
  predicate NearestFree(p: Slots, s: int, maxJump: int, k: int)
  {
    && 0 <= k < |p| && p[k].None? && Scanned(k, s, maxJump, |p|)
    && (forall j :: 0 <= j < |p| && Scanned(j, s, maxJump, |p|) && p[j].None? ==> Abs(k - s) <= Abs(j - s))
    && (s < k ==> forall j :: 0 <= j < |p| && InLeftScan(j, s, maxJump) && p[j].None? ==> k - s < s - j)
  }

  /** `find_closest_point(suggestion, max_jump, placement)`, with the global
      jump limit a parameter. */
  method FindClosestPoint(suggestion: int, maxJump: int, p: Slots) returns (r: Option<nat>)
    requires 0 <= suggestion < |p|
    ensures r.None? <==> NoFreeInReach(p, suggestion, maxJump)
    ensures r.Some? ==> NearestFree(p, suggestion, maxJump, r.value)
    ensures r == Some(0) ==> suggestion == 0
  {
    var s := suggestion;
    var lo := Max(0, s - maxJump);
    var left: Option<nat> := None;
    var i := s;
    while lo < i
      invariant i <= s && (lo <= i || i == s)
      invariant forall j :: i < j <= s ==> p[j].Some?
      decreases i
    {
      if p[i].None? {
        left := Some(i);
        break;
      }
      i := i - 1;
    }
    var hi := Min(|p|, s + maxJump);
    var right: Option<nat> := None;
    var k := s;
    while k < hi
      invariant s <= k && (k <= hi || k == s)
      invariant forall j :: s <= j < k ==> p[j].Some?
      decreases hi - k
    {
      if p[k].None? {
        right := Some(k);
        break;
      }
      k := k + 1;
    }
    assert left.Some? ==> left.value == i && p[i].None? && lo < i;
    assert right.Some? ==> right.value == k && p[k].None? && k < hi;
    if left.None? && right.None? {
      r := None;
    } else if left.None? {
      r := right;
    } else if right.None? {
      r := left;
    } else if Abs(left.value - s) <= Abs(right.value - s) {
      r := left;
    } else {
      r := right;
    }
  }

  // ---------------------------------------------------------------------
  // fill_remaining (colour_gradient.py:86-101)
  // ---------------------------------------------------------------------

  /** Threads colours `0 .. k-1` still lack: the sum of `targets[c] - counts[c]`
      over the colours below their target. */
  function DeficitUpTo(counts: seq<int>, targets: seq<int>, k: nat): nat
    requires k <= |counts| == |targets|
  {
    if k == 0 then 0
    else DeficitUpTo(counts, targets, k - 1) + Max(0, targets[k - 1] - counts[k - 1])
  }

  function Deficit(counts: seq<int>, targets: seq<int>): nat
    requires |counts| == |targets|
  {
    DeficitUpTo(counts, targets, |counts|)
  }

  /** The letters the fallback writes, in order: colour 0's missing threads
      first, then colour 1's, and so on. */
  function FillOrderUpTo(counts: seq<int>, targets: seq<int>, k: nat): (q: string)
    requires k <= |counts| == |targets| <= ColourLimit
    ensures |q| == DeficitUpTo(counts, targets, k)
  {
    if k == 0 then []
    else FillOrderUpTo(counts, targets, k - 1) + Repeat(ColourChar(k - 1), targets[k - 1] - counts[k - 1])
  }

  function FillOrder(counts: seq<int>, targets: seq<int>): string
    requires |counts| == |targets| <= ColourLimit
  {
    FillOrderUpTo(counts, targets, |counts|)
  }

  /** Reference definition of the fallback: the empty slots, taken left to
      right, receive the letters of `q` in order until `q` runs out. */
  function FillFree(p: Slots, q: string): (r: Slots)
    ensures |r| == |p|
  {
    if |p| == 0 then []
    else if p[0].None? && |q| > 0 then [Some(q[0])] + FillFree(p[1..], q[1..])
    else [p[0]] + FillFree(p[1..], q)
  }

  /** Filling never touches an occupied slot, and uses up one empty slot per letter. */
  lemma {:induction false} FillFreeFacts(p: Slots, q: string)
    ensures forall i :: 0 <= i < |p| && p[i].Some? ==> FillFree(p, q)[i] == p[i]
    ensures CountFree(FillFree(p, q)) == Max(0, CountFree(p) - |q|)
  {
    if |p| > 0 {
      if p[0].None? && |q| > 0 {
        FillFreeFacts(p[1..], q[1..]);
      } else {
        FillFreeFacts(p[1..], q);
      }
      var r := FillFree(p, q);
      assert r[1..] == FillFree(p[1..], if p[0].None? && |q| > 0 then q[1..] else q);
      assert forall i :: 1 <= i < |p| ==> p[i] == p[1..][i - 1] && r[i] == r[1..][i - 1];
    }
  }

  /** `p[k]` is the first empty slot. */
  predicate FirstFree(p: Slots, k: int)
  {
    0 <= k < |p| && p[k].None? && forall j :: 0 <= j < k ==> p[j].Some?
  }

  /** Writing one more letter into the first slot still empty extends the fill
      by that letter. */
  lemma {:induction false} FillFreeSnoc(p: Slots, q: string, ch: char, k: nat)
    requires FirstFree(FillFree(p, q), k)
    ensures FillFree(p, q + [ch]) == FillFree(p, q)[k := Some(ch)]
    decreases |p|, 1
  {
    var r := FillFree(p, q);
    if p[0].None? && |q| > 0 {
      FillFreeSnocTaken(p, q, ch, k);
    } else if p[0].None? {
      assert r[0] == None;
      assert k == 0;
      assert q + [ch] == [ch];
      assert FillFree(p, [ch]) == [Some(ch)] + FillFree(p[1..], []);
    } else {
      FillFreeSnocKept(p, q, ch, k);
    }
  }

  /** The first slot is empty and takes the first letter of `q`. */
  lemma {:induction false} FillFreeSnocTaken(p: Slots, q: string, ch: char, k: nat)
    requires |p| > 0 && p[0].None? && |q| > 0
    requires FirstFree(FillFree(p, q), k)
    ensures FillFree(p, q + [ch]) == FillFree(p, q)[k := Some(ch)]
    decreases |p|, 0
  {
    var r := FillFree(p, q);
    var t := FillFree(p[1..], q[1..]);
    assert r == [Some(q[0])] + t;
    assert k > 0;
    assert (q + [ch])[1..] == q[1..] + [ch];
    assert FirstFree(t, k - 1) by {
      assert forall j :: 0 <= j < k - 1 ==> t[j] == r[j + 1];
    }
    FillFreeSnoc(p[1..], q[1..], ch, k - 1);
    assert FillFree(p, q + [ch]) == [Some(q[0])] + FillFree(p[1..], q[1..] + [ch]);
    assert r[k := Some(ch)] == [Some(q[0])] + t[k - 1 := Some(ch)];
  }

  /** The first slot is occupied and stays as it is. */
  lemma {:induction false} FillFreeSnocKept(p: Slots, q: string, ch: char, k: nat)
    requires |p| > 0 && p[0].Some?
    requires FirstFree(FillFree(p, q), k)
    ensures FillFree(p, q + [ch]) == FillFree(p, q)[k := Some(ch)]
    decreases |p|, 0
  {
    var r := FillFree(p, q);
    var t := FillFree(p[1..], q);
    assert r == [p[0]] + t;
    assert k > 0;
    assert FirstFree(t, k - 1) by {
      assert forall j :: 0 <= j < k - 1 ==> t[j] == r[j + 1];
    }
    FillFreeSnoc(p[1..], q, ch, k - 1);
    assert FillFree(p, q + [ch]) == [p[0]] + FillFree(p[1..], q + [ch]);
    assert r[k := Some(ch)] == [p[0]] + t[k - 1 := Some(ch)];
  }

  /** The inner `for p in range(len(placement))` scan: the first empty slot. */
  method FirstFreeSlot(p: Slots) returns (k: nat)
    requires CountFree(p) > 0
    ensures FirstFree(p, k)
  {
    CountFreeZero(p);
    k := 0;
    while p[k].Some?
      invariant k < |p|
      invariant forall j :: 0 <= j < k ==> p[j].Some?
      invariant exists j :: k <= j < |p| && p[j].None?
      decreases |p| - k
    {
      k := k + 1;
    }
  }

  lemma {:induction false} DeficitUpToMono(counts: seq<int>, targets: seq<int>, k: nat, m: nat)
    requires k <= m <= |counts| == |targets|
    ensures DeficitUpTo(counts, targets, k) <= DeficitUpTo(counts, targets, m)
    decreases m - k
  {
    if k < m {
      DeficitUpToMono(counts, targets, k, m - 1);
    }
  }

  /** The `while colour_count[c] < n_threads_per_colour[c]` loop of one colour:
      starting from `p == FillFree(p0, done)`, each missing thread of letter
      `ch` goes into the first empty slot. */
  method FillLetters(ghost p0: Slots, ghost done: string, p: Slots, ch: char, have: int, want: int)
    returns (p': Slots, have': int)
    requires p == FillFree(p0, done)
    requires |done| + Max(0, want - have) <= CountFree(p0)
    ensures have' == Max(have, want)
    ensures p' == FillFree(p0, done + Repeat(ch, want - have))
  {
    p', have' := p, have;
    ghost var m: nat := 0;
    assert done + Repeat(ch, 0) == done;
    while have' < want
      invariant have' == have + m <= Max(have, want)
      invariant p' == FillFree(p0, done + Repeat(ch, m))
      decreases want - have'
    {
      FreeSlotLeft(p0, done, ch, m);
      var k := FirstFreeSlot(p');
      FillLettersStep(p0, done, ch, m, k);
      p' := p'[k := Some(ch)];
      have' := have' + 1;
      m := m + 1;
    }
  }

  /** While fewer letters than empty slots have been written, a slot is left. */
  lemma FreeSlotLeft(p0: Slots, done: string, ch: char, m: nat)
    requires |done| + m < CountFree(p0)
    ensures CountFree(FillFree(p0, done + Repeat(ch, m))) > 0
  {
    FillFreeFacts(p0, done + Repeat(ch, m));
  }

  /** One more letter `ch` lands in the first slot still empty. */
  lemma FillLettersStep(p0: Slots, done: string, ch: char, m: nat, k: nat)
    requires FirstFree(FillFree(p0, done + Repeat(ch, m)), k)
    ensures FillFree(p0, done + Repeat(ch, m + 1)) == FillFree(p0, done + Repeat(ch, m))[k := Some(ch)]
  {
    FillFreeSnoc(p0, done + Repeat(ch, m), ch, k);
    RepeatSnoc(done, ch, m);
  }

  /** Colour `c`'s turn in the pass: once the colours before it have written
      their letters, its own missing threads take the next empty slots. */
  method FillColour(ghost p0: Slots, p: Slots, counts: seq<int>, targets: seq<int>, c: nat)
    returns (p': Slots, have': int)
    requires c < |counts| == |targets| <= ColourLimit
    requires CountFree(p0) == Deficit(counts, targets)
    requires p == FillFree(p0, FillOrderUpTo(counts, targets, c))
    ensures have' == Max(counts[c], targets[c])
    ensures p' == FillFree(p0, FillOrderUpTo(counts, targets, c + 1))
  {
    FillPassStep(counts, targets, c);
    p', have' := FillLetters(p0, FillOrderUpTo(counts, targets, c), p, ColourChar(c), counts[c], targets[c]);
  }

  /** One pass of the `for c in range(len(colour_count))` loop: each colour in
      turn writes its missing threads into the first empty slot. */
  method FillPass(p: Slots, counts: seq<int>, targets: seq<int>) returns (p': Slots, counts': seq<int>)
    requires |counts| == |targets| <= ColourLimit
    requires CountFree(p) == Deficit(counts, targets)
    ensures p' == FillFree(p, FillOrder(counts, targets))
    ensures |counts'| == |counts|
    ensures forall c :: 0 <= c < |counts| ==> counts'[c] == Max(counts[c], targets[c])
  {
    p', counts' := p, counts;
    var c := 0;
    FillFreeNoLetters(p);
    while c < |counts|
      invariant c <= |counts| && |counts'| == |counts|
      invariant p' == FillFree(p, FillOrderUpTo(counts, targets, c))
      invariant counts' == RaisedUpTo(counts, targets, c)
    {
      RaisedStep(counts, targets, c);
      var have;
      p', have := FillColour(p, p', counts, targets, c);
      counts' := counts'[c := have];
      c := c + 1;
    }
  }

  /** The counts once the first `k` colours have been raised to their targets. */
  function RaisedUpTo(counts: seq<int>, targets: seq<int>, k: nat): (r: seq<int>)
    requires k <= |counts| == |targets|
    ensures |r| == |counts|
  {
    seq(|counts|, j requires 0 <= j < |counts| => if j < k then Max(counts[j], targets[j]) else counts[j])
  }

  lemma RaisedStep(counts: seq<int>, targets: seq<int>, k: nat)
    requires k < |counts| == |targets|
    ensures RaisedUpTo(counts, targets, k)[k] == counts[k]
    ensures RaisedUpTo(counts, targets, k)[k := Max(counts[k], targets[k])] == RaisedUpTo(counts, targets, k + 1)
  {
  }

  /** Colour `c`'s missing threads still fit in the empty slots, and they are
      the next letters of the fill order. */
  lemma FillPassStep(counts: seq<int>, targets: seq<int>, c: nat)
    requires c < |counts| == |targets| <= ColourLimit
    ensures DeficitUpTo(counts, targets, c) + Max(0, targets[c] - counts[c]) <= Deficit(counts, targets)
    ensures FillOrderUpTo(counts, targets, c + 1)
      == FillOrderUpTo(counts, targets, c) + Repeat(ColourChar(c), targets[c] - counts[c])
  {
    DeficitUpToMono(counts, targets, c + 1, |counts|);
  }

  lemma RepeatSnoc<T>(pre: seq<T>, x: T, n: nat)
    ensures (pre + Repeat(x, n)) + [x] == pre + Repeat(x, n + 1)
  {
    assert Repeat(x, n) + [x] == Repeat(x, n + 1);
    ConcatAssoc(pre, Repeat(x, n), [x]);
  }

  lemma {:induction false} FillFreeNoLetters(p: Slots)
    ensures FillFree(p, []) == p
  {
    if |p| > 0 {
      FillFreeNoLetters(p[1..]);
    }
  }

  lemma {:induction false} FillFreeNoFree(p: Slots, q: string)
    requires CountFree(p) == 0
    ensures FillFree(p, q) == p
  {
    if |p| > 0 {
      FillFreeNoFree(p[1..], q);
    }
  }

  /** `fill_remaining(placement, colour_count, n_threads_per_colour)`. The
      source loops for ever unless the empty slots are none or exactly as many
      as the threads still missing; that is its precondition here. Both lists
      are updated in place there, so both come back. */
  method FillRemaining(p: Slots, counts: seq<int>, targets: seq<int>) returns (p': Slots, counts': seq<int>)
    requires |counts| == |targets| <= ColourLimit
    requires CountFree(p) == 0 || CountFree(p) == Deficit(counts, targets)
    ensures p' == FillFree(p, FillOrder(counts, targets))
    ensures CountFree(p') == 0
    ensures forall i :: 0 <= i < |p| && p[i].Some? ==> p'[i] == p[i]
    ensures |counts'| == |counts|
    ensures CountFree(p) > 0 ==> forall c :: 0 <= c < |counts| ==> counts'[c] == Max(counts[c], targets[c])
    ensures CountFree(p) == 0 ==> counts' == counts
    ensures Balanced(p, counts, targets) ==> counts' == targets
  {
    p', counts' := p, counts;
    if Balanced(p, counts, targets) && CountFree(p) == 0 {
      DeficitUpToZero(counts, targets, |counts|);
    }
    FillFreeFacts(p, FillOrder(counts, targets));
    if CountFree(p) == 0 {
      FillFreeNoFree(p, FillOrder(counts, targets));
    }
    while CountFree(p') > 0
      invariant |counts'| == |counts|
      invariant CountFree(p') > 0 ==> p' == p && counts' == counts
      invariant CountFree(p') == 0 ==> p' == FillFree(p, FillOrder(counts, targets))
      invariant CountFree(p) > 0 && CountFree(p') == 0 ==>
        forall c :: 0 <= c < |counts| ==> counts'[c] == Max(counts[c], targets[c])
      invariant CountFree(p) == 0 ==> counts' == counts
      decreases CountFree(p')
    {
      p', counts' := FillPass(p', counts', targets);
    }
  }

  // ---------------------------------------------------------------------
  // place_a_thread (colour_gradient.py:104-134)
  // ---------------------------------------------------------------------

  /** No colour is over its target and every empty slot is owed to some colour:
      the state the placement loops keep. */
  predicate Balanced(p: Slots, counts: seq<int>, targets: seq<int>)
  {
    && |counts| == |targets|
    && (forall c :: 0 <= c < |counts| ==> counts[c] <= targets[c])
    && CountFree(p) == Deficit(counts, targets)
  }

  lemma {:induction false} DeficitUpToStep(counts: seq<int>, targets: seq<int>, c: nat, k: nat)
    requires c < |counts| == |targets| && k <= |counts|
    requires counts[c] < targets[c]
    ensures DeficitUpTo(counts[c := counts[c] + 1], targets, k)
         == DeficitUpTo(counts, targets, k) - (if c < k then 1 else 0)
  {
    if k > 0 {
      DeficitUpToStep(counts, targets, c, k - 1);
      if c < k - 1 {
        DeficitUpToMono(counts, targets, c + 1, k - 1);
      }
    }
  }

  /** With nothing missing, every colour has reached its target. */
  lemma {:induction false} DeficitUpToZero(counts: seq<int>, targets: seq<int>, k: nat)
    requires k <= |counts| == |targets|
    ensures DeficitUpTo(counts, targets, k) == 0 <==> forall c :: 0 <= c < k ==> targets[c] <= counts[c]
  {
    if k > 0 {
      DeficitUpToZero(counts, targets, k - 1);
    }
  }

  /** `place_a_thread(colour, ...)`, with the normal sample drawn around the
      colour's centre passed in as `suggestion` (the source redraws until it
      lands on a slot) and the global limits `max_jump`, `max_tries` as
      parameters. */
  method PlaceAThread(colour: nat, targets: seq<int>, counts: seq<int>, suggestion: int,
                      p: Slots, nTries: int, maxJump: int, maxTries: int)
    returns (p': Slots, counts': seq<int>, nTries': int)
    requires colour < |counts| == |targets| <= ColourLimit
    requires 0 <= suggestion < |p|
    requires CountFree(p) == 0 || CountFree(p) == Deficit(counts, targets)
    ensures |p'| == |p| && |counts'| == |counts|
    ensures counts[colour] == targets[colour] ==>
      p' == p && counts' == counts && nTries' == nTries
    ensures counts[colour] != targets[colour] && p[suggestion].None? ==>
      && p' == p[suggestion := Some(ColourChar(colour))]
      && counts' == counts[colour := counts[colour] + 1] && nTries' == 0
    ensures counts[colour] != targets[colour] && p[suggestion].Some? && !NoFreeInReach(p, suggestion, maxJump) ==>
      && (exists k :: NearestFree(p, suggestion, maxJump, k) && p' == p[k := Some(ColourChar(colour))])
      && counts' == counts[colour := counts[colour] + 1] && nTries' == 0
    ensures counts[colour] != targets[colour] && p[suggestion].Some? && NoFreeInReach(p, suggestion, maxJump) ==>
      && nTries' == nTries + 1
      && (nTries' <= maxTries ==> p' == p && counts' == counts)
      && (maxTries < nTries' ==> p' == FillFree(p, FillOrder(counts, targets)) && CountFree(p') == 0)
      && (maxTries < nTries' && 0 < CountFree(p) ==>
            forall c :: 0 <= c < |counts| ==> counts'[c] == Max(counts[c], targets[c]))
    ensures Balanced(p, counts, targets) ==> Balanced(p', counts', targets)
  {
    p', counts', nTries' := p, counts, nTries;
    var ch := ColourChar(colour);
    if counts[colour] == targets[colour] {
      return;
    }
    var at := suggestion;
    if p[suggestion].Some? {
      var closest := FindClosestPoint(suggestion, maxJump, p);
      if closest.None? {
        nTries' := nTries + 1;
        if nTries' > maxTries {
          p', counts' := FillRemaining(p, counts, targets);
          if Balanced(p, counts, targets) {
            DeficitUpToZero(counts, targets, |counts|);
            DeficitUpToZero(counts', targets, |counts|);
          }
        }
        return;
      }
      at := closest.value;
    }
    p' := p[at := Some(ch)];
    counts' := counts[colour := counts[colour] + 1];
    nTries' := 0;
    if Balanced(p, counts, targets) {
      CountFreeFill(p, at, ch);
      DeficitUpToStep(counts, targets, colour, |counts|);
    }
  }
}
