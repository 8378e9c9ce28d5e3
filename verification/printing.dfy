/** The two print-string builders: `print_string_tens` (colour_gradient.py),
    a plain-text listing of a placement, and `latex_print_string`
    (util/printing.py), a LaTeX page of coloured boxes. Both number the
    entries from 1 and follow every 30th with a line break and every other
    10th with a bar. */
module Printing {
  import opened Py
  import opened Text
  import Gradient

  // ---------------------------------------------------------------------
  // The shared 30/10 marking rule
  // ---------------------------------------------------------------------

  datatype Mark = LineEnd | Bar | NoMark

  /** The mark after the `k`-th entry: the `count % 30` test comes first and
      skips the `count % 10` one. */
  function MarkAfter(k: int): Mark
  {
    if k % 30 == 0 then LineEnd else if k % 10 == 0 then Bar else NoMark
  }

  /** Line ends among the marks after entries `1 .. n`. */
  function LineEnds(n: nat): nat
  {
    if n == 0 then 0 else LineEnds(n - 1) + (if MarkAfter(n) == LineEnd then 1 else 0)
  }

  /** Bars among the marks after entries `1 .. n`. */
  function Bars(n: nat): nat
  {
    if n == 0 then 0 else Bars(n - 1) + (if MarkAfter(n) == Bar then 1 else 0)
  }

  /** One line end per full 30 entries; a bar for every other full 10. */
  lemma {:induction false} MarkTally(n: nat)
    ensures LineEnds(n) == n / 30
    ensures Bars(n) == n / 10 - n / 30
  {
    if n > 0 {
      MarkTally(n - 1);
      DivStep(n, 30);
      DivStep(n, 10);
      if n % 30 == 0 {
        ThirtyIsTen(n);
      }
    }
  }

  /** Which mark follows entry `k`, in terms of the loop's two tests. */
  lemma MarkCases(k: int)
    ensures MarkAfter(k) == LineEnd <==> k % 30 == 0
    ensures MarkAfter(k) == Bar <==> k % 30 != 0 && k % 10 == 0
    ensures MarkAfter(k) == NoMark <==> k % 10 != 0
  {
    if k % 30 == 0 {
      ThirtyIsTen(k);
    }
  }

  lemma ThirtyIsTen(n: int)
    requires n % 30 == 0
    ensures n % 10 == 0
  {
    DivMod(n, 30);
    ModUnique(n, 10, 3 * (n / 30), 0);
  }

  /** The marks repeat every 30 entries. */
  lemma MarkShift(m: nat, n: nat)
    requires m % 30 == 0
    ensures MarkAfter(m + n) == MarkAfter(n)
  {
    var j := m / 30;
    DivMod(m, 30);
    DivMod(n, 30);
    DivMod(n, 10);
    ModUnique(m + n, 30, j + n / 30, n % 30);
    ModUnique(m + n, 10, 3 * j + n / 10, n % 10);
  }

  // ---------------------------------------------------------------------
  // print_string_tens (colour_gradient.py:180-192)
  // ---------------------------------------------------------------------

  /** Python `str()` of a slot: the letter, or "None" for an empty slot. */
  function SlotString(x: Option<char>): string
  {
    match x
    case None => "None"
    case Some(c) => [c]
  }

  function TensMark(k: int): string
  {
    match MarkAfter(k)
    case LineEnd => "\n"
    case Bar => "|   "
    case NoMark => ""
  }

  /** The `k`-th entry as printed: the slot, three spaces, then its mark. */
  function Cell(k: int, x: Option<char>): string
  {
    SlotString(x) + "   " + TensMark(k)
  }

  /** Reference layout: the cells of `p` in order, numbered from 1. */
  function Tens(p: Gradient.Slots): string
  {
    if |p| == 0 then "" else Tens(p[..|p| - 1]) + Cell(|p|, p[|p| - 1])
  }

  /** `print_string_tens(placement)`: pops entries from a copy of the list, so
      the caller's placement is left as it was. */
  method TensString(p: Gradient.Slots) returns (r: string)
    ensures r == Tens(p)
  {
    var rest := p;
    r := "";
    var count := 0;
    while |rest| > 0
      invariant count + |rest| == |p| && rest == p[count..]
      invariant r == Tens(p[..count])
      decreases |rest|
    {
      var x := rest[0];
      TensStep(p, count, r);
      rest := rest[1..];
      r := r + SlotString(x) + "   ";
      count := count + 1;
      MarkCases(count);
      if count % 30 == 0 {
        r := r + "\n";
        continue;
      }
      if count % 10 == 0 {
        r := r + "|   ";
      } else {
        assert r + TensMark(count) == r;
      }
    }
    assert p[..count] == p;
  }

  /** One pass of the loop appends the next cell. */
  lemma TensStep(p: Gradient.Slots, k: nat, r: string)
    requires k < |p| && r == Tens(p[..k])
    ensures Tens(p[..k + 1]) == r + SlotString(p[k]) + "   " + TensMark(k + 1)
  {
    var s := p[..k + 1];
    assert s[..|s| - 1] == p[..k] && s[|s| - 1] == p[k];
    ConcatAssoc(r, SlotString(p[k]) + "   ", TensMark(k + 1));
  }

  lemma CellShift(m: nat, n: nat, x: Option<char>)
    requires m % 30 == 0
    ensures Cell(m + n, x) == Cell(n, x)
  {
    MarkShift(m, n);
  }

  /** The layout repeats every 30 entries: a placement whose first part fills
      whole lines prints as the two parts printed separately. */
  lemma {:induction false} TensAppend(p: Gradient.Slots, q: Gradient.Slots)
    requires |p| % 30 == 0
    ensures Tens(p + q) == Tens(p) + Tens(q)
  {
    if |q| == 0 {
      assert p + q == p;
      assert Tens(p) + [] == Tens(p);
    } else {
      var n := |q|;
      var init := q[..n - 1];
      TensAppendStep(p, q);
      TensAppend(p, init);
      ConcatAssoc(Tens(p), Tens(init), Cell(n, q[n - 1]));
    }
  }

  lemma TensAppendStep(p: Gradient.Slots, q: Gradient.Slots)
    requires |p| % 30 == 0 && |q| > 0
    ensures Tens(p + q) == Tens(p + q[..|q| - 1]) + Cell(|q|, q[|q| - 1])
  {
    var s := p + q;
    assert s[..|s| - 1] == p + q[..|q| - 1] && s[|s| - 1] == q[|q| - 1];
    CellShift(|p|, |q|, q[|q| - 1]);
  }

  /** Entries that are neither a line break nor a bar. */
  predicate Plain(p: Gradient.Slots)
  {
    forall i :: 0 <= i < |p| ==> p[i] != Some('\n') && p[i] != Some('|')
  }

  lemma PlainSplit(p: Gradient.Slots)
    requires Plain(p) && |p| > 0
    ensures Plain(p[..|p| - 1])
    ensures p[|p| - 1] != Some('\n') && p[|p| - 1] != Some('|')
  {
    assert forall i :: 0 <= i < |p| - 1 ==> p[..|p| - 1][i] == p[i];
  }

  lemma SlotCellPlain(x: Option<char>)
    requires x != Some('\n') && x != Some('|')
    ensures '\n' !in SlotString(x) + "   " && '|' !in SlotString(x) + "   "
  {
  }

  lemma TensMarkCounts(k: int)
    ensures multiset(TensMark(k))['\n'] == if MarkAfter(k) == LineEnd then 1 else 0
    ensures multiset(TensMark(k))['|'] == if MarkAfter(k) == Bar then 1 else 0
  {
    match MarkAfter(k)
    case LineEnd =>
      assert TensMark(k) == "\n";
    case Bar =>
      assert TensMark(k) == "|   ";
    case NoMark =>
      assert TensMark(k) == "";
  }

  lemma CellCounts(k: int, x: Option<char>)
    requires x != Some('\n') && x != Some('|')
    ensures multiset(Cell(k, x))['\n'] == if MarkAfter(k) == LineEnd then 1 else 0
    ensures multiset(Cell(k, x))['|'] == if MarkAfter(k) == Bar then 1 else 0
  {
    SlotCellPlain(x);
    TensMarkCounts(k);
    CountAppend(SlotString(x) + "   ", TensMark(k), '\n');
    CountAppend(SlotString(x) + "   ", TensMark(k), '|');
  }

  lemma {:induction false} TensMarkTally(p: Gradient.Slots)
    requires Plain(p)
    ensures multiset(Tens(p))['\n'] == LineEnds(|p|)
    ensures multiset(Tens(p))['|'] == Bars(|p|)
  {
    if |p| > 0 {
      var init := p[..|p| - 1];
      PlainSplit(p);
      TensMarkTally(init);
      TensTallySnoc(p);
    }
  }

  /** The last entry adds its own mark, if any, to the counts, so a tally that
      holds without it still holds with it. */
  lemma TensTallySnoc(p: Gradient.Slots)
    requires |p| > 0 && p[|p| - 1] != Some('\n') && p[|p| - 1] != Some('|')
    requires multiset(Tens(p[..|p| - 1]))['\n'] == LineEnds(|p| - 1)
    requires multiset(Tens(p[..|p| - 1]))['|'] == Bars(|p| - 1)
    ensures multiset(Tens(p))['\n'] == LineEnds(|p|)
    ensures multiset(Tens(p))['|'] == Bars(|p|)
  {
    var pre, x := Tens(p[..|p| - 1]), p[|p| - 1];
    assert Tens(p) == pre + Cell(|p|, x);
    TensCountsStep(pre, x, |p|);
  }

  lemma TensCountsStep(pre: string, x: Option<char>, k: int)
    requires x != Some('\n') && x != Some('|')
    ensures multiset(pre + Cell(k, x))['\n'] == multiset(pre)['\n'] + (if MarkAfter(k) == LineEnd then 1 else 0)
    ensures multiset(pre + Cell(k, x))['|'] == multiset(pre)['|'] + (if MarkAfter(k) == Bar then 1 else 0)
  {
    CellCounts(k, x);
    CountAppend(pre, Cell(k, x), '\n');
    CountAppend(pre, Cell(k, x), '|');
  }

  /** One line break per full 30 entries, and one bar per other full 10. */
  lemma TensMarks(p: Gradient.Slots)
    requires Plain(p)
    ensures multiset(Tens(p))['\n'] == |p| / 30
    ensures multiset(Tens(p))['|'] == |p| / 10 - |p| / 30
  {
    TensMarkTally(p);
    MarkTally(|p|);
  }

  // ---------------------------------------------------------------------
  // latex_print_string (util/printing.py:4-44)
  // ---------------------------------------------------------------------

  /** `COLOURS` of util/plotting.py: one RGB triple per colour letter. */
  const Colours: seq<(int, int, int)> := [
    (65, 60, 90),
    (180, 140, 175),
    (225, 190, 200),
    (250, 250, 225),
    (250, 245, 155)
  ]

  /** A thread `ord` accepts whose `ord(t) - 65` indexes `COLOURS`: one
      character from 'A' to 'E', or one of the five just below 'A', which
      index from the end. */
  predicate HasColour(t: string)
  {
    |t| == 1 && '<' <= t[0] <= 'E'
  }

  /** `COLOURS[ord(t) - 65]`: `ord` raises TypeError unless `t` is one
      character, and the index wraps for the five characters just below 'A'. */
  function ThreadColour(t: string): (r: Result<(int, int, int)>)
    ensures r.Ok? <==> HasColour(t)
    ensures |t| != 1 ==> r == Err(TypeError)
    ensures |t| == 1 && 'A' <= t[0] <= 'E' ==> r == Ok(Colours[t[0] as int - 'A' as int])
    ensures |t| == 1 && '<' <= t[0] < 'A' ==> r == Ok(Colours[t[0] as int - '<' as int])
    ensures |t| == 1 && !('<' <= t[0] <= 'E') ==> r == Err(IndexError)
  {
    if |t| != 1 then Err(TypeError) else Get(Colours, t[0] as int - 65)
  }

  /** `\colorbox[RGB]{r,g,b}{t}`. */
  function ColourBox(rgb: (int, int, int), t: string): string
  {
    @"\colorbox[RGB]{" + Join(",", [IntToString(rgb.0), IntToString(rgb.1), IntToString(rgb.2)]) + "}{" + t + "}"
  }

  /** The entries appended after the `k`-th box. */
  function LatexMark(k: int): seq<string>
  {
    match MarkAfter(k)
    case LineEnd => [@"\newline"]
    case Bar => ["|"]
    case NoMark => []
  }

  /** How a thread's box is drawn from its colour and its letter. */
  type Draw = ((int, int, int), string) -> string

  /** Reference list of body lines, for any way of drawing a box: each
      thread's box followed by its mark, or the error the first thread
      without a colour raises. */
  function Layout(ts: seq<string>, draw: Draw): Result<seq<string>>
  {
    if |ts| == 0 then Ok([])
    else
      match Layout(ts[..|ts| - 1], draw)
      case Err(e) => Err(e)
      case Ok(init) =>
        match ThreadColour(ts[|ts| - 1])
        case Err(e) => Err(e)
        case Ok(rgb) => Ok(init + [draw(rgb, ts[|ts| - 1])] + LatexMark(|ts|))
  }

  /** The body lines `latex_print_string` writes between header and footer. */
  function LatexEntries(ts: seq<string>): Result<seq<string>>
  {
    Layout(ts, ColourBox)
  }

  /** `threads[k]` is the first thread `ThreadColour` rejects. */
  predicate FirstBad(ts: seq<string>, k: int)
  {
    0 <= k < |ts| && !HasColour(ts[k]) && forall i :: 0 <= i < k ==> HasColour(ts[i])
  }

  /** The body succeeds exactly when every thread has a colour; otherwise it
      raises what the first bad thread raises. */
  lemma {:induction false} LayoutResult(ts: seq<string>, draw: Draw)
    ensures Layout(ts, draw).Ok? <==> forall i :: 0 <= i < |ts| ==> HasColour(ts[i])
    ensures Layout(ts, draw).Err? ==>
      exists k :: FirstBad(ts, k) && Layout(ts, draw).error == ThreadColour(ts[k]).error
  {
    if |ts| > 0 {
      var init, t := ts[..|ts| - 1], ts[|ts| - 1];
      LayoutResult(init, draw);
      assert forall i :: 0 <= i < |init| ==> init[i] == ts[i];
      if Layout(init, draw).Err? {
        var k :| FirstBad(init, k) && Layout(init, draw).error == ThreadColour(init[k]).error;
        assert FirstBad(ts, k);
      } else if !HasColour(t) {
        assert FirstBad(ts, |ts| - 1);
      }
    }
  }

  /** One pass of the loop appends the next thread's box, then a `\newline`
      after every 30th thread, or else a bar after every 10th. */
  lemma LayoutStep(threads: seq<string>, k: nat, strings: seq<string>, draw: Draw, box: string)
    requires k < |threads| && Layout(threads[..k], draw) == Ok(strings)
    requires ThreadColour(threads[k]).Ok? && box == draw(ThreadColour(threads[k]).value, threads[k])
    ensures (k + 1) % 30 == 0 ==> Layout(threads[..k + 1], draw) == Ok(strings + [box] + [@"\newline"])
    ensures (k + 1) % 30 != 0 && (k + 1) % 10 == 0 ==> Layout(threads[..k + 1], draw) == Ok(strings + [box] + ["|"])
    ensures (k + 1) % 10 != 0 ==> Layout(threads[..k + 1], draw) == Ok(strings + [box])
  {
    var s := threads[..k + 1];
    assert s[..|s| - 1] == threads[..k] && s[|s| - 1] == threads[k];
    assert Layout(s, draw) == Ok(strings + [box] + LatexMark(k + 1));
    MarkCases(k + 1);
    if (k + 1) % 10 != 0 {
      assert strings + [box] + LatexMark(k + 1) == strings + [box];
    }
  }

  /** `latex_print_string(threads)`, with the fixed preamble of
      `latex_header()` and the closing lines of `latex_footer()` passed in as
      `header` and `footer`. The source pops from the caller's list without
      copying it, so `rest` is what that list holds afterwards: empty on
      success, and the threads after the offending one on an error. */
  method LatexPrintString(header: string, footer: string, threads: seq<string>)
    returns (r: Result<string>, rest: seq<string>)
    ensures r.Ok? <==> forall i :: 0 <= i < |threads| ==> HasColour(threads[i])
    ensures r.Ok? ==> rest == [] && LatexEntries(threads).Ok?
    ensures r.Ok? ==> r.value == header + "\n" + Join("\n", LatexEntries(threads).value) + "\n" + footer
    ensures r.Err? ==>
      exists k :: FirstBad(threads, k) && r.error == ThreadColour(threads[k]).error && rest == threads[k + 1..]
  {
    var ts := threads;
    var strings: seq<string> := [];
    var count := 0;
    while |ts| > 0
      invariant count + |ts| == |threads| && ts == threads[count..]
      invariant LatexEntries(threads[..count]) == Ok(strings)
      decreases |ts|
    {
      var t := ts[0];
      ts := ts[1..];
      var colour := ThreadColour(t);
      if colour.Err? {
        FirstBadAt(threads, count);
        return Err(colour.error), ts;
      }
      var box := ColourBox(colour.value, t);
      LayoutStep(threads, count, strings, ColourBox, box);
      strings := strings + [box];
      count := count + 1;
      if count % 30 == 0 {
        strings := strings + [@"\newline"];
        continue;
      }
      if count % 10 == 0 {
        strings := strings + ["|"];
      }
    }
    assert threads[..count] == threads;
    LayoutResult(threads, ColourBox);
    var main := Join("\n", strings);
    rest := ts;
    r := Ok(Join("\n", [header, main, footer]));
    JoinThree("\n", header, main, footer);
  }

  /** A thread without a colour after a run of threads with one is the first bad thread. */
  lemma FirstBadAt(threads: seq<string>, k: nat)
    requires k < |threads| && LatexEntries(threads[..k]).Ok? && !HasColour(threads[k])
    ensures FirstBad(threads, k)
  {
    LayoutResult(threads[..k], ColourBox);
    assert forall i :: 0 <= i < k ==> threads[..k][i] == threads[i];
  }

  /** A body line that is a mark rather than a box. */
  predicate IsMark(e: string)
  {
    e == @"\newline" || e == "|"
  }

  /** The body lines with the marks dropped. */
  function Boxes(es: seq<string>): seq<string>
  {
    if |es| == 0 then []
    else Boxes(es[..|es| - 1]) + (if IsMark(es[|es| - 1]) then [] else [es[|es| - 1]])
  }

  lemma {:induction false} BoxesAppend(a: seq<string>, b: seq<string>)
    ensures Boxes(a + b) == Boxes(a) + Boxes(b)
  {
    if |b| == 0 {
      assert a + b == a;
    } else {
      var init, e := b[..|b| - 1], b[|b| - 1];
      var A, B, C := Boxes(a), Boxes(init), if IsMark(e) then [] else [e];
      assert Boxes(a + b) == Boxes(a + init) + C by {
        assert (a + b)[..|a + b| - 1] == a + init;
      }
      BoxesAppend(a, init);
      assert (A + B) + C == A + (B + C) by {
        ConcatAssoc(A, B, C);
      }
    }
  }

  /** A box is never mistaken for a mark: it is longer than both. */
  lemma BoxNotMark(rgb: (int, int, int), t: string)
    ensures !IsMark(ColourBox(rgb, t))
  {
    var prefix: string := @"\colorbox[RGB]{";
    assert |prefix| == 15;
    assert |@"\newline"| == 8;
  }

  lemma BoxesSnocStep(pre: seq<string>, box: string, k: int)
    requires !IsMark(box)
    ensures Boxes(pre + [box] + LatexMark(k)) == Boxes(pre) + [box]
  {
    BoxesAppend(pre + [box], LatexMark(k));
    assert Boxes(pre + [box]) == Boxes(pre) + [box] by {
      assert (pre + [box])[..|pre|] == pre;
    }
    match MarkAfter(k)
    case LineEnd =>
      assert LatexMark(k)[..0] == [];
    case Bar =>
      assert LatexMark(k)[..0] == [];
    case NoMark =>
    assert Boxes(pre) + [box] + [] == Boxes(pre) + [box];
  }

  /** A way of drawing boxes that never yields a mark. */
  ghost predicate DrawsBoxes(draw: Draw)
  {
    forall rgb, t :: !IsMark(draw(rgb, t))
  }

  /** The body holds exactly one box per thread, in input order, each in the
      thread's colour. */
  lemma LatexBoxes(ts: seq<string>)
    requires LatexEntries(ts).Ok?
    ensures |Boxes(LatexEntries(ts).value)| == |ts|
    ensures forall i :: 0 <= i < |ts| ==>
      ThreadColour(ts[i]).Ok? && Boxes(LatexEntries(ts).value)[i] == ColourBox(ThreadColour(ts[i]).value, ts[i])
  {
    forall rgb, t
      ensures !IsMark(ColourBox(rgb, t))
    {
      BoxNotMark(rgb, t);
    }
    LayoutBoxes(ts, ColourBox);
  }

  lemma {:induction false} LayoutBoxes(ts: seq<string>, draw: Draw)
    requires DrawsBoxes(draw) && Layout(ts, draw).Ok?
    ensures |Boxes(Layout(ts, draw).value)| == |ts|
    ensures forall i :: 0 <= i < |ts| ==>
      ThreadColour(ts[i]).Ok? && Boxes(Layout(ts, draw).value)[i] == draw(ThreadColour(ts[i]).value, ts[i])
  {
    if |ts| > 0 {
      var n := |ts|;
      var init := ts[..n - 1];
      LayoutBoxesStep(ts, draw);
      LayoutBoxes(init, draw);
      var before := Boxes(Layout(init, draw).value);
      var after := Boxes(Layout(ts, draw).value);
      forall i | 0 <= i < n
        ensures ThreadColour(ts[i]).Ok? && after[i] == draw(ThreadColour(ts[i]).value, ts[i])
      {
        if i < n - 1 {
          assert ts[i] == init[i];
          assert after[i] == before[i];
        }
      }
    }
  }

  /** The last thread adds its own box, and only that, to the boxes. */
  lemma LayoutBoxesStep(ts: seq<string>, draw: Draw)
    requires |ts| > 0 && DrawsBoxes(draw) && Layout(ts, draw).Ok?
    ensures Layout(ts[..|ts| - 1], draw).Ok? && ThreadColour(ts[|ts| - 1]).Ok?
    ensures Boxes(Layout(ts, draw).value)
         == Boxes(Layout(ts[..|ts| - 1], draw).value) + [draw(ThreadColour(ts[|ts| - 1]).value, ts[|ts| - 1])]
  {
    var t := ts[|ts| - 1];
    var pre := Layout(ts[..|ts| - 1], draw).value;
    var box := draw(ThreadColour(t).value, t);
    assert Layout(ts, draw).value == pre + [box] + LatexMark(|ts|);
    BoxesSnocStep(pre, box, |ts|);
  }

  /** One `\newline` per full 30 threads and one bar per other full 10. */
  lemma {:induction false} LayoutMarkTally(ts: seq<string>, draw: Draw)
    requires DrawsBoxes(draw) && Layout(ts, draw).Ok?
    ensures multiset(Layout(ts, draw).value)[@"\newline"] == LineEnds(|ts|)
    ensures multiset(Layout(ts, draw).value)["|"] == Bars(|ts|)
  {
    if |ts| > 0 {
      var n := |ts|;
      LayoutCountsSnoc(ts, draw);
      LayoutMarkTally(ts[..n - 1], draw);
      assert LineEnds(n) == LineEnds(n - 1) + (if MarkAfter(n) == LineEnd then 1 else 0);
      assert Bars(n) == Bars(n - 1) + (if MarkAfter(n) == Bar then 1 else 0);
    }
  }

  /** The last thread adds its own mark, if any, to the counts. */
  lemma LayoutCountsSnoc(ts: seq<string>, draw: Draw)
    requires |ts| > 0 && DrawsBoxes(draw) && Layout(ts, draw).Ok?
    ensures Layout(ts[..|ts| - 1], draw).Ok?
    ensures multiset(Layout(ts, draw).value)[@"\newline"]
         == multiset(Layout(ts[..|ts| - 1], draw).value)[@"\newline"] + (if MarkAfter(|ts|) == LineEnd then 1 else 0)
    ensures multiset(Layout(ts, draw).value)["|"]
         == multiset(Layout(ts[..|ts| - 1], draw).value)["|"] + (if MarkAfter(|ts|) == Bar then 1 else 0)
  {
    var t := ts[|ts| - 1];
    var pre := Layout(ts[..|ts| - 1], draw).value;
    var box := draw(ThreadColour(t).value, t);
    assert Layout(ts, draw).value == pre + [box] + LatexMark(|ts|);
    MarkCountsStep(pre, box, |ts|);
  }

  /** Appending a box and the `k`-th mark adds one to the count of that mark. */
  lemma MarkCountsStep(pre: seq<string>, box: string, k: int)
    requires !IsMark(box)
    ensures multiset(pre + [box] + LatexMark(k))[@"\newline"]
         == multiset(pre)[@"\newline"] + (if MarkAfter(k) == LineEnd then 1 else 0)
    ensures multiset(pre + [box] + LatexMark(k))["|"]
         == multiset(pre)["|"] + (if MarkAfter(k) == Bar then 1 else 0)
  {
    CountAppend(pre + [box], LatexMark(k), @"\newline");
    CountAppend(pre + [box], LatexMark(k), "|");
    CountAppend(pre, [box], @"\newline");
    CountAppend(pre, [box], "|");
    match MarkAfter(k)
    case LineEnd =>
      assert LatexMark(k) == [@"\newline"];
    case Bar =>
      assert LatexMark(k) == ["|"];
    case NoMark =>
      assert LatexMark(k) == [];
  }

  /** One `\newline` per full 30 threads and one bar per other full 10. */
  lemma LatexMarks(ts: seq<string>)
    requires LatexEntries(ts).Ok?
    ensures multiset(LatexEntries(ts).value)[@"\newline"] == |ts| / 30
    ensures multiset(LatexEntries(ts).value)["|"] == |ts| / 10 - |ts| / 30
  {
    forall rgb, t
      ensures !IsMark(ColourBox(rgb, t))
    {
      BoxNotMark(rgb, t);
    }
    LayoutMarkTally(ts, ColourBox);
    MarkTally(|ts|);
  }
}
