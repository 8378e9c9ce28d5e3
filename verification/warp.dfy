/** The warp script: it reads the comma-separated placement line, warns when the
    threads do not fall into whole language pairs, and cuts the thread list
    into braids. */
module Warp {
  import opened Py
  import opened Text

  /** Number of braids the warp is cut into. */
  const Braids: nat := 4
  /** Threads per language pair. */
  const PerLangPair: nat := 5

  /** `read_threads`, given the lines of standard input: the first line split
      on commas, each piece stripped. No line at all raises `IndexError`. */
  function ReadThreads(lines: seq<string>): (r: Result<seq<string>>)
    ensures r.Err? <==> |lines| == 0
    ensures r.Err? ==> r.error == IndexError
    ensures r.Ok? ==> |r.value| == |Split(lines[0], ',')|
    ensures r.Ok? ==> forall i :: 0 <= i < |r.value| ==> r.value[i] == Strip(Split(lines[0], ',')[i])
  {
    if |lines| == 0 then Err(IndexError)
    else
      var pieces := Split(lines[0], ',');
      Ok(seq(|pieces|, i requires 0 <= i < |pieces| => Strip(pieces[i])))
  }

  /** Each colour of a placement written as a one-character string, as
      `str(x)` does for the placement's letters. */
  function Singles(cs: seq<char>): (r: seq<string>)
    ensures |r| == |cs|
    ensures forall i :: 0 <= i < |cs| ==> r[i] == [cs[i]]
  {
    seq(|cs|, i requires 0 <= i < |cs| => [cs[i]])
  }

  /** The line the gradient script prints for a placement. */
  function PlacementLine(cs: seq<char>): string
  {
    Join(",", Singles(cs))
  }

  /** Appending to the last piece appends to the joined string. */
  lemma {:induction false} JoinExtendLast(sep: string, parts: seq<string>, w: string)
    requires |parts| >= 1
    ensures Join(sep, parts[..|parts| - 1] + [parts[|parts| - 1] + w]) == Join(sep, parts) + w
  {
    var n := |parts|;
    var ext := parts[..n - 1] + [parts[n - 1] + w];
    if n == 1 {
      assert ext == [parts[0] + w];
    } else {
      assert ext[0] == parts[0];
      assert ext[1..] == parts[1..][..n - 2] + [parts[1..][n - 2] + w];
      JoinExtendLast(sep, parts[1..], w);
      ConcatAssoc(parts[0] + sep, Join(sep, parts[1..]), w);
    }
  }

  /** The pieces of a joined line whose last piece picked up trailing text `w`. */
  function ExtendLast(parts: seq<string>, w: string): (ext: seq<string>)
    requires |parts| >= 1
    ensures |ext| == |parts|
  {
    parts[..|parts| - 1] + [parts[|parts| - 1] + w]
  }

  lemma SplitJoinedLine(parts: seq<string>, w: string)
    requires |parts| >= 1
    requires forall i :: 0 <= i < |parts| ==> ',' !in parts[i]
    requires ',' !in w
    ensures Split(Join(",", parts) + w, ',') == ExtendLast(parts, w)
  {
    var n := |parts|;
    var ext := ExtendLast(parts, w);
    forall i | 0 <= i < n
      ensures ',' !in ext[i]
    {
      if i == n - 1 {
        assert ext[i] == parts[n - 1] + w;
      } else {
        assert ext[i] == parts[i];
      }
    }
    JoinExtendLast(",", parts, w);
    SplitJoin(ext, ',');
  }

  lemma StripPieces(parts: seq<string>, w: string, i: nat)
    requires i < |parts|
    requires Trimmed(parts[i])
    requires forall k :: 0 <= k < |w| ==> IsSpace(w[k])
    ensures Strip(ExtendLast(parts, w)[i]) == parts[i]
  {
    var n := |parts|;
    if i == n - 1 {
      assert ExtendLast(parts, w)[i] == parts[i] + w;
      StripTrailingSpace(parts[i], w);
    } else {
      assert ExtendLast(parts, w)[i] == parts[i];
      StripTrailingSpace(parts[i], "");
      assert parts[i] + "" == parts[i];
    }
  }

  /** Reading back a line made of trimmed, comma-free pieces, followed by
      trailing whitespace such as the newline, gives back the pieces. */
  lemma ReadJoined(parts: seq<string>, w: string, more: seq<string>)
    requires |parts| >= 1
    requires forall i :: 0 <= i < |parts| ==> ',' !in parts[i] && Trimmed(parts[i])
    requires forall i :: 0 <= i < |w| ==> IsSpace(w[i])
    ensures ReadThreads([Join(",", parts) + w] + more) == Ok(parts)
  {
    assert ',' !in w by {
      assert !IsSpace(',');
    }
    var line := Join(",", parts) + w;
    SplitJoinedLine(parts, w);
    forall i | 0 <= i < |parts|
      ensures Strip(ExtendLast(parts, w)[i]) == parts[i]
    {
      StripPieces(parts, w, i);
    }
    assert ([line] + more)[0] == line;
    ReadStrippedPieces([line] + more, parts);
  }

  /** `read_threads` gives `parts` whenever the stripped pieces of the first
      line are exactly `parts`. */
  lemma ReadStrippedPieces(lines: seq<string>, parts: seq<string>)
    requires |lines| > 0 && |Split(lines[0], ',')| == |parts|
    requires forall i :: 0 <= i < |parts| ==> Strip(Split(lines[0], ',')[i]) == parts[i]
    ensures ReadThreads(lines) == Ok(parts)
  {
    var r := ReadThreads(lines);
    assert r.value == parts;
  }

  /** `read_threads` inverts the `",".join` of a placement whose colour letters
      are neither commas nor whitespace, whatever trailing whitespace ends
      the line. */
  lemma ReadPlacement(cs: seq<char>, w: string, more: seq<string>)
    requires |cs| >= 1
    requires forall i :: 0 <= i < |cs| ==> cs[i] != ',' && !IsSpace(cs[i])
    requires forall i :: 0 <= i < |w| ==> IsSpace(w[i])
    ensures ReadThreads([PlacementLine(cs) + w] + more) == Ok(Singles(cs))
  {
    var parts := Singles(cs);
    assert forall i :: 0 <= i < |parts| ==> ',' !in parts[i] && Trimmed(parts[i]) by {
      forall i | 0 <= i < |parts|
        ensures ',' !in parts[i] && Trimmed(parts[i])
      {
        assert parts[i] == [cs[i]];
      }
    }
    ReadJoined(parts, w, more);
  }

  /** An empty placement prints an empty line, which reads back as one empty
      thread rather than none. */
  lemma ReadEmptyPlacement(w: string)
    requires forall i :: 0 <= i < |w| ==> IsSpace(w[i])
    ensures ReadThreads([PlacementLine([]) + w]) == Ok([""])
  {
    assert ',' !in w by {
      assert !IsSpace(',');
    }
    assert Singles([]) == [];
    assert PlacementLine([]) + w == w;
    SplitPrefix(w, "", ',');
    assert w + "" == w;
    assert Split(w, ',') == [w];
    StripTrailingSpace("", w);
    assert "" + w == w;
    assert ReadThreads([w]).value == [Strip(w)];
  }

  /** The threads a list of braid sizes takes: `range(c)` is empty for `c <= 0`. */
  function Taken(counts: seq<int>): (t: nat)
  {
    if |counts| == 0 then 0 else Taken(counts[..|counts| - 1]) + Max(0, counts[|counts| - 1])
  }

  /** Taking a prefix of the sizes takes no more threads. */
  lemma {:induction false} TakenPrefix(counts: seq<int>, i: nat)
    requires i <= |counts|
    ensures Taken(counts[..i]) <= Taken(counts)
    decreases |counts|
  {
    if i < |counts| {
      var init := counts[..|counts| - 1];
      assert counts[..i] == init[..i];
      TakenPrefix(init, i);
    } else {
      assert counts[..i] == counts;
    }
  }

  /** The braids laid end to end. */
  function Concat(braids: seq<seq<string>>): seq<string>
  {
    if |braids| == 0 then [] else Concat(braids[..|braids| - 1]) + braids[|braids| - 1]
  }

  lemma ConcatSnoc(braids: seq<seq<string>>, b: seq<string>)
    ensures Concat(braids + [b]) == Concat(braids) + b
  {
    assert (braids + [b])[..|braids|] == braids;
  }

  lemma TakenSnoc(counts: seq<int>, i: nat)
    requires i < |counts|
    ensures Taken(counts[..i + 1]) == Taken(counts[..i]) + Max(0, counts[i])
  {
    assert counts[..i + 1][..i] == counts[..i];
  }

  /** `get_braids` with the braid sizes as a parameter: for each size, pop that
      many threads off the front of the list. Popping from an empty list raises
      `IndexError` and leaves the list empty; otherwise the braids have the
      requested sizes and, laid end to end and followed by the threads left
      over, give back the input in order. */
  method GetBraids(threadsIn: seq<string>, counts: seq<int>)
    returns (r: Result<seq<seq<string>>>, remaining: seq<string>)
    ensures r.Ok? <==> Taken(counts) <= |threadsIn|
    ensures r.Err? ==> r.error == IndexError && remaining == []
    ensures r.Ok? ==> |r.value| == |counts|
    ensures r.Ok? ==> forall i :: 0 <= i < |counts| ==> |r.value[i]| == Max(0, counts[i])
    ensures r.Ok? ==> Concat(r.value) + remaining == threadsIn
    ensures r.Ok? ==> |remaining| == |threadsIn| - Taken(counts)
  {
    var threads := threadsIn;
    var braids: seq<seq<string>> := [];
    var i := 0;
    while i < |counts|
      invariant 0 <= i <= |counts|
      invariant |braids| == i
      invariant forall k :: 0 <= k < i ==> |braids[k]| == Max(0, counts[k])
      invariant Concat(braids) + threads == threadsIn
      invariant |Concat(braids)| == Taken(counts[..i])
    {
      var braid: seq<string> := [];
      var j := 0;
      while j < counts[i]
        invariant 0 <= j <= Max(0, counts[i])
        invariant |braid| == j
        invariant Concat(braids) + braid + threads == threadsIn
      {
        if |threads| == 0 {
          TakenSnoc(counts, i);
          TakenPrefix(counts, i + 1);
          return Err(IndexError), [];
        }
        ConcatAssoc(Concat(braids), braid, threads);
        ConcatAssoc(Concat(braids), braid + [threads[0]], threads[1..]);
        assert braid + threads == (braid + [threads[0]]) + threads[1..];
        braid := braid + [threads[0]];
        threads := threads[1..];
        j := j + 1;
      }
      ConcatSnoc(braids, braid);
      TakenSnoc(counts, i);
      braids := braids + [braid];
      i := i + 1;
    }
    assert counts[..i] == counts;
    return Ok(braids), threads;
  }

  /** A number of threads that is a whole number of language pairs. */
  function Pairs(k: nat): nat
  {
    PerLangPair * k
  }

  /** The warning in `main`: printed exactly when the thread count is not a whole
      number of language pairs. */
  function LangPairWarning(nThreads: nat): (w: bool)
    ensures w <==> forall k: nat :: Pairs(k) != nThreads
  {
    if nThreads % PerLangPair != 0 then
      assert forall k: nat :: Pairs(k) != nThreads by {
        forall k: nat
          ensures Pairs(k) != nThreads
        {
          MulModZero(PerLangPair, k);
        }
      }
      true
    else
      assert Pairs(nThreads / PerLangPair) == nThreads;
      false
  }
}
