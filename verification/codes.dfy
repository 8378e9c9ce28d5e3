/** The discount-code sheet: issuing a new code, and deciding whether a code
    may be redeemed, with the spreadsheet held as a list of rows of cell
    strings and the clock and the random code stream taken as inputs. */
module Codes {
  import opened Py
  import opened Text

  /** The wraps a code can be limited to, by their display names. */
  datatype Wrap =
    | SnowySunrise | MistyMorning | HarvestMoon | NewMoon
    | AmberPebbles | AmethystPebbles | JadePebbles | OnyxPebbles

  function WrapName(w: Wrap): string
  {
    match w
    case SnowySunrise => "Snowy Sunrise"
    case MistyMorning => "Misty Morning"
    case HarvestMoon => "Harvest Moon"
    case NewMoon => "New Moon"
    case AmberPebbles => "Amber Pebbles"
    case AmethystPebbles => "Amethyst Pebbles"
    case JadePebbles => "Jade Pebbles"
    case OnyxPebbles => "Onyx Pebbles"
  }

  /** The members of `Wrap` in declaration order. */
  const AllWraps: seq<Wrap> :=
    [SnowySunrise, MistyMorning, HarvestMoon, NewMoon,
     AmberPebbles, AmethystPebbles, JadePebbles, OnyxPebbles]

  lemma AllWrapsListed(w: Wrap)
    ensures w in AllWraps
  {
    match w
    case SnowySunrise => assert AllWraps[0] == w;
    case MistyMorning => assert AllWraps[1] == w;
    case HarvestMoon => assert AllWraps[2] == w;
    case NewMoon => assert AllWraps[3] == w;
    case AmberPebbles => assert AllWraps[4] == w;
    case AmethystPebbles => assert AllWraps[5] == w;
    case JadePebbles => assert AllWraps[6] == w;
    case OnyxPebbles => assert AllWraps[7] == w;
  }

  /** The first of `ws` named `s`. */
  function FindWrap(s: string, ws: seq<Wrap>): (r: Result<Wrap>)
    ensures r.Ok? ==> WrapName(r.value) == s
    ensures r.Err? ==> r.error == ValueError && forall w :: w in ws ==> WrapName(w) != s
  {
    if |ws| == 0 then Err(ValueError)
    else if WrapName(ws[0]) == s then Ok(ws[0])
    else FindWrap(s, ws[1..])
  }

  /** `Wrap(s)`: look a wrap up by its name, raising `ValueError` for any other string. */
  function ParseWrap(s: string): (r: Result<Wrap>)
    ensures r.Ok? ==> WrapName(r.value) == s
    ensures r.Err? ==> r.error == ValueError && forall w :: WrapName(w) != s
  {
    var r := FindWrap(s, AllWraps);
    assert r.Err? ==> forall w :: WrapName(w) != s by {
      if r.Err? {
        forall w
          ensures WrapName(w) != s
        {
          AllWrapsListed(w);
        }
      }
    }
    r
  }

  /** Every wrap is found again under its own name. */
  lemma ParseWrapName(w: Wrap)
    ensures ParseWrap(WrapName(w)) == Ok(w)
  {
    match w
    case SnowySunrise =>
    case MistyMorning =>
    case HarvestMoon =>
    case NewMoon =>
    case AmberPebbles =>
    case AmethystPebbles =>
    case JadePebbles =>
    case OnyxPebbles =>
  }

  lemma WrapNameInjective(v: Wrap, w: Wrap)
    requires WrapName(v) == WrapName(w)
    ensures v == w
  {
    ParseWrapName(v);
    ParseWrapName(w);
  }

  function Names(ws: seq<Wrap>): (r: seq<string>)
    ensures |r| == |ws|
    ensures forall k :: 0 <= k < |ws| ==> r[k] == WrapName(ws[k])
  {
    seq(|ws|, k requires 0 <= k < |ws| => WrapName(ws[k]))
  }

  // Cells of a row, named as the sheet's columns.
  const CodeCol: nat := 0
  const CreatedCol: nat := 1
  const CreatedDateCol: nat := 2
  const NameCol: nat := 3
  const ScopeCol: nat := 4
  const PercentageCol: nat := 5
  const UsedCol: nat := 6
  const UsedDateCol: nat := 7
  /** Number of columns of a full row. */
  const RowLength: nat := 8

  type Column = c: nat | c < RowLength

  /** The spreadsheet letter of a column, `chr(index + 65)`. */
  function ColumnLetter(c: Column): char
  {
    (65 + c) as char
  }

  const DatePrefix: string := "=(INDIRECT(CONCATENATE(\""
  const DateSuffix: string := "\",ROW()))/86400)+DATE(1970,1,1)"

  /** `date_formula(index)`: a sheet formula turning the Unix time in column
      `index` of the same row into a date. */
  function DateFormula(c: Column): (r: string)
    ensures |r| == |DatePrefix| + 1 + |DateSuffix|
    ensures r[|DatePrefix|] == ColumnLetter(c)
  {
    DatePrefix + [ColumnLetter(c)] + DateSuffix
  }

  /** Different columns give different formulas: the formula names its column. */
  lemma DateFormulaInjective(c: Column, d: Column)
    requires DateFormula(c) == DateFormula(d)
    ensures c == d
  {
    assert DateFormula(c)[|DatePrefix|] == DateFormula(d)[|DatePrefix|];
  }

  /** The columns the script relies on: times live in B and G, the range ends at H. */
  lemma ColumnLetters()
    ensures ColumnLetter(CreatedCol) == 'B' && ColumnLetter(UsedCol) == 'G'
    ensures ColumnLetter(RowLength - 1) == 'H'
  {
  }

  // ---- create_new_code -------------------------------------------------

  /** `str(uuid)[:8].lower()`: the candidate code a random id gives. */
  function Candidate(u: string): (c: string)
    ensures |c| == Min(8, |u|)
    ensures Lower(c) == c
  {
    LowerIdempotent(u[..Min(8, |u|)]);
    Lower(u[..Min(8, |u|)])
  }

  /** `[row[CODE] for row in rows]`; an empty row raises `IndexError`. */
  function CurrentCodes(sheet: seq<seq<string>>): (r: Result<seq<string>>)
    ensures r.Ok? <==> forall j :: 0 <= j < |sheet| ==> |sheet[j]| > 0
    ensures r.Err? ==> r.error == IndexError
    ensures r.Ok? ==> |r.value| == |sheet| && forall j :: 0 <= j < |sheet| ==> r.value[j] == sheet[j][CodeCol]
  {
    if |sheet| == 0 then Ok([])
    else
      var first :- Get(sheet[0], CodeCol);
      var rest :- CurrentCodes(sheet[1..]);
      Ok([first] + rest)
  }

  /** The uniqueness loop of `create_new_code`, run over the ids the random
      source produces: the first candidate not already among the codes, or
      `None` when every id offered is rejected. The test is case-sensitive. */
  function ChooseNewCode(codes: seq<string>, ids: seq<string>): (r: Option<string>)
    ensures r.None? <==> forall k :: 0 <= k < |ids| ==> Candidate(ids[k]) in codes
    ensures r.Some? ==> r.value !in codes && Lower(r.value) == r.value
    ensures r.Some? ==> exists k :: (0 <= k < |ids| && r.value == Candidate(ids[k])
      && forall j :: 0 <= j < k ==> Candidate(ids[j]) in codes)
  {
    if |ids| == 0 then None
    else if Candidate(ids[0]) in codes then
      var r := ChooseNewCode(codes, ids[1..]);
      assert forall k :: 1 <= k < |ids| ==> ids[1..][k - 1] == ids[k];
      assert r.Some? ==> exists k :: (0 <= k < |ids| && r.value == Candidate(ids[k])
        && forall j :: 0 <= j < k ==> Candidate(ids[j]) in codes) by {
        if r.Some? {
          var k :| 0 <= k < |ids| - 1 && r.value == Candidate(ids[1..][k])
            && forall j :: 0 <= j < k ==> Candidate(ids[1..][j]) in codes;
          assert forall j :: 0 <= j < k + 1 ==> Candidate(ids[j]) in codes;
        }
      }
      r
    else Some(Candidate(ids[0]))
  }

  /** The codes as `use_code` compares them, lower-cased. */
  function LowerAll(codes: seq<string>): (r: seq<string>)
    ensures |r| == |codes|
    ensures forall j :: 0 <= j < |codes| ==> r[j] == Lower(codes[j])
  {
    seq(|codes|, j requires 0 <= j < |codes| => Lower(codes[j]))
  }

  /** The uniqueness loop with the comparison `use_code` makes: a candidate is
      rejected when it equals an existing code up to case. */
  function ChooseNewCodeCorrected(codes: seq<string>, ids: seq<string>): (r: Option<string>)
    ensures r.None? <==> forall k :: 0 <= k < |ids| ==> Candidate(ids[k]) in LowerAll(codes)
    ensures r.Some? ==> Lower(r.value) == r.value
    ensures r.Some? ==> forall j :: 0 <= j < |codes| ==> Lower(codes[j]) != r.value
    ensures r.Some? ==> exists k :: (0 <= k < |ids| && r.value == Candidate(ids[k])
      && forall j :: 0 <= j < k ==> Candidate(ids[j]) in LowerAll(codes))
  {
    ChooseNewCode(LowerAll(codes), ids)
  }

  /** The row `create_new_code` appends: code, creation time and its date
      formula (left empty for time 0), name, comma-joined scope, percentage,
      and empty use cells. */
  function NewCodeRow(code: string, created: int, name: string, scope: seq<string>, percentage: int): (r: seq<string>)
    ensures |r| == RowLength
    ensures r[CodeCol] == code && r[NameCol] == name && r[ScopeCol] == Join(",", scope)
    ensures r[CreatedCol] == IntToString(created) && r[PercentageCol] == IntToString(percentage)
    ensures r[CreatedDateCol] == (if created != 0 then DateFormula(CreatedCol) else "")
    ensures r[UsedCol] == "" && r[UsedDateCol] == ""
  {
    [code, IntToString(created), if created != 0 then DateFormula(CreatedCol) else "",
     name, Join(",", scope), IntToString(percentage), "", ""]
  }

  // ---- use_code --------------------------------------------------------

  /** What `use_code` concludes before asking for confirmation. */
  datatype UseOutcome =
    | NotFound
    | AlreadyUsed(usedAt: string)
    | WrongName(issuedTo: string)
    | NotCovered(missing: seq<string>, covered: seq<Wrap>)
    | Valid(row: nat)

  /** A row whose use-time cell exists and is non-empty. */
  predicate Used(row: seq<string>)
  {
    |row| > UsedCol && row[UsedCol] != ""
  }

  /** Row `i` is the first whose code equals `code` up to case. */
  predicate FirstMatch(sheet: seq<seq<string>>, code: string, i: nat)
  {
    i < |sheet| && |sheet[i]| > 0 && Lower(sheet[i][CodeCol]) == Lower(code) &&
    forall j :: 0 <= j < i && |sheet[j]| > 0 ==> Lower(sheet[j][CodeCol]) != Lower(code)
  }

  lemma NamesCons(w: Wrap, ws: seq<Wrap>)
    ensures Names([w] + ws) == [WrapName(w)] + Names(ws)
  {
  }

  /** `[Wrap(w) for w in cell.split(",")]`. */
  function ParseWraps(pieces: seq<string>): (r: Result<seq<Wrap>>)
    ensures r.Ok? <==> forall k :: 0 <= k < |pieces| ==> ParseWrap(pieces[k]).Ok?
    ensures r.Err? ==> r.error == ValueError
    ensures r.Ok? ==> Names(r.value) == pieces
  {
    if |pieces| == 0 then Ok([])
    else
      var tail := pieces[1..];
      assert forall k :: 1 <= k < |pieces| ==> tail[k - 1] == pieces[k];
      match ParseWrap(pieces[0])
      case Err(e) => Err(e)
      case Ok(w) =>
        match ParseWraps(tail)
        case Err(e) => Err(e)
        case Ok(ws) =>
          NamesCons(w, ws);
          assert pieces == [pieces[0]] + tail;
          Ok([w] + ws)
  }

  function ParseScope(cell: string): Result<seq<Wrap>>
  {
    ParseWraps(Split(cell, ','))
  }

  /** No wrap name contains a comma, so a joined scope splits back cleanly. */
  lemma WrapNameNoComma(w: Wrap)
    ensures ',' !in WrapName(w)
  {
  }

  /** A scope written by `create_new_code` from wrap names reads back as those wraps. */
  lemma ParseScopeJoin(ws: seq<Wrap>)
    requires |ws| >= 1
    ensures ParseScope(Join(",", Names(ws))) == Ok(ws)
  {
    var names := Names(ws);
    forall k | 0 <= k < |names|
      ensures ',' !in names[k] && ParseWrap(names[k]).Ok?
    {
      WrapNameNoComma(ws[k]);
      ParseWrapName(ws[k]);
    }
    SplitJoin(names, ',');
    var r := ParseWraps(names);
    assert r.Ok?;
    forall k | 0 <= k < |ws|
      ensures r.value[k] == ws[k]
    {
      assert Names(r.value)[k] == names[k];
      WrapNameInjective(r.value[k], ws[k]);
    }
    assert r.value == ws;
  }

  /** The requested wraps the scope does not name, in request order. */
  function Uncovered(wraps: seq<string>, scope: seq<Wrap>): (r: seq<string>)
    ensures |r| <= |wraps|
    ensures forall x :: x in r <==> x in wraps && x !in Names(scope)
  {
    if |wraps| == 0 then []
    else
      var rest := Uncovered(wraps[1..], scope);
      assert forall x :: x in wraps <==> x == wraps[0] || x in wraps[1..];
      if wraps[0] in Names(scope) then rest else [wraps[0]] + rest
  }

  /** The uncovered wraps of a request are those of its parts, in order: the
      list keeps the request's order and repeats. */
  lemma {:induction false} UncoveredAppend(a: seq<string>, b: seq<string>, scope: seq<Wrap>)
    ensures Uncovered(a + b, scope) == Uncovered(a, scope) + Uncovered(b, scope)
    decreases |a|
  {
    if |a| == 0 {
      assert a + b == b;
    } else {
      assert (a + b)[0] == a[0] && (a + b)[1..] == a[1..] + b;
      UncoveredAppend(a[1..], b, scope);
    }
  }

  /** A single wrap is reported exactly when the scope does not name it. */
  lemma UncoveredSingle(x: string, scope: seq<Wrap>)
    ensures Uncovered([x], scope) == (if x in Names(scope) then [] else [x])
  {
    assert [x][1..] == [];
  }

  /** Every requested wrap is named by the scope cell. */
  predicate Covers(cell: string, wraps: seq<string>)
  {
    ParseScope(cell).Ok? && forall k :: 0 <= k < |wraps| ==> wraps[k] in Names(ParseScope(cell).value)
  }

  /** The scope check of `use_code`: no requested wraps or an empty scope
      cell means every wrap is covered; otherwise the cell is split on commas
      into wraps (a piece naming no wrap raises `ValueError`) and the
      requested wraps it does not name are reported. */
  function JudgeScope(cell: string, i: nat, wraps: seq<string>): (r: Result<UseOutcome>)
    ensures r == Ok(Valid(i)) <==> wraps == [] || cell == "" || Covers(cell, wraps)
    ensures r.Ok? ==> r.value.Valid? || r.value.NotCovered?
    ensures r.Ok? && r.value.Valid? ==> r.value.row == i
    ensures r.Ok? && r.value.NotCovered? ==>
      |r.value.missing| > 0 && ParseScope(cell) == Ok(r.value.covered) &&
      r.value.missing == Uncovered(wraps, r.value.covered) &&
      forall x :: x in r.value.missing <==> x in wraps && x !in Names(r.value.covered)
    ensures r.Err? ==> r.error == ValueError && ParseScope(cell).Err?
  {
    if wraps == [] || cell == "" then Ok(Valid(i))
    else
      var scope :- ParseScope(cell);
      var missing := Uncovered(wraps, scope);
      if missing == [] then
        assert forall k :: 0 <= k < |wraps| ==> wraps[k] in wraps;
        Ok(Valid(i))
      else
        assert missing[0] in missing;
        Ok(NotCovered(missing, scope))
  }

  /** The checks `use_code` makes on the matched row `i`, in order: already
      used, issued to someone else, wraps outside its scope. A row too short
      to hold a name or a scope raises `IndexError`, and so does a valid row
      too short to hold the percentage `_print_code_info` shows next. */
  function Judge(row: seq<string>, i: nat, name: string, wraps: seq<string>): (r: Result<UseOutcome>)
    ensures Used(row) ==> r == Ok(AlreadyUsed(row[UsedCol]))
    ensures !Used(row) && |row| <= NameCol ==> r == Err(IndexError)
    ensures !Used(row) && |row| > NameCol && name != "" && name != row[NameCol] ==>
      r == Ok(WrongName(row[NameCol]))
    ensures !Used(row) && |row| > NameCol && (name == "" || name == row[NameCol]) ==>
      r == (if |row| <= ScopeCol then Err(IndexError)
            else if JudgeScope(row[ScopeCol], i, wraps) == Ok(Valid(i)) && |row| <= PercentageCol
            then Err(IndexError)
            else JudgeScope(row[ScopeCol], i, wraps))
    ensures r.Ok? && r.value.Valid? ==> |row| > PercentageCol
  {
    if Used(row) then Ok(AlreadyUsed(row[UsedCol]))
    else
      var codeName :- Get(row, NameCol);
      if name != "" && name != codeName then Ok(WrongName(codeName))
      else
        var scopeCell :- Get(row, ScopeCol);
        var outcome :- JudgeScope(scopeCell, i, wraps);
        if outcome.Valid? then
          var _ :- Get(row, PercentageCol);
          Ok(outcome)
        else Ok(outcome)
  }

  /** First position of `x` in `xs`, as `list.index` finds it. */
  function IndexOf(xs: seq<string>, x: string): (r: Option<nat>)
    ensures r.None? <==> x !in xs
    ensures r.Some? ==> r.value < |xs| && xs[r.value] == x && x !in xs[..r.value]
  {
    if |xs| == 0 then None
    else if xs[0] == x then Some(0)
    else
      match IndexOf(xs[1..], x)
      case None => None
      case Some(k) =>
        assert xs[..k + 1] == [xs[0]] + xs[1..][..k];
        Some(k + 1)
  }

  /** The decision part of `use_code`: look the code up case-insensitively,
      take the first matching row, and judge it. */
  function UseCode(sheet: seq<seq<string>>, code: string, name: string, wraps: seq<string>): (r: Result<UseOutcome>)
    ensures CurrentCodes(sheet).Err? ==> r == Err(IndexError)
    ensures CurrentCodes(sheet).Ok? ==>
      (r == Ok(NotFound) <==> forall j :: 0 <= j < |sheet| ==> Lower(sheet[j][CodeCol]) != Lower(code))
    ensures forall i: nat :: CurrentCodes(sheet).Ok? && FirstMatch(sheet, code, i) ==>
      r == Judge(sheet[i], i, name, wraps)
    ensures r.Ok? && r.value.Valid? ==> FirstMatch(sheet, code, r.value.row)
  {
    var codes :- CurrentCodes(sheet);
    var lowered := LowerAll(codes);
    match IndexOf(lowered, Lower(code))
    case None =>
      assert forall j :: 0 <= j < |sheet| ==> Lower(sheet[j][CodeCol]) != Lower(code) by {
        forall j | 0 <= j < |sheet|
          ensures Lower(sheet[j][CodeCol]) != Lower(code)
        {
          assert lowered[j] in lowered;
        }
      }
      Ok(NotFound)
    case Some(i) =>
      assert FirstMatch(sheet, code, i) by {
        forall j | 0 <= j < i
          ensures Lower(sheet[j][CodeCol]) != Lower(code)
        {
          assert lowered[..i][j] == lowered[j];
        }
      }
      FirstMatchUnique(sheet, code, i);
      Judge(sheet[i], i, name, wraps)
  }

  lemma FirstMatchUnique(sheet: seq<seq<string>>, code: string, i: nat)
    requires FirstMatch(sheet, code, i)
    ensures forall k :: FirstMatch(sheet, code, k) ==> k == i
  {
  }

  /** The coverage message: the single uncovered wrap, or all but the last
      joined by commas and then "or" the last. */
  function CoverageMessage(missing: seq<string>): string
    requires |missing| >= 1
  {
    var firstPart := Join(", ", missing[..|missing| - 1]);
    if firstPart != "" then Join(" or ", [firstPart, missing[|missing| - 1]])
    else missing[|missing| - 1]
  }

  lemma CoverageMessageShape(missing: seq<string>)
    requires |missing| >= 1
    ensures |missing| == 1 ==> CoverageMessage(missing) == missing[0]
    ensures |missing| >= 2 && missing[0] != "" ==>
      CoverageMessage(missing) == Join(", ", missing[..|missing| - 1]) + " or " + missing[|missing| - 1]
  {
    var n := |missing|;
    if n >= 2 && missing[0] != "" {
      var first := missing[..n - 1];
      assert first[0] == missing[0];
      assert |Join(", ", first)| > 0 by {
        JoinFirst(", ", first);
      }
      var pair := [Join(", ", first), missing[n - 1]];
      assert pair[1..] == [missing[n - 1]];
      assert Join(" or ", pair) == pair[0] + " or " + Join(" or ", [missing[n - 1]]);
    }
  }

  /** A join starts with its first part. */
  lemma JoinFirst(sep: string, parts: seq<string>)
    requires |parts| >= 1
    ensures |Join(sep, parts)| >= |parts[0]|
  {
  }

  lemma CoverageMessageExamples()
    ensures CoverageMessage(["Harvest Moon"]) == "Harvest Moon"
    ensures CoverageMessage(["a", "b"]) == "a or b"
    ensures CoverageMessage(["a", "b", "c"]) == "a, b or c"
  {
    CoverageMessageShape(["a", "b"]);
    CoverageMessageShape(["a", "b", "c"]);
    assert ["a", "b"][..1] == ["a"];
    assert ["a", "b", "c"][..2] == ["a", "b"];
    assert Join(", ", ["a", "b"]) == "a" + ", " + Join(", ", ["b"]);
  }

  // ---- _use_code -------------------------------------------------------

  /** `_use_code`'s row: padded with empty cells to a full row, with the use
      time and its date formula written in; every other cell is kept. */
  function MarkUsed(row: seq<string>, usedAt: string): (r: seq<string>)
    ensures |r| == Max(RowLength, |row|)
    ensures r[UsedCol] == usedAt && r[UsedDateCol] == DateFormula(UsedCol)
    ensures forall k :: 0 <= k < |r| && k != UsedCol && k != UsedDateCol ==>
      r[k] == (if k < |row| then row[k] else "")
  {
    var padded := if |row| < RowLength then row + Repeat("", RowLength - |row|) else row;
    padded[UsedCol := usedAt][UsedDateCol := DateFormula(UsedCol)]
  }

  /** The A1 range `_use_code` writes: columns A to H of sheet row `rowNumber`. */
  function UpdateRange(tab: string, rowNumber: nat): string
  {
    tab + "!A" + NatToString(rowNumber) + ":" + [ColumnLetter(RowLength - 1)] + NatToString(rowNumber)
  }

  /** The range spans all of a full row, and its row number reads back as the
      one given. */
  lemma UpdateRangeRow(tab: string, rowNumber: nat)
    ensures exists d :: (ParseDigitsOk(d) && ParseDigits(d) == rowNumber &&
      UpdateRange(tab, rowNumber) == tab + "!A" + d + ":H" + d)
  {
    var d := NatToString(rowNumber);
    NatToStringDigits(rowNumber);
    ParseNatToString(rowNumber);
    ColumnLetters();
    assert UpdateRange(tab, rowNumber) == tab + "!A" + d + ":H" + d;
  }

  predicate ParseDigitsOk(d: string)
  {
    forall i :: 0 <= i < |d| ==> IsDigit(d[i])
  }

  /** Redeeming a code makes it used: after `_use_code` writes a non-empty
      time into the matched row, asking again for the same code, by any name
      and for any wraps, finds it already used at that time. */
  lemma UseThenUsed(sheet: seq<seq<string>>, code: string, name: string, wraps: seq<string>,
                    i: nat, usedAt: string, name': string, wraps': seq<string>)
    requires UseCode(sheet, code, name, wraps) == Ok(Valid(i))
    requires usedAt != ""
    ensures UseCode(sheet[i := MarkUsed(sheet[i], usedAt)], code, name', wraps') == Ok(AlreadyUsed(usedAt))
  {
    assert FirstMatch(sheet, code, i);
    assert CurrentCodes(sheet).Ok?;
    MarkedFirstMatch(sheet, code, i, usedAt);
  }

  /** Marking a row used keeps its code, so it stays that code's first match. */
  lemma MarkedFirstMatch(sheet: seq<seq<string>>, code: string, i: nat, usedAt: string)
    requires CurrentCodes(sheet).Ok? && FirstMatch(sheet, code, i)
    ensures CurrentCodes(sheet[i := MarkUsed(sheet[i], usedAt)]).Ok?
    ensures FirstMatch(sheet[i := MarkUsed(sheet[i], usedAt)], code, i)
  {
    var sheet' := sheet[i := MarkUsed(sheet[i], usedAt)];
    assert forall j :: 0 <= j < |sheet'| ==> |sheet'[j]| > 0;
    assert sheet'[i][CodeCol] == sheet[i][CodeCol];
  }

  /** A row appended under a code no earlier row matches is that code's first match. */
  lemma AppendedFirstMatch(sheet: seq<seq<string>>, row: seq<string>, code: string)
    requires CurrentCodes(sheet).Ok? && |row| > 0
    requires Lower(row[CodeCol]) == Lower(code)
    requires forall j :: 0 <= j < |sheet| ==> Lower(sheet[j][CodeCol]) != Lower(code)
    ensures CurrentCodes(sheet + [row]).Ok?
    ensures FirstMatch(sheet + [row], code, |sheet|)
  {
    var sheet' := sheet + [row];
    assert forall j :: 0 <= j < |sheet'| ==> |sheet'[j]| > 0 by {
      forall j | 0 <= j < |sheet'|
        ensures |sheet'[j]| > 0
      {
        if j < |sheet| {
          assert sheet'[j] == sheet[j];
        }
      }
    }
    forall j | 0 <= j < |sheet| && |sheet'[j]| > 0
      ensures Lower(sheet'[j][CodeCol]) != Lower(code)
    {
      assert sheet'[j] == sheet[j];
    }
    assert sheet'[|sheet|] == row;
  }

  /** A code the corrected choice issues matches no code already on the sheet,
      whatever the case of its letters. */
  lemma FreshCodeAbsent(sheet: seq<seq<string>>, ids: seq<string>, code: string)
    requires CurrentCodes(sheet).Ok?
    requires ChooseNewCodeCorrected(CurrentCodes(sheet).value, ids) == Some(code)
    ensures forall j :: 0 <= j < |sheet| ==> Lower(sheet[j][CodeCol]) != Lower(code)
  {
    var codes := CurrentCodes(sheet).value;
    forall j | 0 <= j < |sheet|
      ensures Lower(sheet[j][CodeCol]) != Lower(code)
    {
      assert codes[j] == sheet[j][CodeCol];
    }
  }

  /** A code issued with the case-insensitive uniqueness test is found again:
      asking for it by its holder's name (or none) and for no particular wraps
      selects the freshly appended row and finds it valid. */
  lemma IssuedCodeRedeemable(sheet: seq<seq<string>>, ids: seq<string>, code: string,
                             created: int, name: string, scope: seq<string>, percentage: int, asked: string)
    requires CurrentCodes(sheet).Ok?
    requires ChooseNewCodeCorrected(CurrentCodes(sheet).value, ids) == Some(code)
    requires asked == "" || asked == name
    ensures UseCode(sheet + [NewCodeRow(code, created, name, scope, percentage)], code, asked, []) ==
      Ok(Valid(|sheet|))
  {
    var row := NewCodeRow(code, created, name, scope, percentage);
    var codes := CurrentCodes(sheet).value;
    FreshCodeAbsent(sheet, ids, code);
    AppendedFirstMatch(sheet, row, code);
    assert !Used(row);
    assert Judge(row, |sheet|, asked, []) == JudgeScope(row[ScopeCol], |sheet|, []);
  }

  /** With the case-sensitive test as written, a fresh code can collide with an
      existing code typed in capitals: the new code is accepted, yet asking for
      it finds the older, already used row. */
  lemma IssuedCodeShadowed()
    ensures ChooseNewCode(["ABCD1234"], ["abcd1234-5678-4abc-8def-0123456789ab"]) == Some("abcd1234")
    ensures UseCode([["ABCD1234", "1700000000", "", "Ann", "", "10", "1700000500", ""],
                     NewCodeRow("abcd1234", 1700000600, "Bea", [], 10)],
                    "abcd1234", "", []) == Ok(AlreadyUsed("1700000500"))
  {
    ShadowingCodeChosen();
    ShadowedCodeLookup();
  }

  lemma ShadowingCodeChosen()
    ensures ChooseNewCode(["ABCD1234"], ["abcd1234-5678-4abc-8def-0123456789ab"]) == Some("abcd1234")
  {
    var u := "abcd1234-5678-4abc-8def-0123456789ab";
    assert u[..8] == "abcd1234";
    assert Lower("abcd1234") == "abcd1234";
    assert Candidate(u) == "abcd1234";
    assert "abcd1234" != "ABCD1234";
  }

  lemma ShadowedCodeLookup()
    ensures UseCode([["ABCD1234", "1700000000", "", "Ann", "", "10", "1700000500", ""],
                     NewCodeRow("abcd1234", 1700000600, "Bea", [], 10)],
                    "abcd1234", "", []) == Ok(AlreadyUsed("1700000500"))
  {
    var first := ["ABCD1234", "1700000000", "", "Ann", "", "10", "1700000500", ""];
    var sheet := [first, NewCodeRow("abcd1234", 1700000600, "Bea", [], 10)];
    assert Lower("ABCD1234") == "abcd1234";
    assert FirstMatch(sheet, "abcd1234", 0);
    assert CurrentCodes(sheet).Ok?;
    assert Used(first);
  }
}
