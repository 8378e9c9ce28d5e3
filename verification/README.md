# Weaving utilities: a Dafny model

This project models the pure logic inside a small set of Python scripts for a hand-weaving workshop. Each part is written as Dafny functions and methods over integers, sequences and strings, and is proved against contracts.

The scripts cover four areas:

- **Balanced batch splitting** (`util/calc.py`):
  - `largest_divisible_by_all` and `split_threads` share a thread count out among batches, with a centre-peak or edge policy and a divisibility constraint.
  - Both are modelled as written, on unbounded integers. Next to them sit corrected versions that keep the promises of their docstrings.
- **Thread placement** (`colour_gradient.py`):
  - the balanced per-colour split `get_n_threads_per_colour`;
  - the colour centres;
  - the nearest-free-slot search `find_closest_point`;
  - the fallback `fill_remaining`;
  - one placement step, `place_a_thread`;
  - the `print_string_tens` layout.

  A placement is a sequence of slots, each empty (`None`) or holding a colour letter.
- **Warp text formats** (`plt_warp.py`, `util/printing.py`):
  - reading the comma-separated placement line back;
  - cutting the thread list into braids;
  - the language-pair warning;
  - the LaTeX body that `latex_print_string` writes.
- **Discount codes** (`malinensling_code/malinensling_code.py`):
  - the spreadsheet is a sequence of rows of cell strings;
  - issuing a code is the uniqueness loop plus the new row;
  - redeeming a code is a decision, modelled as the `UseOutcome` datatype (not found, already used, wrong name, not covered, valid);
  - the row that `_use_code` writes back, its A1 range, and the date formula.

Python semantics are modelled explicitly in module `Py`:

- `int(a / b)` truncates toward zero, taken as exact (the float rounding of very large counts is listed under Left out);
- `//` and `%` floor;
- list indices may be negative and raise `IndexError` outside `[-len, len)`;
- `[x] * n` is empty for `n <= 0`.

Exceptions the code can raise on bad input become the `Err` side of a `Result`. `colour_gradient.py` is Python 2 code, so its `/` on integers rounds down.

Inputs the scripts take from the outside world are parameters. These are:

- the random suggestion of `place_a_thread`;
- the module globals `max_jump` and `max_tries`, and `n_threads` where `get_colour_centers` reads it (in `place_a_thread` the suggestion is bounded by the placement's length, which is `n_threads` in the script);
- the uuid stream and the clock of `create_new_code`;
- the use time written by `_use_code`;
- the lines of standard input;
- the braid sizes of `get_braids`;
- the fixed LaTeX header and footer.

Files:

| file | module | contents |
|---|---|---|
| py.dfy | Py | `Result`, Python integer division and indexing, `Sum` |
| text.dfy | Text | `join`, `split`, `strip`, `lower`, `str()` of integers |
| calc.dfy | Calc | `largest_divisible_by_all`, `split_threads`, corrected versions |
| gradient.dfy | Gradient | placement primitives of colour_gradient.py |
| warp.dfy | Warp | `read_threads`, `get_braids`, the lang-pair warning |
| printing.dfy | Printing | `print_string_tens`, `latex_print_string` |
| codes.dfy | Codes | discount-code issue and redemption logic |

Definitions without a contract of their own are stated through the lemmas about them:

| definition | source | stated by |
|---|---|---|
| Calc.MakePlan | util/calc.py:43-46 | Calc.PlanExact, Calc.CorrectedPlanFacts |
| Codes.CoverageMessage | malinensling_code/malinensling_code.py:184-188 | Codes.CoverageMessageShape, Codes.CoverageMessageExamples |
| Codes.ParseScope | malinensling_code/malinensling_code.py:178 | Codes.ParseScopeJoin, Codes.JudgeScope |
| Codes.Used | malinensling_code/malinensling_code.py:165-166 | Codes.Judge, Codes.UseThenUsed |
| Codes.UpdateRange | malinensling_code/malinensling_code.py:226 | Codes.UpdateRangeRow |
| Printing.ColourBox | util/printing.py:34 | Printing.BoxNotMark, Printing.LatexBoxes |
| Warp.PlacementLine | colour_gradient.py:272 | Warp.ReadPlacement, Warp.ReadEmptyPlacement |
| Gradient.Mids | colour_gradient.py:48-51 | Gradient.MidsValues, Gradient.ColourCentersInBlocks |

## Model

| member | source | states |
|---|---|---|
| Py.TruncDiv | util/calc.py:46 | `int(a / b)` leaves a remainder with the sign of `a` and smaller than `abs(b)`: truncation toward zero |
| Py.PyMod | util/calc.py:44 | Python `%`: `a == b * (a // b) + a % b`, with the remainder in `[0, b)` for positive `b` and in `(b, 0]` for negative `b` |
| Py.Repeat | util/calc.py:39 | `[x] * n` has `max(0, n)` entries, all equal to `x` |
| Py.NormIndex | util/calc.py:73 | a Python index is valid exactly in `[-n, n)`, and then denotes `i` or `i + n` |
| Py.Get | util/printing.py:33 | `xs[i]` succeeds exactly for `-len <= i < len`, reads from the end for negative `i`, else raises `IndexError` |
| Py.AddAt | util/calc.py:64 | `xs[i] += v` changes only the entry `i` denotes, by `v`, or raises `IndexError` |
| Py.SumAddAt | util/calc.py:64 | a successful `xs[i] += v` raises the list total by exactly `v` |
| Text.Split | plt_warp.py:13 | `s.split(sep)` gives at least one piece and no piece contains `sep` |
| Text.JoinSplit | plt_warp.py:13 | re-joining the pieces of a split with the separator gives back the string |
| Text.SplitJoin | plt_warp.py:13 | splitting a join of separator-free pieces gives back the pieces |
| Text.LStrip | plt_warp.py:14 | `lstrip()` drops exactly a leading run of whitespace, leaving a suffix that does not start with whitespace |
| Text.RStrip | plt_warp.py:14 | `rstrip()` drops exactly a trailing run of whitespace, leaving a prefix that does not end with whitespace |
| Text.StripTrailingSpace | plt_warp.py:14 | stripping a trimmed string followed by whitespace gives the string back |
| Text.Lower | malinensling_code/malinensling_code.py:151 | `lower()` keeps the length and lowers each character |
| Text.LowerIdempotent | malinensling_code/malinensling_code.py:155 | lowering twice is lowering once |
| Text.NatToStringDigits | malinensling_code/malinensling_code.py:226 | `str(n)` of a natural number is a non-empty string of digits |
| Text.ParseNatToString | malinensling_code/malinensling_code.py:226 | reading back the digits of `str(n)` gives `n` |
| Text.JoinThree | util/printing.py:42-44 | `'\n'.join([a, b, c])` is `a`, newline, `b`, newline, `c` |
| Calc.MaxOf | util/calc.py:91-92 | the head of the reverse-sorted list is an entry no entry exceeds |
| Calc.StepDown | util/calc.py:94-103 | the loop returns a number every divisor divides |
| Calc.StepDownNearest | util/calc.py:94-103 | the loop stops at the nearest common multiple strictly beyond its start, in the direction of the step |
| Calc.LargestDivisibleByAll | util/calc.py:77-103 | fails with `IndexError` for an empty list and `ZeroDivisionError` when a divisor is 0; otherwise returns a common multiple of all divisors |
| Calc.LargestDivisibleByAllNearest | util/calc.py:93-103 | with a positive largest divisor `s`, the result is the largest common multiple at most `number - s`, so always below `number`; with a negative one, it is the smallest at least `number - s` |
| Calc.LargestDivisibleByAllSkipsNumber | util/calc.py:78-96 | 380 is divisible by 2 and 5, yet `largest_divisible_by_all(380, [2, 5])` returns 370 |
| Calc.LargestDivisibleByAllNegative | util/calc.py:91-103 | the result can be negative: `largest_divisible_by_all(3, [2, 5])` is -10 |
| Calc.LargestCommonMultipleAtMost | util/calc.py:78-82 | corrected: the largest common multiple of the divisors that is at most `number`, with the same errors |
| Calc.PlanExact | util/calc.py:36-46 | the bonus batches times `divisible_by` plus the final remainder make up `n_threads - number_to_split`; the final remainder is below `divisible_by`; the even share times `n_batches` is `number_to_split` when it divides |
| Calc.AddOverRange | util/calc.py:63-64 | the `for i in range(lo, hi): xs[i] += v` loop succeeds exactly when every index is valid, and then adds `v` to entries `lo .. hi-1` |
| Calc.AddOverRangeSum | util/calc.py:63-64 | that loop raises the total by `v` per index |
| Calc.Distribute | util/calc.py:61-74 | the distribution yields `n_batches` counts or `IndexError` |
| Calc.DistributeCentre | util/calc.py:62-66 | the centre-peak branch yields `n_batches` counts or `IndexError` |
| Calc.DistributeEnds | util/calc.py:67-73 | the edge branch yields `n_batches` counts or `IndexError` |
| Calc.DistributeShape | util/calc.py:47-74 | when the bonuses fit (at most `n_batches` for the centre peak, at most `2 * n_batches` for the edges), the result is exactly the shape the comments describe |
| Calc.CentreShape | util/calc.py:61-66 | centre peak: one contiguous run of bonuses from `(nb - k) / 2`, and the final remainder on batch `nb / 2` |
| Calc.EndsShape | util/calc.py:67-73 | for up to `2 * n_batches` bonus batches, the edge branch succeeds with bonuses on the first `k / 2` and the last `k - k / 2` batches (twice on batches both runs reach) and the final remainder on the last batch |
| Calc.DistributePeakOverflow | util/calc.py:61-64 | with more bonus batches than batches, the centre-peak run indexes past the list and raises `IndexError` |
| Calc.DistributeSum | util/calc.py:39-74 | a successful distribution hands out exactly `n_threads` |
| Calc.CentreSum | util/calc.py:62-66 | the centre-peak branch adds every bonus and the remainder to the even shares |
| Calc.EndsSum | util/calc.py:67-73 | the edge branch adds every bonus and the remainder to the even shares |
| Calc.SplitThreads | util/calc.py:3-74 | `split_threads` raises `ZeroDivisionError` for zero batches or divisor, and otherwise returns `max(0, n_batches)` counts or raises |
| Calc.NumberToSplitFacts | util/calc.py:35-36 | the number split evenly is below `n_threads` and divisible by both `n_batches` and `divisible_by` |
| Calc.SplitThreadsTotals | util/calc.py:39-74 | for positive `n_batches` and `divisible_by`, whenever `split_threads` returns, it returns `n_batches` counts adding up to `n_threads` |
| Calc.SplitThreadsShape | util/calc.py:48-74 | for positive `n_batches` and `divisible_by`, the edge branch never raises and `split_threads` places bonuses and remainder as its comments describe, runs overlapping when needed; the centre peak does so whenever its bonuses fit |
| Calc.SplitBonusBelow | util/calc.py:36-46 | for positive `n_batches` and `divisible_by`, the step-down leaves fewer than `2 * n_batches` bonus batches, none negative |
| Calc.SplitThreadsPeakFails | util/calc.py:61-64 | with a centre peak, `split_threads` raises `IndexError` exactly when there are more bonus batches than batches |
| Calc.SplitThreadsDocExample | util/calc.py:20-23 | `split_threads(379, 5, True, 2) == [76, 76, 77, 76, 74]`, the docstring's example |
| Calc.DocExampleNumber | util/calc.py:36 | the docstring's example splits 370 evenly |
| Calc.DocExampleShape | util/calc.py:20-23 | the centre-peak shape of the example's plan is `[76, 76, 77, 76, 74]` |
| Calc.SplitThreadsPeakOverflow | util/calc.py:61-64 | `split_threads(12, 5, True, 1)` raises `IndexError` |
| Calc.SplitThreadsEdgesNotHeavier | util/calc.py:67-73 | `split_threads(12, 5, False, 1)` is `[2, 3, 3, 2, 2]`, heaviest in the middle |
| Calc.OverlappingEnds | util/calc.py:67-71 | with seven bonuses for five batches, the two runs of the edge branch overlap |
| Calc.SplitThreadsEdgesOverlap | util/calc.py:67-73 | `split_threads(13, 5, False, 1)` is `[2, 3, 3, 3, 2]`: eight bonuses, the runs `[0, 4)` and `[1, 5)` overlapping |
| Calc.SplitThreadsNegativeDivisor | util/calc.py:43-46 | `split_threads(10, 2, True, -1)` returns `[4, 4]`, losing two of the ten threads |
| Calc.SplitThreadsTwoOffDivisor | util/calc.py:31-39 | `split_threads(8, 2, True, 4)` is `[6, 2]`, both off the divisor |
| Calc.CorrectedNumberToSplit | util/calc.py:35-36 | corrected: the largest multiple of `divisible_by * n_batches` at most `n_threads` |
| Calc.SplitThreadsCorrected | util/calc.py:3-74 | corrected split: rejects counts below one with `ValueError`; otherwise `n_batches` counts summing to `n_threads`, every batch but the remainder batch a multiple of `divisible_by`, none negative for non-negative input |
| Calc.CorrectedPlanFacts | util/calc.py:36-46 | the corrected plan has an even share divisible by `divisible_by`, fewer bonus batches than batches, and a final remainder below `divisible_by` |
| Calc.ShapeDivisible | util/calc.py:31-32 | in both shapes, every batch but the remainder batch stays a multiple of `divisible_by` and at least the even share |
| Calc.SplitThreadsCorrectedShape | util/calc.py:47-60 | the corrected split places bonuses and remainder as the comments describe |
| Calc.CorrectedDocExample | util/calc.py:20-23 | the corrected split keeps the docstring's example |
| Calc.CorrectedPeakFits | util/calc.py:61-66 | where the original raises, the corrected split gives `[2, 3, 3, 2, 2]` |
| Calc.CorrectedEdgesHeavier | util/calc.py:27-30 | without a centre peak, the corrected split gives `[3, 2, 2, 2, 3]`, heavier at the ends |
| Calc.CorrectedAllDivisible | util/calc.py:31-32 | the corrected `(8, 2, True, 4)` split is `[4, 4]`, all divisible |
| Gradient.AddPairs | colour_gradient.py:35-37 | the pairing loop keeps the list length |
| Gradient.AddPairsValues | colour_gradient.py:35-37 | the pairing loop adds one to each of the first and last `hi - lo` positions of the range and its mirror image |
| Gradient.AddPairsSum | colour_gradient.py:35-37 | each pair adds two threads to the total |
| Gradient.ThreadsPerColour | colour_gradient.py:24-43 | zero colours raise `ZeroDivisionError`; otherwise one count per colour |
| Gradient.ThreadsPerColourShape | colour_gradient.py:24-43 | for positive colour counts, the result is the even share plus one for the first and last `remainder / 2` colours plus the lone extra, and sums to `n_threads` |
| Gradient.ThreadsPerColourBalanced | colour_gradient.py:24-43 | `n_colours` counts summing to `n_threads`, each the floor share or one more |
| Gradient.ThreadsPerColourSymmetry | colour_gradient.py:35-42 | the split is a palindrome when the remainder is even or the colour count is odd |
| Gradient.ThreadsPerColourLopsided | colour_gradient.py:38-42 | with an even colour count and an odd remainder, the lone extra sits left of centre at `remainder / 2` and its mirror does not get one |
| Gradient.Inner | colour_gradient.py:49 | `xs[1:-1]` holds the entries between the first and the last |
| Gradient.ColourCenters | colour_gradient.py:46-53 | fails on an empty list; otherwise starts at 0, ends at `n_threads`, and has `max(2, len)` entries |
| Gradient.MidsValues | colour_gradient.py:48-51 | each middle centre is the running start plus half its count, truncated |
| Gradient.ColourCentersInBlocks | colour_gradient.py:46-53 | centre `i` is the start of block `i` plus half its count, and lies inside its own block |
| Gradient.CountFreeFill | colour_gradient.py:92 | filling an empty slot removes exactly one empty slot |
| Gradient.CountFreeZero | colour_gradient.py:92 | no empty slot is counted exactly when every slot holds a letter |
| Gradient.FindClosestPoint | colour_gradient.py:56-83 | returns `None` exactly when neither scan meets an empty slot; otherwise the nearest empty slot either scan visits, ties going left; slot 0 only when the suggestion is 0 |
| Gradient.FillFreeFacts | colour_gradient.py:96-100 | filling never touches an occupied slot and uses one empty slot per letter |
| Gradient.FillFreeSnoc | colour_gradient.py:96-100 | writing one more letter into the first empty slot extends the fill by that letter |
| Gradient.FirstFreeSlot | colour_gradient.py:96-100 | the scan finds the first empty slot |
| Gradient.FillLetters | colour_gradient.py:95-100 | one colour's loop raises its count to its target, writing its letter into the next empty slots in order |
| Gradient.FillColour | colour_gradient.py:93-100 | colour `c`'s turn appends its missing letters to the fill order of the colours before it |
| Gradient.FillPass | colour_gradient.py:93-100 | one pass fills the empty slots in colour order and raises each count to its target |
| Gradient.FillRemaining | colour_gradient.py:86-101 | afterwards no slot is empty, occupied slots are unchanged, the empty ones are filled left to right in colour order, and every count is raised to its target |
| Gradient.DeficitUpToStep | colour_gradient.py:133 | placing one thread of a colour below target lowers the total deficit by one |
| Gradient.DeficitUpToZero | colour_gradient.py:92-95 | nothing is missing exactly when every colour has reached its target |
| Gradient.PlaceAThread | colour_gradient.py:104-134 | a full colour changes nothing; a placement writes the colour's letter into the suggested slot or the nearest free one, counts it and resets the tries; a miss counts a try and triggers the fallback fill past `max_tries`; the balance between empty slots and missing threads is kept |
| Warp.ReadThreads | plt_warp.py:10-15 | no input line raises `IndexError`; otherwise piece `i` is the `i`-th comma-separated piece of the first line with its surrounding whitespace stripped |
| Warp.Singles | colour_gradient.py:272 | `str(x)` of each colour letter is that one-letter string |
| Warp.ReadJoined | plt_warp.py:13-14 | reading back a comma-joined line of trimmed, comma-free pieces followed by whitespace gives back the pieces |
| Warp.ReadPlacement | colour_gradient.py:272 | `read_threads` inverts the printed placement line for any trailing whitespace |
| Warp.ReadEmptyPlacement | colour_gradient.py:272 | an empty placement reads back as one empty thread |
| Warp.GetBraids | plt_warp.py:18-28 | succeeds exactly when the sizes fit the threads; braid `i` has `max(0, counts[i])` threads, and the braids laid end to end then the leftovers give back the input; otherwise `IndexError` |
| Warp.LangPairWarning | plt_warp.py:33-34 | the warning is printed exactly when the thread count is no whole number of language pairs |
| Printing.MarkTally | colour_gradient.py:187-191 | after `n` entries there is one line end per 30 and one bar per other 10 |
| Printing.MarkCases | colour_gradient.py:187-191 | a line end follows entry `k` exactly when 30 divides `k`; a bar exactly when 10 divides it and 30 does not |
| Printing.TensString | colour_gradient.py:180-192 | the loop builds the same string as the cell-by-cell definition: each slot, three spaces, then the mark after it, in order |
| Printing.TensStep | colour_gradient.py:184-191 | one pass of the loop appends the next cell |
| Printing.TensAppend | colour_gradient.py:180-192 | the layout repeats every 30 entries: a first part of whole lines prints separately from the rest |
| Printing.TensMarkTally | colour_gradient.py:186-191 | the layout holds one line break per line end and one bar per bar mark |
| Printing.TensMarks | colour_gradient.py:186-191 | `"\n"` appears `n / 30` times and `"\|"` appears `n / 10 - n / 30` times |
| Printing.ThreadColour | util/printing.py:33 | `COLOURS[ord(t) - 65]` succeeds exactly for 'A' to 'E' and the five characters below 'A' (wrapping to the end); other single characters raise `IndexError`, longer or empty strings `TypeError` |
| Printing.LayoutResult | util/printing.py:31-34 | the body succeeds exactly when every thread has a colour; otherwise it raises what the first bad thread raises |
| Printing.LayoutStep | util/printing.py:32-40 | one pass appends the thread's box, then `\newline` after every 30th or `\|` after every other 10th |
| Printing.LatexPrintString | util/printing.py:27-44 | header, newline, the body joined by newlines, newline, footer; or the first bad thread's error, with the caller's list left holding the threads after it |
| Printing.FirstBadAt | util/printing.py:31-33 | a bad thread after a run of good ones is the first bad thread |
| Printing.BoxNotMark | util/printing.py:34 | a colour box is never a mark entry |
| Printing.LatexBoxes | util/printing.py:31-34 | the body holds exactly one box per thread, in input order, each in the thread's colour |
| Printing.LayoutBoxes | util/printing.py:31-35 | for any box-drawing, one box per thread in order |
| Printing.LayoutMarkTally | util/printing.py:35-40 | the body holds one `\newline` per line-end mark and one bar per bar mark |
| Printing.LatexMarks | util/printing.py:35-40 | `\newline` appears `n / 30` times and `\|` appears `n / 10 - n / 30` times |
| Codes.AllWrapsListed | malinensling_code/malinensling_code.py:21-29 | the enumeration lists every wrap |
| Codes.FindWrap | malinensling_code/malinensling_code.py:178 | finds a wrap of the given name, or raises `ValueError` when none has it |
| Codes.ParseWrap | malinensling_code/malinensling_code.py:178 | `Wrap(s)` returns the wrap named `s`, or raises `ValueError` when no wrap has that name |
| Codes.ParseWrapName | malinensling_code/malinensling_code.py:21-29 | every wrap is found again under its own name |
| Codes.WrapNameInjective | malinensling_code/malinensling_code.py:21-29 | no two wraps share a name |
| Codes.WrapNameNoComma | malinensling_code/malinensling_code.py:21-29 | no wrap name contains a comma |
| Codes.DateFormula | malinensling_code/malinensling_code.py:124-126 | the formula embeds the column letter `chr(index + 65)` at a fixed position |
| Codes.DateFormulaInjective | malinensling_code/malinensling_code.py:124-126 | different columns give different formulas |
| Codes.ColumnLetters | malinensling_code/malinensling_code.py:226 | the creation time is column B, the use time column G, and the range ends at column H |
| Codes.Candidate | malinensling_code/malinensling_code.py:94 | a candidate code is at most 8 characters and already lower case |
| Codes.CurrentCodes | malinensling_code/malinensling_code.py:89 | the first cell of every row, or `IndexError` when a row is empty |
| Codes.ChooseNewCode | malinensling_code/malinensling_code.py:93-99 | the first candidate not equal to an existing code, every earlier candidate being one; `None` only when every id offered is rejected |
| Codes.ChooseNewCodeCorrected | malinensling_code/malinensling_code.py:93-99 | corrected: the first candidate equal to no existing code up to case, every earlier candidate equal to one |
| Codes.NewCodeRow | malinensling_code/malinensling_code.py:101-109 | a new row has 8 cells: the code, creation time and date formula, name, comma-joined scope, percentage, and empty use cells |
| Codes.ParseWraps | malinensling_code/malinensling_code.py:178 | the pieces parse as wraps exactly when each names one, and the wraps' names are the pieces |
| Codes.ParseScopeJoin | malinensling_code/malinensling_code.py:176-178 | a scope written from wraps reads back as those wraps |
| Codes.Uncovered | malinensling_code/malinensling_code.py:179-182 | the requested wraps the scope does not name, and only those |
| Codes.UncoveredAppend | malinensling_code/malinensling_code.py:179-182 | the uncovered wraps of a request are those of its parts in order, so the list keeps the request's order and repeats |
| Codes.UncoveredSingle | malinensling_code/malinensling_code.py:180-182 | one requested wrap is reported exactly when the scope does not name it |
| Codes.JudgeScope | malinensling_code/malinensling_code.py:176-191 | valid exactly when no wraps are requested, the scope is empty, or the scope names them all; otherwise the non-empty list of uncovered wraps in request order, or `ValueError` for a scope piece naming no wrap |
| Codes.Judge | malinensling_code/malinensling_code.py:165-218 | checks in order: a used row is already used; a different non-empty name is the wrong name; then the scope check; a row too short to hold a name or scope raises `IndexError`, and so does a valid row too short for the percentage that `_print_code_info` prints |
| Codes.IndexOf | malinensling_code/malinensling_code.py:160 | `list.index` finds the first position holding the value |
| Codes.UseCode | malinensling_code/malinensling_code.py:145-193 | looks the code up ignoring case; not found exactly when no row matches; otherwise the first matching row is judged |
| Codes.FirstMatchUnique | malinensling_code/malinensling_code.py:160 | a code has at most one first matching row |
| Codes.CoverageMessageShape | malinensling_code/malinensling_code.py:184-188 | one wrap is named alone; several give all but the last joined by commas, then "or" the last |
| Codes.CoverageMessageExamples | malinensling_code/malinensling_code.py:184-188 | one, two and three uncovered wraps read "A", "a or b" and "a, b or c" |
| Codes.MarkUsed | malinensling_code/malinensling_code.py:221-225 | the row is padded to 8 cells, gets the use time and its date formula, and keeps every other cell |
| Codes.UpdateRangeRow | malinensling_code/malinensling_code.py:226 | the range is `tab!A<r>:H<r>`, with `<r>` reading back as the row number |
| Codes.UseThenUsed | malinensling_code/malinensling_code.py:221-225 | once a valid code's row is marked used at a time, asking again, by any name and for any wraps, finds it already used at that time |
| Codes.MarkedFirstMatch | malinensling_code/malinensling_code.py:221-225 | marking a row used keeps it as its code's first match |
| Codes.AppendedFirstMatch | malinensling_code/malinensling_code.py:111-114 | a row appended under a code no earlier row matches is that code's first match |
| Codes.FreshCodeAbsent | malinensling_code/malinensling_code.py:93-99 | a code the corrected choice issues matches no existing code, whatever the case of its letters |
| Codes.IssuedCodeRedeemable | malinensling_code/malinensling_code.py:93-109 | with the corrected choice, a freshly issued code, asked for by its holder or with no name and no wraps, is found valid at its new row |
| Codes.IssuedCodeShadowed | malinensling_code/malinensling_code.py:93-99 | as written, a used "ABCD1234" does not stop "abcd1234" being issued, and asking for the new code then finds the old row already used |

## Left out

- I/O is not modelled: reading standard input, writing `.tex` files, printing, the Google Sheets and OAuth calls, `input()` confirmation and `sys.exit`. Each is a parameter or an outcome value instead.
- `numpy.random.normal` sampling in `place_a_thread` is left out. The suggestion is an input already in range, because the source redraws until it is.
- The driver loops `place_threads_no_preference` and `place_threads_prefer_edges` are left out, because their termination is probabilistic.
- `print_string_pattern` is left out. It works on float configuration and can pop from an empty list part-way through a line.
- The copy of `latex_print_string` in colour_gradient.py is left out. It has the same shape as the util/printing.py one, which is modelled.
- weaving_project.py is left out: float cost arithmetic, YAML files, and a conversions module that is not part of this model.
- The image drawing in util/plotting.py is left out; only its `COLOURS` table is used.
- `datetime` formatting is left out. `AlreadyUsed` carries the raw use-time cell, and the `int()` of that cell is not modelled.
- The scalar overload of `largest_divisible_by_all` (a bare number instead of a list) is left out; `split_threads` always passes a list.
- Warp.GetBraids: takes the braid sizes as a parameter. The call at plt_warp.py:21 passes `more_in_center`, a keyword `split_threads` does not accept, so it would raise `TypeError` before any braid is cut.
- Printing.LatexPrintString: `latex_header()` and `latex_footer()` are constant strings, taken as the parameters `header` and `footer`.
- Gradient.FindClosestPoint: requires the suggestion to be a slot index, which the only caller guarantees.
- Gradient.FillRemaining: requires the empty slots to be none or exactly the threads still missing. Otherwise the source loops for ever.
- Gradient.PlaceAThread: has the same requirement, and it is kept by the placement steps (the `Balanced` invariant). It also requires the suggestion to be a slot index.
- Gradient.ColourChar: colour numbers stop below 191, and so do the colour counts of Gradient.PlaceAThread and Gradient.FillRemaining. From colour 191 on, Python 2's `chr(65 + c)` raises `ValueError` (colour_gradient.py:94 and 109); that error is not modelled.
- Gradient.ThreadsPerColour: follows Python 2, where `/` on integers rounds down. Under Python 3 `range()` of a float would raise `TypeError`. The even share goes through `math.modf` of a float; it is taken as exact, which holds only for counts below 2^53.
- Py.TruncDiv: `int(a / b)` divides through a float. The model truncates the exact quotient, which agrees only for operands below 2^53; float rounding beyond that and `OverflowError` past the float range are not modelled.
- Gradient.MidsValues: `int(count / 2.0)` is taken as exact truncation, which holds for counts below 2^53.
- Codes.ChooseNewCode: models the random uuid stream as a finite list of ids, and returns `None` when every one is rejected. The source would keep drawing.
- Text.Lower: lowers ASCII letters only.
- Codes.NewCodeRow: writes the integer cells (creation time, percentage) as their decimal strings, since the sheet is modelled as strings.
- Codes.UseCode: the `ValueError` that `_print_code_info` raises at malinensling_code.py:209 when the creation-time cell is not an integer, and the errors of `datetime.fromtimestamp` on out-of-range times, are not modelled; such a row is judged valid.
- Codes.UseCode: stops at the decision. The confirmation prompt and the write-back are separate: the write-back is `MarkUsed` and `UpdateRange`, with the sheet row `index + 1` passed in.

## Findings

| source | as written | input that shows it | evidently intended | confidence | as-written member | corrected member |
|---|---|---|---|---|---|---|
| util/calc.py:93-96 | steps down by the largest divisor before the first test | `largest_divisible_by_all(380, [2, 5])` returns 370, though 380 is divisible by both | the largest common multiple at most `number` (docstring, lines 78-82) | not executed; high | Calc.LargestDivisibleByAllSkipsNumber | Calc.LargestCommonMultipleAtMost |
| util/calc.py:61-64 | the centre-peak run covers `n_remainder_batches` indices, which can exceed `n_batches` | `split_threads(12, 5, True, 1)` raises `IndexError` | a centre-peaked split summing to 12 | not executed; high | Calc.SplitThreadsPeakOverflow | Calc.CorrectedPeakFits |
| util/calc.py:36-39 | the even share is `number_to_split / n_batches`, a multiple of the divisor's share only | `split_threads(8, 2, True, 4)` gives `[6, 2]`, both off the divisor | at most one batch off `divisible_by` (lines 31-32) | not executed; high | Calc.SplitThreadsTwoOffDivisor | Calc.CorrectedAllDivisible |
| util/calc.py:43-46 | with a negative `divisible_by` the bonus count is negative and its `range` is empty, so threads go missing | `split_threads(10, 2, True, -1)` returns `[4, 4]`, summing to 8 | a split summing to `n_threads`, or a rejected divisor | not executed; low | Calc.SplitThreadsNegativeDivisor | Calc.SplitThreadsCorrected |
| util/calc.py:67-71 | the front and back runs overlap when there are more bonus batches than batches | `split_threads(12, 5, False, 1)` gives `[2, 3, 3, 2, 2]` | first and last batches heavier (lines 27-30) | not executed; high | Calc.SplitThreadsEdgesNotHeavier | Calc.CorrectedEdgesHeavier |
| malinensling_code/malinensling_code.py:95 | new codes are checked against existing codes case-sensitively, while `use_code` compares lower-cased | existing used "ABCD1234"; new code "abcd1234" is issued; `use_code("abcd1234")` finds the old row already used | a new code distinct from every existing code up to case | not executed; medium | Codes.IssuedCodeShadowed | Codes.IssuedCodeRedeemable |
