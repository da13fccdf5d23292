# A quicksort scoring rubric and three fixed quicksorts, in Dafny

This project models two parts of a small repository about quicksort code written by a
language model.

- `evaluation_framework.py` grades a C++ quicksort given as text.
  - `normalize_code` strips `//` comments, then `/* */` comments, and then collapses
    whitespace.
  - `evaluate_cpp_quicksort` runs twelve checks over the raw and the normalised text. Each
    check is a substring test or a regular expression. The helper `add` records every check
    as a row and adds its points to a running score.
  - The final score picks one of five bands.
- `fix_suggestion.cpp` holds the three repaired in-place quicksorts:
  - `quickSort_v1`, a two-index Hoare-style partition with pivot `arr[low]`;
  - `quickSort_v2`, which picks a random pivot, then the median of three (`medianOfThree`),
    and then recurses on the smaller side while looping on the larger one;
  - `quickSort_v3`, the v1 algorithm over a half-open iterator range.

Modules:

- `Text` (`text.dfy`): character classes and the scans every pattern is built from.
- `Normalizer` (`normalizer.dfy`): `normalize_code` as three pure string rewrites.
- `Checks` (`checks.dfy`): each regular expression of the rubric written as its own
  predicate on strings, and the identifier scan of `re.findall`.
- `Rubric` (`rubric.dfy`): the twelve checks, the `add` accumulator as a class
  `Report` with a `score` and a `results` field, `evaluate_cpp_quicksort` as a method, and
  the band selection as a function.
- `Sorting` (`sorting.dfy`): the quicksorts as methods on `array<int>`, proved to sort their
  range, to permute it and to leave everything else alone.

Where the documented intent and the code disagree, the model follows the code:

- The twelve weights add up to 92, while `max_score` is hard-coded to 100. So no text can
  reach the top band (95 and above).
- The empty text scores 6, not 0. It has no identifiers, so the naming check passes.
- `evaluate_cpp_quicksort` is annotated `-> None` but returns `score`. The model returns
  the score as an `int`, together with the rows the report is printed from.
- The left-recursion pattern only looks at the second argument of a literal
  `quickSort(` call. So the usual `quickSort(arr, low, j-1)` does not satisfy it, and
  neither does any call to `quickSort_v1(`.

## Model

| member | source | states |
|---|---|---|
| Text.IsSpace | evaluation_framework.py:12 | the ASCII characters `\s` matches in a `str` pattern: space, `\t`, `\n`, `\r`, `\x0b`, `\x0c` and `\x1c`–`\x1f` |
| Text.Contains | evaluation_framework.py:41-43 | Python's `pat in s`: the pattern occurs at some position of the text |
| Text.SkipSpaces | evaluation_framework.py:12 | `\s*` from a position stops at the first non-whitespace character: everything skipped is whitespace |
| Text.IndexOf | evaluation_framework.py:48 | `[^c]*` followed by c can only stop at the first c after the start; none before it |
| Text.Find | evaluation_framework.py:10 | the lazy `[\s\S]*?\*/` stops at the first `*/` after the start, or finds none anywhere after it |
| Normalizer.StripLineComments | evaluation_framework.py:8 | deleting line comments never makes the text longer; `LineCommentKeepsChar`, `LineCommentDropped` and `LastLineCommentDropped` give its value case by case |
| Normalizer.LineCommentsLeaveHead | evaluation_framework.py:8 | what is left begins with the newline that ended a leading comment, or else with the text's first character |
| Normalizer.NoLineCommentLeft | evaluation_framework.py:8 | after the first rewrite no `//` is left anywhere in the text |
| Normalizer.FirstNewlineEndsComment | evaluation_framework.py:8 | a line comment ends at the first newline after its `//` |
| Normalizer.LineCommentDropped | evaluation_framework.py:8 | `//comment\nrest` becomes `\n` followed by the rewrite of rest: the comment goes, its newline stays |
| Normalizer.LastLineCommentDropped | evaluation_framework.py:8 | a comment on the last line runs to the end of the text and disappears |
| Normalizer.LineCommentKeepsChar | evaluation_framework.py:8 | a character that does not begin `//` is kept, and the rewrite goes on with the rest: nothing outside a line comment is deleted |
| Normalizer.StripBlockComments | evaluation_framework.py:10 | deleting block comments never makes the text longer; `BlockCommentKeepsChar`, `BlockCommentDropped` and `UnterminatedBlockKept` give its value case by case |
| Normalizer.FirstCloseEndsComment | evaluation_framework.py:10 | the first `*/` after an opening `/*` is the one that closes it |
| Normalizer.BlockCommentDropped | evaluation_framework.py:10 | `/*comment*/rest` becomes the rewrite of rest when the comment holds no `*/` (leftmost-first, first close wins) |
| Normalizer.UnterminatedBlockKept | evaluation_framework.py:10 | a `/*` with no `*/` after it is kept, with everything after it |
| Normalizer.BlockCommentKeepsChar | evaluation_framework.py:10 | a character that does not begin `/*` is kept, and the rewrite goes on with the rest: nothing outside a block comment is deleted |
| Normalizer.NoBlockCommentUnchanged | evaluation_framework.py:10 | text without `/*` is left unchanged |
| Normalizer.CollapseWhitespace | evaluation_framework.py:12 | never longer and empty only for empty input; each whitespace character left is a space; no two whitespace characters are adjacent |
| Normalizer.CollapseRun | evaluation_framework.py:12 | a maximal run of whitespace followed by the rest y becomes one space followed by the rewrite of y |
| Normalizer.CollapseKeepsChar | evaluation_framework.py:12 | a character that is not whitespace is kept, and the rewrite goes on with the rest |
| Normalizer.CollapseKeepsNonSpace | evaluation_framework.py:12 | collapsing whitespace keeps every other character, in order |
| Normalizer.NormalizeCode | evaluation_framework.py:5-13 | the normalised text is never longer than the input, holds no two adjacent whitespace characters, and uses only spaces as whitespace |
| Checks.MatchesAt | evaluation_framework.py:36-93 | each `re.search` pattern of the checks, matching from a given index: `\s*` and `[^c]*` stop where the run ends, `[^,]*j` may stop at any j before the comma |
| Checks.Search | evaluation_framework.py:36-93 | `bool(re.search(pat, s))`: the pattern matches from some index of the text |
| Checks.CorrectHoareCondition | evaluation_framework.py:48-50 | the right scan matches `arr[j][^=]*>=` or `arr[j][^<]*<[^=]`, and the left scan `arr[i][^=]*<=` or `arr[i][^>]*>[^=]` |
| Checks.RecursionPatterns | evaluation_framework.py:91-93 | the left-recursion pattern and one of the two right-recursion patterns both match |
| Checks.HasBadName | evaluation_framework.py:80-81 | `bad`: some identifier found by the `findall` scan is a short name |
| Checks.WordEnd | evaluation_framework.py:80 | a `[a-zA-Z0-9_]*` run ends at the first non-word character |
| Checks.Identifiers | evaluation_framework.py:80 | every match of the identifier pattern is non-empty and starts with a letter or underscore |
| Checks.FindAllSeesEveryIdentifier | evaluation_framework.py:80-81 | the `findall` scan yields a short name exactly when some identifier of the text, found at its own position, is a short name other than i, j and T |
| Checks.BadNameIffShortIdentifier | evaluation_framework.py:80-82 | `bad` holds iff the text contains an identifier of length at most 2 outside {i, j, T} |
| Checks.CompareOrEqualMatches | evaluation_framework.py:48-49 | `arr[c]`, then text without `=`, then `op=` makes the `[^=]*op=` scan pattern match |
| Checks.CompareStrictMatches | evaluation_framework.py:48-49 | `arr[c]`, then text without op, then op and a character other than `=` makes the strict scan pattern match |
| Checks.FixedScansAreCorrect | evaluation_framework.py:48-50 | any text holding `arr[j] >= pivot` and then `arr[i] <= pivot` satisfies `correct_hoare_condition` |
| Checks.InvertedScansPass | evaluation_framework.py:48-52 | the inverted scans `arr[j] > pivot) j--; while (i < j && arr[i] <= pivot` still satisfy `correct_hoare_condition`, whatever surrounds them |
| Checks.LeftScanMatches | evaluation_framework.py:49 | `arr[i] <= pivot` anywhere satisfies the left half of `correct_hoare_condition` |
| Checks.InvertedRightScanMatches | evaluation_framework.py:48 | the inverted right scan satisfies the right half of `correct_hoare_condition`, through the `<` of the next loop's `i < j` |
| Checks.DirectCompareAt | evaluation_framework.py:52 | the comparison written directly after `arr[c]` is `op=` or a strict comparison not followed by `=` |
| Checks.IntendedHoareCondition | evaluation_framework.py:52 | the check as its note describes it: the right scan compares `arr[j]` by `>=` or `<`, the left scan `arr[i]` by `<=` or `>` |
| Checks.FixedScansIntended | evaluation_framework.py:52 | the fixed scans `arr[j] >= pivot` and `arr[i] <= pivot` satisfy the intended check whatever surrounds them |
| Checks.InvertedScansRejected | evaluation_framework.py:52 | the inverted scans fail the intended check when nothing after them indexes an array |
| Checks.SecondArgumentDecides | evaluation_framework.py:91 | in a `quickSort(` call whose second argument holds no j, the left-recursion pattern does not match |
| Checks.NoCallAt | evaluation_framework.py:91-92 | the recursion patterns cannot start where there is no `q` |
| Checks.NoOffsetBetween | evaluation_framework.py:91 | with no j between two commas, `j - 1` cannot start between them |
| Checks.LeftRecursionMissesThirdArgument | evaluation_framework.py:91 | `quickSort(arr, low, j-1)` does not satisfy the left-recursion pattern |
| Checks.RecursionNeedsPlainCall | evaluation_framework.py:91-93 | without a literal `quickSort(` the recursion check fails |
| Rubric.Record | evaluation_framework.py:23-31 | a row keeps the item, the check and the full points; it awards the points when the check holds and 0 otherwise; a given note is kept, and an empty one becomes `满足` when the check holds and `不满足` otherwise |
| Rubric.Report.constructor | evaluation_framework.py:19-21 | the score starts at 0 with no rows |
| Rubric.Report.Add | evaluation_framework.py:23-33 | appends exactly one row, at the end; adds the points only when the check holds; keeps the score equal to the sum of the recorded rows |
| Rubric.Lines | evaluation_framework.py:17 | the split of a text has no lines exactly when the text is empty |
| Rubric.LinesHaveNoNewline | evaluation_framework.py:17 | no line of the split holds a newline |
| Rubric.LinesRejoin | evaluation_framework.py:17 | joining the lines with newlines gives back the text, minus a final newline |
| Rubric.HoarePointersCheck | evaluation_framework.py:40-44 | check 2: `int i = low` and `int j = high` in the raw text, and `while(i<j)` or `while(i < j)`, `j--` and `i++` in the normalised text |
| Rubric.BoundaryCheck | evaluation_framework.py:63-66 | check 5: `low >= high`, and an emptiness test in the normalised text or an empty test vector in the raw text |
| Rubric.IsCommentLine | evaluation_framework.py:70 | a line is a comment line when, after leading whitespace, it starts with `//`, or when it holds `/*` or `*/` |
| Rubric.CountCommentLines | evaluation_framework.py:70 | the comment-line count is at most the number of lines, and 0 exactly when no line is a comment line; its value is fixed by `CountCommentLinesAppend` and `CountOneLine` |
| Rubric.CountCommentLinesAppend | evaluation_framework.py:70 | the comment-line count of two stretches of lines is the sum of their counts |
| Rubric.CountOneLine | evaluation_framework.py:70 | one line counts 1 when it is a comment line and 0 otherwise, so the count is the number of comment lines |
| Rubric.StructureCheck | evaluation_framework.py:75-76 | check 7: the wrapper signature and `0, arr.size()`, and `printArray` or `cout <<` |
| Rubric.SwapCheck | evaluation_framework.py:88 | check 10: `swap(` or `std::swap` occurs |
| Rubric.Observe | evaluation_framework.py:36-98 | the flags the checks compute from the raw and the normalised text, each as its own line of the source computes it |
| Rubric.CorrectFinalSwap | evaluation_framework.py:96-98 | `correct_final_swap`: `swap(arr[low], arr[i]`, or `swap(arr[low], arr[j]` with an incorrect scan condition |
| Rubric.TypeCount | evaluation_framework.py:58-59 | `multi_type` is at most 3, and equal to 3 exactly when all three element types occur |
| Rubric.Row | evaluation_framework.py:35-100 | the k-th `add` call records item k with weight k as its maximum, and awards the weight exactly when it passed |
| Rubric.Rows | evaluation_framework.py:35-100 | the twelve calls record twelve rows |
| Rubric.RowsIndex | evaluation_framework.py:35-100 | the k-th row of the report is the row of the k-th `add` call |
| Rubric.RowsFollowWeights | evaluation_framework.py:23-33 | every row's maximum is its weight, and it awards the weight when it passed and 0 otherwise |
| Rubric.RowsFollowItems | evaluation_framework.py:35-100 | rows keep the order of the `add` calls; the type row needs all three types, the comment row at least 10 lines, the naming row no bad name, and the pivot row `final_swap_i`, or `final_swap_j` with a wrong scan condition |
| Rubric.RecordChecks | evaluation_framework.py:35-100 | the twelve `add` calls record exactly the rows Rows(o), and the score is their total |
| Rubric.Score | evaluation_framework.py:124 | the score returned: the total awarded over the twelve rows |
| Rubric.EvaluateCppQuicksort | evaluation_framework.py:15-124 | returns the rows of the twelve checks and a score equal to their total, between 0 and 92, below `max_score` |
| Rubric.TotalsStep | evaluation_framework.py:32-33 | one more row adds its awarded and its full points to the totals |
| Rubric.AwardedAtMostMaximum | evaluation_framework.py:28-29 | when every row awards between 0 and its full points, so do the totals |
| Rubric.TotalsOfTwelve | evaluation_framework.py:32-33 | the totals of twelve rows are the sums of their twelve entries |
| Rubric.ScoreFormula | evaluation_framework.py:35-100 | the score is the weighted sum of the twelve flags, with weights 8, 9, 8, 7, 8, 8, 8, 6, 7, 6, 8, 9 |
| Rubric.RowTotals | evaluation_framework.py:36-99 | the full points of the rows add up to 92, and the awarded points lie between 0 and 92 |
| Rubric.ScoreBounds | evaluation_framework.py:19-20 | every score lies in 0..92, below the hard-coded maximum of 100 |
| Rubric.HoareRowsAgree | evaluation_framework.py:50-85 | the comparison-direction row and the duplicate-value row both read `correct_hoare_condition` and pass or fail together, for 8 + 7 points or none |
| Rubric.NoMatchInEmpty | evaluation_framework.py:36-93 | no pattern matches the empty text |
| Rubric.EmptyTextPieces | evaluation_framework.py:16-17 | the empty text normalises to itself and has no lines |
| Rubric.ObserveEmpty | evaluation_framework.py:36-98 | on the empty text every flag is false and the comment-line count is 0 |
| Rubric.NothingSeenScoresSix | evaluation_framework.py:80-82 | with every flag false, only the naming row passes, and the score is 6 |
| Rubric.EmptyTextScoresSix | evaluation_framework.py:15-124 | the empty text scores 6 |
| Rubric.BandOf | evaluation_framework.py:113-122 | thresholds 95, 90, 80 and 70, tested from the top; each band holds exactly on its score interval, so exactly one applies |
| Rubric.BandMonotone | evaluation_framework.py:113-122 | a higher score never gets a lower band |
| Rubric.TopBandUnreachable | evaluation_framework.py:113-114 | no text reaches the top band |
| Rubric.EmptyTextIsDangerous | evaluation_framework.py:121-122 | the empty text falls in the lowest band |
| Sorting.Swap | fix_suggestion.cpp:39 | exchanges two elements, changes nothing else, and keeps the multiset |
| Sorting.Partition | fix_suggestion.cpp:30-43 | permutes only [low, high]; the pivot `arr[low]` ends at i; nothing before i is larger and nothing after it is smaller; its loop keeps `low <= i <= j <= high`, everything up to i at most the pivot and everything after j at least it, and ends with i == j |
| Sorting.SortAroundPivot | fix_suggestion.cpp:45-46 | sorting each side of a partitioned range sorts the whole range and permutes it |
| Sorting.QuickSortV1 | fix_suggestion.cpp:26-47 | [low, high] ends sorted and a permutation of its old contents, with everything outside unchanged; with low >= high nothing changes |
| Sorting.RandomIndex | fix_suggestion.cpp:69 | `rand_idx` lies in [low, high] for any value of `rand()` |
| Sorting.MidpointInRange | fix_suggestion.cpp:58 | for `int` indices every intermediate value of `low + (high - low) / 2` stays within `int`, and mid lies in [low, high], in the lower middle |
| Sorting.MedianOfThree | fix_suggestion.cpp:57-63 | returns mid in [low, high]; leaves `arr[low] <= arr[mid] <= arr[high]`; permutes only those three positions |
| Sorting.ChoosePivot | fix_suggestion.cpp:68-74 | the pivot choice only permutes [low, high]; after `arr[low]` and `arr[rand_idx]` are exchanged, every position other than low, mid and high keeps its element, and `arr[low]` ends as the median of the three sampled elements: `arr[mid] <= arr[low] <= arr[high]` |
| Sorting.RecursionOnShorterSide | fix_suggestion.cpp:87-94 | the recursive call of v2 covers at most half of the current range; `QuickSortV2` asserts this of the range it passes in each branch |
| Sorting.ProgressLeft | fix_suggestion.cpp:88-90 | after recursing on the left side, the loop can continue on [i + 1, high] |
| Sorting.ProgressRight | fix_suggestion.cpp:91-94 | after recursing on the right side, the loop can continue on [low, i - 1] |
| Sorting.ProgressDone | fix_suggestion.cpp:67 | when the loop stops the original range is sorted |
| Sorting.QuickSortV2 | fix_suggestion.cpp:65-96 | [low, high] ends sorted and a permutation of its old contents, with everything outside unchanged; with low >= high nothing changes |
| Sorting.QuickSortV3 | fix_suggestion.cpp:108-123 | the half-open range [first, last) ends sorted and a permutation of its old contents, with everything outside unchanged; with first >= last nothing changes |

## Left out

- The report printing: the header, the table, the total line and the band messages.
  Only the choice of band is modelled (`Rubric.BandOf`). The item labels become the
  `Criterion` values. The note texts become the `Note` values, and the two formatted notes
  keep only the values they show.
- The `__main__` block of `evaluation_framework.py`. It refers to an undefined name and only
  prints advice.
- Whitespace and word characters outside ASCII. `\s`, `str.strip` and `\b`/`\w` are modelled
  on the ASCII characters Python gives them. Python also counts `\x85`, `\xa0`, `\u2028`,
  `\u2029` and other Unicode spaces as whitespace, and letters outside ASCII as word
  characters.
- Line breaks other than `'\n'`. `splitlines` is modelled as a split on `'\n'` only. Python
  also splits on `\r`, `\r\n`, `\x0b`, `\x0c`, `\x1c`, `\x1d`, `\x1e`, `\x85`, `\u2028` and
  `\u2029`.
- A general regular-expression engine. Each pattern is its own predicate. A pattern with a
  negated class `[^c]*` followed by c, or with `\s*` followed by a non-space character, can
  match in at most one way, and the predicate describes that one way. The two patterns whose
  `[^,]*` is followed by a letter or a word say which stopping places they accept.
- Rubric.EvaluateCppQuicksort: the flags are computed up front by the pure function
  `Observe` and handed to the twelve `add` calls. The source computes them in between the
  calls. They depend only on the text, so the resulting rows and score are the same.
- `rand()` is an arbitrary non-negative value. Its distribution, and with it the O(n²)
  avoidance, is not modelled.
- Stack depth and running time. Only the half-size property of v2's recursive call is
  stated.
- `printArray` and `main` of `fix_suggestion.cpp`. They do console I/O on `float` test data.
- Element types other than `int`. The sorts are generic in C++; floating point is left out
  because NaN breaks the total order.
- The `enable_if`/`iterator_traits` conditions on `quickSort_v3`. Iterators are indices
  into the array.
- `int` overflow of indices in the sorts. Indices are unbounded integers, except in
  `Sorting.MidpointInRange`, which states the `int` bound for the midpoint.

## Findings

| source | as written | input that shows it | evidently intended | confidence | as-written member | corrected member |
|---|---|---|---|---|---|---|
| evaluation_framework.py:48-52 | in `arr\[j\][^<]*<[^=]` the `[^<]*` runs past the comparison up to any later `<`, so the right scan passes whenever some `<` follows `arr[j]` | `while (i < j && arr[j] > pivot) j--; while (i < j && arr[i] <= pivot) i++;`, the inverted scans the note of check 3 warns about: checks 3 and 9 pass, and check 12 then rejects `swap(arr[low], arr[j])` | the comparison written right after `arr[j]` (and `arr[i]`) decides: `>=` or `<` for the right scan, `<=` or `>` for the left | not executed | Checks.InvertedScansPass | Checks.IntendedHoareCondition, with Checks.FixedScansIntended and Checks.InvertedScansRejected |

The score model (`Rubric.Observe`) keeps `Checks.CorrectHoareCondition`, the check as
written, since the score is what the program returns. `Checks.IntendedHoareCondition` is the
corrected check: it accepts the fixed scans in any surrounding text and rejects the inverted
ones when no other array index follows them.
