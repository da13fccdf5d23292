/** evaluate_cpp_quicksort of evaluation_framework.py: twelve checks over the raw and the
    normalised text of a C++ quicksort, each recorded in order by `add`, which also keeps the
    running score; and the band the final score falls in. The report printing is not part of
    this model; the results list is returned alongside the score instead. */
module Rubric {
  import opened Text
  import opened Normalizer
  import opened Checks

  /** `max_score`, hard-coded, although the twelve weights add up to less. */
  const MaxScore := 100

  /** The weights of the twelve checks, in the order they are added. */
  const Weights: seq<int> := [8, 9, 8, 7, 8, 8, 8, 6, 7, 6, 8, 9]

  /** The items of the report, in the order they are added. */
  datatype Criterion =
    | Template | HoarePointers | HoareCondition | NumericTypes | Boundaries | CommentDensity
    | Structure | Naming | Duplicates | StdSwap | Recursion | PivotPlacement

  /** The explanation column: the fixed text given to `add`, the two texts filled in from
      what was seen, the default texts for an empty note, or no note at all (`add`'s default
      argument). */
  datatype Note =
    | Explanation
    | TypesSeen(hasInt: bool, hasFloat: bool, hasDouble: bool)
    | CommentsSeen(count: nat)
    | Satisfied
    | NotSatisfied
    | NoNote

  /** One row of `results`: the item, the mark, the points awarded, the full points and the
      note. */
  datatype RuleResult = RuleResult(item: Criterion, passed: bool, awarded: int, maximum: int, note: Note)

  /** The row `add(item, check, points, note)` appends. */
  function Record(item: Criterion, check: bool, points: int, note: Note): (r: RuleResult)
    ensures r.item == item && r.passed == check && r.maximum == points
    ensures r.awarded == if check then points else 0
    ensures 0 <= points ==> 0 <= r.awarded <= r.maximum
    ensures note != NoNote ==> r.note == note
    ensures note == NoNote ==> r.note == if check then Satisfied else NotSatisfied
  {
    RuleResult(item, check, if check then points else 0, points,
               if note != NoNote then note else if check then Satisfied else NotSatisfied)
  }

  /** The sum of the points awarded in rs. */
  function TotalAwarded(rs: seq<RuleResult>): int
  {
    if rs == [] then 0 else TotalAwarded(rs[..|rs| - 1]) + rs[|rs| - 1].awarded
  }

  /** The sum of the full points of rs. */
  function TotalMaximum(rs: seq<RuleResult>): int
  {
    if rs == [] then 0 else TotalMaximum(rs[..|rs| - 1]) + rs[|rs| - 1].maximum
  }

  /** The state that `add` updates: the `nonlocal score` and the `results` list. */
  class Report {
    var score: int
    var results: seq<RuleResult>

    /** The running score is the sum of the points recorded so far. */
    ghost predicate Valid()
      reads this
    {
      score == TotalAwarded(results)
    }

    constructor ()
      ensures Valid() && results == [] && score == 0
    {
      score := 0;
      results := [];
    }

    /** `add`: appends the row for one check and, when the check holds, adds its points to
        the score. */
    method Add(item: Criterion, check: bool, points: int, note: Note)
      requires Valid()
      modifies this
      ensures Valid()
      ensures results == old(results) + [Record(item, check, points, note)]
      ensures score == old(score) + (if check then points else 0)
    {
      results := results + [Record(item, check, points, note)];
      if check {
        score := score + points;
      }
      assert results[..|results| - 1] == old(results);
    }
  }

  // ---- The checks ----

  /** Check 2: both index initialisations, the loop header and both steps. */
  predicate HoarePointersCheck(code: string)
  {
    var norm := NormalizeCode(code);
    && Search(IndexInit('i', "low"), code) && Search(IndexInit('j', "high"), code)
    && (Contains(norm, "while(i<j)") || Contains(norm, "while(i < j)"))
    && Contains(norm, "j--") && Contains(norm, "i++")
  }

  /** Check 5: the `low >= high` guard, and an emptiness check or an empty test vector. */
  predicate BoundaryCheck(code: string)
  {
    var norm := NormalizeCode(code);
    && Contains(norm, "low >= high")
    && (|| Contains(norm, "arr.empty()") || Contains(norm, "arr.size() == 0")
        || Contains(code, "emptyArr") || Contains(code, "vector<int>{}"))
  }

  /** `code.splitlines()`, with only '\n' ending a line. */
  function Lines(s: string): (lines: seq<string>)
    ensures s == [] <==> lines == []
    decreases |s|
  {
    if s == [] then []
    else
      var e := IndexOf(s, 0, '\n');
      [s[..e]] + (if e < |s| then Lines(s[e + 1..]) else [])
  }

  /** No line holds a newline: the text is cut at every one of them. */
  lemma {:induction false} LinesHaveNoNewline(s: string)
    ensures forall k :: 0 <= k < |Lines(s)| ==> '\n' !in Lines(s)[k]
    decreases |s|
  {
    if s != [] {
      var e := IndexOf(s, 0, '\n');
      var first := s[..e];
      assert '\n' !in first by {
        forall i | 0 <= i < |first|
          ensures first[i] != '\n'
        {
          assert first[i] == s[i];
        }
      }
      if e < |s| {
        LinesHaveNoNewline(s[e + 1..]);
      }
    }
  }

  /** The lines joined back with '\n' between them. */
  function JoinLines(lines: seq<string>): string
  {
    if |lines| == 0 then [] else if |lines| == 1 then lines[0] else lines[0] + "\n" + JoinLines(lines[1..])
  }

  /** A text with a newline before its last character splits into its first line followed by
      the lines of what comes after that newline, and those are not empty. */
  lemma LinesAfterFirst(s: string)
    requires IndexOf(s, 0, '\n') + 1 < |s|
    ensures var e := IndexOf(s, 0, '\n');
            Lines(s) == [s[..e]] + Lines(s[e + 1..]) && Lines(s[e + 1..]) != []
  {
    var e := IndexOf(s, 0, '\n');
    assert s[e + 1..] != [];
  }

  /** Joining at least two lines puts the first one, then a newline, before the rest. */
  lemma JoinTwoOrMore(first: string, rest: seq<string>)
    requires rest != []
    ensures JoinLines([first] + rest) == first + "\n" + JoinLines(rest)
  {
    assert ([first] + rest)[1..] == rest;
  }

  /** A text with a newline before its last character: its lines are the first line
      followed by the lines of what comes after that newline. */
  lemma JoinFirstLine(s: string)
    requires IndexOf(s, 0, '\n') + 1 < |s|
    ensures var e := IndexOf(s, 0, '\n');
            JoinLines(Lines(s)) == s[..e] + "\n" + JoinLines(Lines(s[e + 1..]))
  {
    var e := IndexOf(s, 0, '\n');
    LinesAfterFirst(s);
    JoinTwoOrMore(s[..e], Lines(s[e + 1..]));
  }

  /** Cutting a text around a newline at e, with and without its last character. */
  lemma CutAtNewline(s: string, e: nat)
    requires e + 1 < |s| && s[e] == '\n'
    ensures s == s[..e] + "\n" + s[e + 1..]
    ensures s[..|s| - 1] == s[..e] + "\n" + s[e + 1..][..|s| - e - 2]
  {
  }

  /** Splitting into lines loses nothing but a final newline: joining the lines gives back the
      text, without its last character when that is a newline. */
  lemma {:induction false} LinesRejoin(s: string)
    requires s != []
    ensures JoinLines(Lines(s)) == if s[|s| - 1] == '\n' then s[..|s| - 1] else s
    decreases |s|
  {
    var e := IndexOf(s, 0, '\n');
    if e == |s| {
      assert s[..e] == s;
    } else if e + 1 == |s| {
      assert Lines(s) == [s[..e]];
    } else {
      var rest := s[e + 1..];
      LinesRejoin(rest);
      JoinFirstLine(s);
      CutAtNewline(s, e);
      assert s[|s| - 1] == rest[|rest| - 1];
    }
  }

  /** `line.strip().startswith('//') or '/*' in line or '*/' in line`. */
  predicate IsCommentLine(line: string)
  {
    || StartsAt(line, SkipSpaces(line, 0), "//")
    || Contains(line, "/*") || Contains(line, "*/")
  }

  /** How many of the lines are comment lines. */
  function CountCommentLines(lines: seq<string>): (n: nat)
    ensures n <= |lines|
    ensures n == 0 <==> forall k :: 0 <= k < |lines| ==> !IsCommentLine(lines[k])
  {
    if lines == [] then 0
    else (if IsCommentLine(lines[0]) then 1 else 0) + CountCommentLines(lines[1..])
  }

  /** The comment lines of two stretches of lines add up. */
  lemma {:induction false} CountCommentLinesAppend(a: seq<string>, b: seq<string>)
    ensures CountCommentLines(a + b) == CountCommentLines(a) + CountCommentLines(b)
    decreases |a|
  {
    if a != [] {
      CountCommentLinesAppend(a[1..], b);
      assert (a + b)[1..] == a[1..] + b;
    } else {
      assert a + b == b;
    }
  }

  /** A single line counts once when it is a comment line and not at all otherwise. */
  lemma CountOneLine(line: string)
    ensures CountCommentLines([line]) == if IsCommentLine(line) then 1 else 0
  {
    assert [line][1..] == [];
  }

  /** Check 7: a wrapper taking a vector, called on `0, arr.size()`, and some printing. */
  predicate StructureCheck(code: string)
  {
    && Search(WrapperSignature, code) && Contains(code, "0, arr.size()")
    && (Contains(code, "printArray") || Contains(code, "cout <<"))
  }

  /** Check 10: a call of swap. */
  predicate SwapCheck(code: string)
  {
    Contains(code, "swap(") || Contains(code, "std::swap")
  }

  /** What the checks of evaluate_cpp_quicksort find in a text, before `add` turns it into
      rows: one field per flag the source computes and passes on. */
  datatype Observations = Observations(
    template: bool, hoarePointers: bool, correctHoare: bool,
    hasInt: bool, hasFloat: bool, hasDouble: bool, boundary: bool, commentLines: nat,
    structure: bool, badName: bool, swap: bool, recursion: bool,
    finalSwapI: bool, finalSwapJ: bool)

  /** The flags computed from code. */
  function Observe(code: string): Observations
  {
    var norm := NormalizeCode(code);
    Observations(
      Search(TemplateOpen, code), HoarePointersCheck(code), CorrectHoareCondition(code),
      Contains(code, "vector<int>") || Contains(norm, "vector < int >"),
      Contains(code, "vector<float>") || Contains(norm, "vector < float >"),
      Contains(code, "vector<double>") || Contains(norm, "vector < double >"),
      BoundaryCheck(code), CountCommentLines(Lines(code)),
      StructureCheck(code), HasBadName(code), SwapCheck(code), RecursionPatterns(code),
      Contains(norm, "swap(arr[low], arr[i]"), Contains(norm, "swap(arr[low], arr[j]"))
  }

  /** `multi_type`: how many of the three element types occur. */
  function TypeCount(o: Observations): (n: nat)
    ensures n <= 3
    ensures n == 3 <==> o.hasInt && o.hasFloat && o.hasDouble
  {
    (if o.hasInt then 1 else 0) + (if o.hasFloat then 1 else 0) + (if o.hasDouble then 1 else 0)
  }

  /** `correct_final_swap`: the pivot goes to `arr[i]`, or to `arr[j]` under an incorrect
      scan condition. */
  predicate CorrectFinalSwap(o: Observations)
  {
    o.finalSwapI || (o.finalSwapJ && !o.correctHoare)
  }

  /** The twelve items, in the order they are added. */
  const Items: seq<Criterion> := [Template, HoarePointers, HoareCondition, NumericTypes, Boundaries,
    CommentDensity, Structure, Naming, Duplicates, StdSwap, Recursion, PivotPlacement]

  /** The row the k-th `add` call records (counting from 0): the item, the flag it reads,
      the points and the note given. */
  function Row(o: Observations, k: nat): (r: RuleResult)
    requires k < 12
    ensures r.item == Items[k] && r.maximum == Weights[k]
    ensures r.awarded == if r.passed then Weights[k] else 0
  {
    if k == 0 then Record(Template, o.template, 8, Explanation)
    else if k == 1 then Record(HoarePointers, o.hoarePointers, 9, Explanation)
    else if k == 2 then Record(HoareCondition, o.correctHoare, 8, Explanation)
    else if k == 3 then Record(NumericTypes, TypeCount(o) >= 3, 7, TypesSeen(o.hasInt, o.hasFloat, o.hasDouble))
    else if k == 4 then Record(Boundaries, o.boundary, 8, Explanation)
    else if k == 5 then Record(CommentDensity, o.commentLines >= 10, 8, CommentsSeen(o.commentLines))
    else if k == 6 then Record(Structure, o.structure, 8, Explanation)
    else if k == 7 then Record(Naming, !o.badName, 6, Explanation)
    else if k == 8 then Record(Duplicates, o.correctHoare, 7, Explanation)
    else if k == 9 then Record(StdSwap, o.swap, 6, NoNote)
    else if k == 10 then Record(Recursion, o.recursion, 8, NoNote)
    else Record(PivotPlacement, CorrectFinalSwap(o), 9, Explanation)
  }

  /** The rows of the twelve `add` calls, in order. */
  function Rows(o: Observations): (rs: seq<RuleResult>)
    ensures |rs| == 12
  {
    [Row(o, 0)] + [Row(o, 1)] + [Row(o, 2)] + [Row(o, 3)] + [Row(o, 4)] + [Row(o, 5)]
    + [Row(o, 6)] + [Row(o, 7)] + [Row(o, 8)] + [Row(o, 9)] + [Row(o, 10)] + [Row(o, 11)]
  }

  /** Row k of the report is the row of the k-th `add` call. */
  lemma RowsIndex(o: Observations)
    ensures forall k :: 0 <= k < 12 ==> Rows(o)[k] == Row(o, k)
  {
  }

  /** The rows, spelled out as the twelve `add` calls make them. */
  lemma RowsSpelledOut(o: Observations)
    ensures Rows(o) ==
      [Record(Template, o.template, 8, Explanation)]
      + [Record(HoarePointers, o.hoarePointers, 9, Explanation)]
      + [Record(HoareCondition, o.correctHoare, 8, Explanation)]
      + [Record(NumericTypes, TypeCount(o) >= 3, 7, TypesSeen(o.hasInt, o.hasFloat, o.hasDouble))]
      + [Record(Boundaries, o.boundary, 8, Explanation)]
      + [Record(CommentDensity, o.commentLines >= 10, 8, CommentsSeen(o.commentLines))]
      + [Record(Structure, o.structure, 8, Explanation)]
      + [Record(Naming, !o.badName, 6, Explanation)]
      + [Record(Duplicates, o.correctHoare, 7, Explanation)]
      + [Record(StdSwap, o.swap, 6, NoNote)]
      + [Record(Recursion, o.recursion, 8, NoNote)]
      + [Record(PivotPlacement, CorrectFinalSwap(o), 9, Explanation)]
  {
  }

  /** Each row carries its item's full weight as its maximum, and awards the weight when its
      check passed and nothing otherwise. */
  lemma RowsFollowWeights(o: Observations)
    ensures forall k :: 0 <= k < 12 ==> Rows(o)[k].maximum == Weights[k]
    ensures forall k :: 0 <= k < 12 ==> Rows(o)[k].awarded == if Rows(o)[k].passed then Weights[k] else 0
  {
    RowsIndex(o);
  }

  /** The rows come in the order of the items, each with its own check. */
  lemma RowsFollowItems(o: Observations)
    ensures forall k :: 0 <= k < 12 ==> Rows(o)[k].item == Items[k]
    ensures Rows(o)[3].passed <==> o.hasInt && o.hasFloat && o.hasDouble
    ensures Rows(o)[5].passed <==> o.commentLines >= 10
    ensures Rows(o)[7].passed <==> !o.badName
    ensures Rows(o)[11].passed <==> o.finalSwapI || (o.finalSwapJ && !o.correctHoare)
  {
    RowsIndex(o);
  }

  /** The rows of the report for code, in the order of the `add` calls. */
  function Results(code: string): seq<RuleResult>
  {
    Rows(Observe(code))
  }

  /** The score evaluate_cpp_quicksort returns for code. */
  function Score(code: string): int
  {
    TotalAwarded(Results(code))
  }

  /** The twelve `add` calls of evaluate_cpp_quicksort, in order, on what the checks found:
      the rows recorded are Rows(o), and the running score is their total. */
  method RecordChecks(o: Observations) returns (score: int, results: seq<RuleResult>)
    ensures results == Rows(o)
    ensures score == TotalAwarded(results)
  {
    var report := new Report();
    report.Add(Template, o.template, 8, Explanation);
    report.Add(HoarePointers, o.hoarePointers, 9, Explanation);
    report.Add(HoareCondition, o.correctHoare, 8, Explanation);
    report.Add(NumericTypes, TypeCount(o) >= 3, 7, TypesSeen(o.hasInt, o.hasFloat, o.hasDouble));
    report.Add(Boundaries, o.boundary, 8, Explanation);
    report.Add(CommentDensity, o.commentLines >= 10, 8, CommentsSeen(o.commentLines));
    report.Add(Structure, o.structure, 8, Explanation);
    report.Add(Naming, !o.badName, 6, Explanation);
    report.Add(Duplicates, o.correctHoare, 7, Explanation);
    report.Add(StdSwap, o.swap, 6, NoNote);
    report.Add(Recursion, o.recursion, 8, NoNote);
    report.Add(PivotPlacement, CorrectFinalSwap(o), 9, Explanation);
    score, results := report.score, report.results;
    RowsSpelledOut(o);
  }

  /** evaluate_cpp_quicksort: runs the twelve checks, records each with `add`, and returns
      the score, together with the rows the report is printed from. */
  method EvaluateCppQuicksort(code: string) returns (score: int, results: seq<RuleResult>)
    ensures results == Results(code)
    ensures score == TotalAwarded(results)
    ensures 0 <= score <= 92 < MaxScore
  {
    var o := Observe(code);
    score, results := RecordChecks(o);
    RowTotals(o);
  }

  // ---- Properties of the report ----

  /** One more row adds its points to the totals. */
  lemma TotalsStep(rs: seq<RuleResult>, k: nat)
    requires k < |rs|
    ensures TotalAwarded(rs[..k + 1]) == TotalAwarded(rs[..k]) + rs[k].awarded
    ensures TotalMaximum(rs[..k + 1]) == TotalMaximum(rs[..k]) + rs[k].maximum
  {
    assert rs[..k + 1][..k] == rs[..k];
  }

  /** The points awarded never exceed the full points, row by row and in total. */
  lemma {:induction false} AwardedAtMostMaximum(rs: seq<RuleResult>)
    requires forall k :: 0 <= k < |rs| ==> 0 <= rs[k].awarded <= rs[k].maximum
    ensures 0 <= TotalAwarded(rs) <= TotalMaximum(rs)
    decreases |rs|
  {
    if rs != [] {
      AwardedAtMostMaximum(rs[..|rs| - 1]);
    }
  }

  /** The totals of twelve rows, written out. */
  lemma TotalsOfTwelve(rs: seq<RuleResult>)
    requires |rs| == 12
    ensures TotalAwarded(rs) == rs[0].awarded + rs[1].awarded + rs[2].awarded + rs[3].awarded
      + rs[4].awarded + rs[5].awarded + rs[6].awarded + rs[7].awarded + rs[8].awarded
      + rs[9].awarded + rs[10].awarded + rs[11].awarded
    ensures TotalMaximum(rs) == rs[0].maximum + rs[1].maximum + rs[2].maximum + rs[3].maximum
      + rs[4].maximum + rs[5].maximum + rs[6].maximum + rs[7].maximum + rs[8].maximum
      + rs[9].maximum + rs[10].maximum + rs[11].maximum
  {
    assert rs[..0] == [];
    TotalsStep(rs, 0); TotalsStep(rs, 1); TotalsStep(rs, 2); TotalsStep(rs, 3);
    TotalsStep(rs, 4); TotalsStep(rs, 5); TotalsStep(rs, 6); TotalsStep(rs, 7);
    TotalsStep(rs, 8); TotalsStep(rs, 9); TotalsStep(rs, 10); TotalsStep(rs, 11);
    assert rs[..12] == rs;
  }

  /** The score is the weighted sum of the twelve flags. */
  lemma ScoreFormula(o: Observations)
    ensures TotalAwarded(Rows(o)) ==
      (if o.template then 8 else 0) + (if o.hoarePointers then 9 else 0)
      + (if o.correctHoare then 8 else 0) + (if TypeCount(o) >= 3 then 7 else 0)
      + (if o.boundary then 8 else 0) + (if o.commentLines >= 10 then 8 else 0)
      + (if o.structure then 8 else 0) + (if o.badName then 0 else 6)
      + (if o.correctHoare then 7 else 0) + (if o.swap then 6 else 0)
      + (if o.recursion then 8 else 0) + (if CorrectFinalSwap(o) then 9 else 0)
  {
    TotalsOfTwelve(Rows(o));
    RowsIndex(o);
  }

  /** The full points of the twelve rows add up to 92, and the points awarded lie between 0
      and that. */
  lemma RowTotals(o: Observations)
    ensures TotalMaximum(Rows(o)) == 92
    ensures 0 <= TotalAwarded(Rows(o)) <= 92
  {
    ScoreFormula(o);
    RowsIndex(o);
    TotalsOfTwelve(Rows(o));
  }

  /** Every score lies between 0 and 92, the sum of the weights, which is below the
      hard-coded maximum of 100. */
  lemma ScoreBounds(code: string)
    ensures 0 <= Score(code) <= 92 < MaxScore
  {
    RowTotals(Observe(code));
  }

  /** The comparison-direction row and the duplicate-values row read the same flag,
      `correct_hoare_condition`: they pass or fail together, for 8 and 7 points. */
  lemma HoareRowsAgree(o: Observations)
    ensures Rows(o)[2].passed == Rows(o)[8].passed == o.correctHoare
    ensures Rows(o)[2].awarded + Rows(o)[8].awarded == if o.correctHoare then 15 else 0
  {
  }

  /** No pattern matches the empty text. */
  lemma NoMatchInEmpty()
    ensures forall pat: Pattern :: !Search(pat, "")
  {
    forall pat: Pattern
      ensures !Search(pat, "")
    {
      assert !MatchesAt(pat, "", 0);
    }
  }

  /** The empty text normalises to itself and has no lines and no identifiers. */
  lemma EmptyTextPieces()
    ensures NormalizeCode("") == "" && Lines("") == [] && Identifiers("", 0) == []
  {
  }

  /** What the checks see in the empty text: no pattern, no line, no identifier. */
  lemma ObserveEmpty()
    ensures Observe("") == Observations(false, false, false, false, false, false, false, 0,
                                        false, false, false, false, false, false)
  {
    EmptyTextPieces();
    NoMatchInEmpty();
  }

  /** With nothing seen, only the naming row passes, and the score is its 6 points. */
  lemma NothingSeenScoresSix()
    ensures TotalAwarded(Rows(Observations(false, false, false, false, false, false, false, 0,
                                           false, false, false, false, false, false))) == 6
  {
    ScoreFormula(Observations(false, false, false, false, false, false, false, 0,
                              false, false, false, false, false, false));
  }

  /** The empty text passes only the naming check (it has no identifiers at all), and so
      scores 6. */
  lemma EmptyTextScoresSix()
    ensures Score("") == 6
  {
    ObserveEmpty();
    NothingSeenScoresSix();
  }

  // ---- Bands ----

  /** The five verdicts, highest first. */
  datatype Band = Masterpiece | Excellent | Good | Passing | Dangerous

  /** The if/elif chain on the score: thresholds 95, 90, 80 and 70 tried from the top. */
  function BandOf(score: int): (b: Band)
    ensures b == Masterpiece <==> 95 <= score
    ensures b == Excellent <==> 90 <= score < 95
    ensures b == Good <==> 80 <= score < 90
    ensures b == Passing <==> 70 <= score < 80
    ensures b == Dangerous <==> score < 70
  {
    if score >= 95 then Masterpiece
    else if score >= 90 then Excellent
    else if score >= 80 then Good
    else if score >= 70 then Passing
    else Dangerous
  }

  /** The position of a band, from Dangerous (0) up to Masterpiece (4). */
  function Rank(b: Band): nat
  {
    match b
    case Dangerous => 0
    case Passing => 1
    case Good => 2
    case Excellent => 3
    case Masterpiece => 4
  }

  /** A higher score never gets a lower band. */
  lemma BandMonotone(s1: int, s2: int)
    requires s1 <= s2
    ensures Rank(BandOf(s1)) <= Rank(BandOf(s2))
  {
  }

  /** Since no score exceeds 92, the top band is never given. */
  lemma TopBandUnreachable(code: string)
    ensures BandOf(Score(code)) != Masterpiece
  {
    ScoreBounds(code);
  }

  /** The empty text falls in the lowest band. */
  lemma EmptyTextIsDangerous()
    ensures BandOf(Score("")) == Dangerous
  {
    EmptyTextScoresSix();
  }
}
