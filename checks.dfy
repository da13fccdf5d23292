/** The regular expressions the checks of evaluate_cpp_quicksort search for, each written out
    as a predicate on the text. A pattern `[^c]*` followed by c can only stop at the first c,
    and `\s*` followed by a non-space character can only stop where the run of whitespace ends,
    so most patterns below match in at most one way from a given start. Two can stop at
    several places. In `SecondArgOffset` any `j` of the second argument may begin `j - 1`, and
    the predicate asks for some such `j`, as `re.search` backtracks through them all. In
    `WrapperSignature` any `vector` before the first comma completes the match, and the
    predicate looks at the first `vector`, since every later one lies after it. */
module Checks {
  import opened Text

  /** The patterns passed to `re.search` by the checks. */
  datatype Pattern =
    | TemplateOpen                                // template\s*<
    | IndexInit(name: char, bound: string)        // int\s+i\s*=\s*low
    | CompareOrEqual(index: char, op: char)       // arr\[j\][^=]*>=
    | CompareStrict(index: char, op: char)        // arr\[j\][^<]*<[^=]
    | WrapperSignature                            // void\s+quickSort\s*\([^,]*vector
    | SecondArgOffset(index: char, op: char)      // quickSort\([^,]*,\s*[^,]*j\s*-\s*1
    | SecondArgIPlusOne                           // quickSort\([^,]*,\s*i\s*\+\s*1

  /** `arr[c]`. */
  function ArrIndex(c: char): (r: string)
    ensures |r| == 6 && r[4] == c
  {
    "arr[" + [c] + "]"
  }

  /** `c\s*op\s*1` at index m. */
  predicate OffsetOneAt(s: string, m: nat, c: char, op: char)
  {
    m < |s| && s[m] == c &&
    var p := SkipSpaces(s, m + 1);
    p < |s| && s[p] == op && StartsAt(s, SkipSpaces(s, p + 1), "1")
  }

  /** The pattern matches the text s starting at index k. */
  predicate MatchesAt(pat: Pattern, s: string, k: nat)
  {
    match pat
    case TemplateOpen =>
      StartsAt(s, k, "template") &&
      var p := SkipSpaces(s, k + 8);
      p < |s| && s[p] == '<'
    case IndexInit(name, bound) =>
      StartsAt(s, k, "int") &&
      var p := SkipSpaces(s, k + 3);
      p > k + 3 && p < |s| && s[p] == name &&
      var q := SkipSpaces(s, p + 1);
      q < |s| && s[q] == '=' && StartsAt(s, SkipSpaces(s, q + 1), bound)
    case CompareOrEqual(index, op) =>
      StartsAt(s, k, ArrIndex(index)) &&
      var e := IndexOf(s, k + 6, '=');
      k + 6 < e < |s| && s[e - 1] == op
    case CompareStrict(index, op) =>
      StartsAt(s, k, ArrIndex(index)) &&
      var c := IndexOf(s, k + 6, op);
      c + 1 < |s| && s[c + 1] != '='
    case WrapperSignature =>
      StartsAt(s, k, "void") &&
      var p := SkipSpaces(s, k + 4);
      p > k + 4 && StartsAt(s, p, "quickSort") &&
      var q := SkipSpaces(s, p + 9);
      q < |s| && s[q] == '(' &&
      Find(s, q + 1, "vector") < IndexOf(s, q + 1, ',')
    case SecondArgOffset(index, op) =>
      StartsAt(s, k, "quickSort(") &&
      var c1 := IndexOf(s, k + 10, ',');
      c1 < |s| &&
      exists m: nat :: c1 + 1 <= m < IndexOf(s, c1 + 1, ',') && OffsetOneAt(s, m, index, op)
    case SecondArgIPlusOne =>
      StartsAt(s, k, "quickSort(") &&
      var c1 := IndexOf(s, k + 10, ',');
      c1 < |s| && OffsetOneAt(s, SkipSpaces(s, c1 + 1), 'i', '+')
  }

  /** `bool(re.search(pat, s))`. */
  predicate Search(pat: Pattern, s: string)
  {
    exists k: nat :: k <= |s| && MatchesAt(pat, s, k)
  }

  /** `correct_hoare_condition`: a right scan that stops at `>=`-or-`<` and a left scan that
      stops at `<=`-or-`>`. */
  predicate CorrectHoareCondition(code: string)
  {
    && (Search(CompareOrEqual('j', '>'), code) || Search(CompareStrict('j', '<'), code))
    && (Search(CompareOrEqual('i', '<'), code) || Search(CompareStrict('i', '>'), code))
  }

  /** Whether the left-recursion pattern (`j - 1` in the second argument) and one of the two
      right-recursion patterns both occur. */
  predicate RecursionPatterns(code: string)
  {
    && Search(SecondArgOffset('j', '-'), code)
    && (Search(SecondArgOffset('j', '+'), code) || Search(SecondArgIPlusOne, code))
  }

  // ---- The identifiers of `re.findall(r'\b[a-zA-Z_][a-zA-Z0-9_]*\b', code)` ----

  /** Where the run of word characters starting at k ends. */
  function WordEnd(s: string, k: nat): (r: nat)
    requires k <= |s|
    ensures k <= r <= |s|
    ensures forall j :: k <= j < r ==> IsWordChar(s[j])
    ensures r < |s| ==> !IsWordChar(s[r])
  {
    SkipWhile(s, k, IsWordChar)
  }

  /** An identifier begins at k: a letter or underscore with no word character before it. */
  predicate IdentifierAt(s: string, k: nat)
  {
    k < |s| && IsIdentStart(s[k]) && (k == 0 || !IsWordChar(s[k - 1]))
  }

  /** The word that starts at k. */
  function Word(s: string, k: nat): string
    requires k <= |s|
  {
    s[k..WordEnd(s, k)]
  }

  /** `len(name) <= 2 and name not in {'i', 'j', 'T'}`. */
  predicate ShortName(name: string)
  {
    |name| <= 2 && name != "i" && name != "j" && name != "T"
  }

  /** The matches of the identifier pattern from index `from` on, in the order `re.findall`
      returns them: each match runs to the end of its word, and the scan resumes there. */
  function Identifiers(s: string, from: nat): (names: seq<string>)
    requires from <= |s|
    ensures forall n :: n in names ==> |n| > 0 && IsIdentStart(n[0])
    decreases |s| - from
  {
    if from == |s| then []
    else if IdentifierAt(s, from) then [Word(s, from)] + Identifiers(s, WordEnd(s, from))
    else Identifiers(s, from + 1)
  }

  /** `any(len(name) <= 2 and name not in {'i', 'j', 'T'} for name in names)`. */
  predicate AnyShortName(names: seq<string>)
  {
    exists n :: n in names && ShortName(n)
  }

  /** Some identifier starting at or after `from` is a short name. */
  predicate ShortIdentifierFrom(s: string, from: nat)
  {
    exists k: nat :: from <= k < |s| && IdentifierAt(s, k) && ShortName(Word(s, k))
  }

  /** The findall scan misses no identifier and invents none: it reports a short name exactly
      when some position of the text starts an identifier that is a short name. */
  lemma {:induction false} FindAllSeesEveryIdentifier(s: string, from: nat)
    requires from <= |s|
    ensures AnyShortName(Identifiers(s, from)) <==> ShortIdentifierFrom(s, from)
    decreases |s| - from
  {
    if from == |s| {
    } else if IdentifierAt(s, from) {
      var e := WordEnd(s, from);
      FindAllSeesEveryIdentifier(s, e);
      forall k: nat | from < k < e
        ensures !IdentifierAt(s, k)
      {
        assert IsWordChar(s[k - 1]);
      }
      var names := Identifiers(s, from);
      assert names == [Word(s, from)] + Identifiers(s, e);
      if ShortIdentifierFrom(s, from) {
        var k: nat :| from <= k < |s| && IdentifierAt(s, k) && ShortName(Word(s, k));
        if k == from {
          assert Word(s, from) in names;
        } else {
          assert k >= e;
          assert ShortIdentifierFrom(s, e);
          var n :| n in Identifiers(s, e) && ShortName(n);
          assert n in names;
        }
      }
      if AnyShortName(names) {
        var n :| n in names && ShortName(n);
        if n != Word(s, from) {
          assert n in Identifiers(s, e);
          var k: nat :| e <= k < |s| && IdentifierAt(s, k) && ShortName(Word(s, k));
          assert from <= k;
        }
      }
    } else {
      FindAllSeesEveryIdentifier(s, from + 1);
      if ShortIdentifierFrom(s, from) {
        var k: nat :| from <= k < |s| && IdentifierAt(s, k) && ShortName(Word(s, k));
        assert k != from;
      }
    }
  }

  /** `bad` of the naming check: some identifier of the text is a short name. */
  predicate HasBadName(code: string)
  {
    AnyShortName(Identifiers(code, 0))
  }

  /** The naming check flags a text exactly when one of its identifiers, found at its own
      position, is a short name other than i, j and T. */
  lemma BadNameIffShortIdentifier(code: string)
    ensures HasBadName(code) <==> ShortIdentifierFrom(code, 0)
  {
    FindAllSeesEveryIdentifier(code, 0);
  }

  /** `arr[c]`, a stretch without `=`, then `op=` (as in `arr[j] >= pivot`) at index k: the
      scan-stop pattern matches. */
  lemma CompareOrEqualMatches(s: string, k: nat, c: char, mid: string, op: char)
    requires '=' !in mid && op != '='
    requires StartsAt(s, k, ArrIndex(c) + mid + [op, '='])
    ensures Search(CompareOrEqual(c, op), s)
  {
    var scan := ArrIndex(c) + mid + [op, '='];
    assert s[k..k + 6] == scan[..6];
    var e := k + 7 + |mid|;
    assert s[e - 1] == scan[6 + |mid|] && s[e] == scan[7 + |mid|];
    forall j | k + 6 <= j < e
      ensures s[j] != '='
    {
      assert s[j] == scan[j - k];
      if j < k + 6 + |mid| {
        assert scan[j - k] == mid[j - k - 6];
      }
    }
    assert IndexOf(s, k + 6, '=') == e;
    assert MatchesAt(CompareOrEqual(c, op), s, k);
  }

  /** `arr[c]`, a stretch without op, then op followed by something other than `=` (as in
      `arr[j] < pivot`) at index k: the strict scan-stop pattern matches. */
  lemma CompareStrictMatches(s: string, k: nat, c: char, mid: string, op: char, next: char)
    requires op !in mid && next != '='
    requires StartsAt(s, k, ArrIndex(c) + mid + [op, next])
    ensures Search(CompareStrict(c, op), s)
  {
    var scan := ArrIndex(c) + mid + [op, next];
    assert s[k..k + 6] == scan[..6];
    var e := k + 6 + |mid|;
    assert s[e] == scan[6 + |mid|] && s[e + 1] == scan[7 + |mid|];
    forall j | k + 6 <= j < e
      ensures s[j] != op
    {
      assert s[j] == scan[j - k] == mid[j - k - 6];
    }
    assert IndexOf(s, k + 6, op) == e;
    assert MatchesAt(CompareStrict(c, op), s, k);
  }

  /** A prefix q of the piece p is found where p starts in `a + p + b`. */
  lemma PieceAt(a: string, p: string, b: string, q: string)
    requires |q| <= |p| && p[..|q|] == q
    ensures StartsAt(a + p + b, |a|, q)
  {
    assert (a + p + b)[|a|..|a| + |q|] == p[..|q|];
  }

  /** The two scans of the fixed partition loop, `arr[j] >= pivot` followed by
      `arr[i] <= pivot`, satisfy `correct_hoare_condition` whatever surrounds them. */
  lemma FixedScansAreCorrect(before: string, between: string, after: string)
    ensures CorrectHoareCondition(before + "arr[j] >= pivot" + between + "arr[i] <= pivot" + after)
  {
    var right, left := "arr[j] >= pivot", "arr[i] <= pivot";
    var code := before + right + between + left + after;
    assert code == before + right + (between + left + after);
    PieceAt(before, right, between + left + after, ArrIndex('j') + " " + ['>', '=']);
    CompareOrEqualMatches(code, |before|, 'j', " ", '>');
    PieceAt(before + right + between, left, after, ArrIndex('i') + " " + ['<', '=']);
    CompareOrEqualMatches(code, |before| + 15 + |between|, 'i', " ", '<');
  }

  // ---- The inverted scans the rubric warns against ----

  /** The usual two-loop layout with the scans inverted, `while (i < j && arr[j] > pivot) j--;`
      followed by `while (i < j && arr[i] <= pivot) i++;`, still satisfies
      `correct_hoare_condition` as written: `[^<]*<` after `arr[j]` runs on to the `i < j` of
      the next loop. */
  lemma InvertedScansPass(before: string, after: string)
    ensures CorrectHoareCondition(
              before + "arr[j] > pivot" + ") j--; while (i < j && " + "arr[i] <= pivot" + after)
  {
    var p, left := "arr[j] > pivot" + ") j--; while (i < j && ", "arr[i] <= pivot";
    var code := before + "arr[j] > pivot" + ") j--; while (i < j && " + left + after;
    assert code == before + p + (left + after) == before + p + left + after;
    InvertedRightScanMatches(before, left + after);
    LeftScanMatches(before + p, after);
  }

  /** `arr[i] <= pivot` satisfies the left half of `correct_hoare_condition`. */
  lemma LeftScanMatches(before: string, after: string)
    ensures Search(CompareOrEqual('i', '<'), before + "arr[i] <= pivot" + after)
  {
    PieceAt(before, "arr[i] <= pivot", after, ArrIndex('i') + " " + ['<', '=']);
    CompareOrEqualMatches(before + "arr[i] <= pivot" + after, |before|, 'i', " ", '<');
  }

  /** The inverted right scan satisfies the right half of `correct_hoare_condition`. */
  lemma InvertedRightScanMatches(before: string, after: string)
    ensures Search(CompareStrict('j', '<'), before + ("arr[j] > pivot" + ") j--; while (i < j && ") + after)
  {
    var p := "arr[j] > pivot" + ") j--; while (i < j && ";
    var mid := " > pivot) j--; while (i ";
    InvertedRightScan();
    PieceAt(before, p, after, ArrIndex('j') + mid + ['<', ' ']);
    CompareStrictMatches(before + p + after, |before|, 'j', mid, '<', ' ');
  }

  /** The right scan of the inverted loops reads, up to the first `<`, as `arr[j]`, a stretch
      without `<`, then `< `. */
  lemma InvertedRightScan()
    ensures var p, mid := "arr[j] > pivot" + ") j--; while (i < j && ", " > pivot) j--; while (i ";
            '<' !in mid && |p| >= 32 && p[..32] == ArrIndex('j') + mid + ['<', ' ']
  {
    var p, mid := "arr[j] > pivot" + ") j--; while (i < j && ", " > pivot) j--; while (i ";
    assert p == ArrIndex('j') + mid + ['<', ' '] + "j && ";
  }

  /** The comparison written right after `arr[c]`: `arr\[c\]\s*(orEqual=|strict[^=])`. */
  predicate DirectCompareAt(s: string, k: nat, c: char, orEqual: char, strict: char)
  {
    StartsAt(s, k, ArrIndex(c)) &&
    var p := SkipSpaces(s, k + 6);
    p + 1 < |s| && ((s[p] == orEqual && s[p + 1] == '=') || (s[p] == strict && s[p + 1] != '='))
  }

  /** The check as its rubric line describes it: the right scan compares `arr[j]` by `>=` or
      `<`, and the left scan compares `arr[i]` by `<=` or `>`. */
  predicate IntendedHoareCondition(code: string)
  {
    && (exists k: nat :: k <= |code| && DirectCompareAt(code, k, 'j', '>', '<'))
    && (exists k: nat :: k <= |code| && DirectCompareAt(code, k, 'i', '<', '>'))
  }

  /** `arr[c] op= ` at index k is a direct comparison. */
  lemma DirectOrEqualAt(s: string, k: nat, c: char, op: char, strict: char)
    requires !IsSpace(op) && StartsAt(s, k, ArrIndex(c) + [' ', op, '='])
    ensures DirectCompareAt(s, k, c, op, strict)
  {
    var scan := ArrIndex(c) + [' ', op, '='];
    assert s[k..k + 6] == scan[..6];
    assert s[k + 6] == scan[6] && s[k + 7] == scan[7] && s[k + 8] == scan[8];
    assert SkipSpaces(s, k + 6) == k + 7;
  }

  /** The fixed scans satisfy the intended check, whatever surrounds them. */
  lemma FixedScansIntended(before: string, between: string, after: string)
    ensures IntendedHoareCondition(before + "arr[j] >= pivot" + between + "arr[i] <= pivot" + after)
  {
    var right, left := "arr[j] >= pivot", "arr[i] <= pivot";
    var code := before + right + between + left + after;
    assert code == before + right + (between + left + after);
    PieceAt(before, right, between + left + after, ArrIndex('j') + [' ', '>', '=']);
    DirectOrEqualAt(code, |before|, 'j', '>', '<');
    PieceAt(before + right + between, left, after, ArrIndex('i') + [' ', '<', '=']);
    DirectOrEqualAt(code, |before| + 15 + |between|, 'i', '<', '>');
  }

  /** The inverted scans fail the intended check when nothing else in the text indexes an
      array: the only `arr[j]` is compared by a bare `>`. */
  lemma InvertedScansRejected(gap: string, after: string)
    requires '[' !in gap && '[' !in after
    ensures !IntendedHoareCondition("arr[j] > pivot" + gap + "arr[i] <= pivot" + after)
  {
    var right, left := "arr[j] > pivot", "arr[i] <= pivot";
    var s := right + gap + left + after;
    var m := 14 + |gap|;
    forall n | 0 <= n < |s| && n != 3 && n != m + 3
      ensures s[n] != '['
    {
      if n < 14 {
        assert s[n] == right[n];
      } else if n < m {
        assert s[n] == gap[n - 14];
      } else if n < m + 15 {
        assert s[n] == left[n - m];
      } else {
        assert s[n] == after[n - m - 15];
      }
    }
    assert s[m + 4] == 'i';
    assert s[6] == ' ' && s[7] == '>' && s[8] == ' ';
    assert SkipSpaces(s, 6) == 7;
    forall k: nat
      ensures !DirectCompareAt(s, k, 'j', '>', '<')
    {
      if StartsAt(s, k, ArrIndex('j')) {
        assert s[k + 3] == ArrIndex('j')[3] && s[k + 4] == 'j';
        assert k == 0;
      }
    }
  }

  /** Where the commas of a call `quickSort(first,second,rest` are, and where its `q`s are
      not. */
  lemma CallLayout(first: string, second: string, rest: string, c: char)
    requires ',' !in first && ',' !in second && c !in second
    requires 'q' !in first && 'q' !in second && 'q' !in rest
    ensures var s := "quickSort(" + first + "," + second + "," + rest;
            var c1 := 10 + |first|;
            && IndexOf(s, 10, ',') == c1
            && IndexOf(s, c1 + 1, ',') == c1 + 1 + |second|
            && (forall j :: c1 < j < c1 + 1 + |second| ==> s[j] != c)
            && (forall j :: 0 < j < |s| ==> s[j] != 'q')
  {
    var s := "quickSort(" + first + "," + second + "," + rest;
    var c1 := 10 + |first|;
    var c2 := c1 + 1 + |second|;
    assert s[c1] == ',' && s[c2] == ',';
    forall j | 10 <= j < c1
      ensures s[j] != ',' && s[j] != 'q'
    {
      assert s[j] == first[j - 10];
    }
    forall j | c1 < j < c2
      ensures s[j] != ',' && s[j] != 'q' && s[j] != c
    {
      assert s[j] == second[j - c1 - 1];
    }
    forall j | c2 < j < |s|
      ensures s[j] != 'q'
    {
      assert s[j] == rest[j - c2 - 1];
    }
    forall j | 0 < j < 10
      ensures s[j] != 'q'
    {
      assert s[j] == "quickSort("[j];
    }
  }

  /** The left-recursion pattern reads only the second argument of a `quickSort(` call: when
      that argument holds no c, `c - 1` anywhere else in the call does not match. */
  lemma SecondArgumentDecides(first: string, second: string, rest: string, c: char, op: char)
    requires ',' !in first && ',' !in second && c !in second
    requires 'q' !in first && 'q' !in second && 'q' !in rest
    ensures !Search(SecondArgOffset(c, op), "quickSort(" + first + "," + second + "," + rest)
  {
    var s := "quickSort(" + first + "," + second + "," + rest;
    CallLayout(first, second, rest, c);
    forall k: nat | k <= |s|
      ensures !MatchesAt(SecondArgOffset(c, op), s, k)
    {
      if k == 0 {
        NoOffsetBetween(s, 10 + |first|, 11 + |first| + |second|, c, op);
      } else {
        NoCallAt(s, k);
      }
    }
  }

  /** A call cannot start where there is no `q`. */
  lemma NoCallAt(s: string, k: nat)
    requires k < |s| ==> s[k] != 'q'
    ensures !StartsAt(s, k, "quickSort(")
  {
    if k + 10 <= |s| {
      assert s[k..k + 10][0] == s[k];
    }
  }

  /** With no c between two commas, `c op 1` does not start there. */
  lemma NoOffsetBetween(s: string, c1: nat, c2: nat, c: char, op: char)
    requires c2 <= |s|
    requires forall j :: c1 < j < c2 ==> s[j] != c
    ensures !exists m: nat :: c1 + 1 <= m < c2 && OffsetOneAt(s, m, c, op)
  {
  }

  /** Hence the usual left call `quickSort(arr, low, j-1)`, whose `j-1` is the third argument,
      does not satisfy the left-recursion pattern. */
  lemma LeftRecursionMissesThirdArgument()
    ensures !Search(SecondArgOffset('j', '-'), "quickSort(arr, low, j-1)")
  {
    SecondArgumentDecides("arr", " low", " j-1)", 'j', '-');
    assert "quickSort(arr, low, j-1)" == "quickSort(" + "arr" + "," + " low" + "," + " j-1)";
  }

  /** Without a literal `quickSort(` (only calls to `quickSort_v1(`, say) none of the
      recursion patterns can match. */
  lemma RecursionNeedsPlainCall(code: string)
    requires !Contains(code, "quickSort(")
    ensures !RecursionPatterns(code)
  {
  }
}
