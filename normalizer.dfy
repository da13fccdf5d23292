/** normalize_code of evaluation_framework.py: three whole-string substitutions applied in a
    fixed order: line comments, then block comments, then whitespace runs. Each substitution
    scans left to right and resumes after what it replaced, as Python's `re.sub` does. */
module Normalizer {
  import opened Text

  /** `re.sub(r'//.*', '', code)`: every `//` is deleted together with the rest of its line;
      the newline that ends the line stays. */
  function StripLineComments(s: string): (r: string)
    ensures |r| <= |s|
    decreases |s|
  {
    if |s| == 0 then []
    else if StartsAt(s, 0, "//") then StripLineComments(s[IndexOf(s, 2, '\n')..])
    else [s[0]] + StripLineComments(s[1..])
  }

  /** What is left after line comments are removed starts with the newline that ended a
      leading comment, or with the first character kept. */
  lemma {:induction false} LineCommentsLeaveHead(s: string)
    requires StripLineComments(s) != []
    ensures StripLineComments(s)[0] == (if StartsAt(s, 0, "//") then '\n' else s[0])
    decreases |s|
  {
    if StartsAt(s, 0, "//") {
      var e := IndexOf(s, 2, '\n');
      if e < |s| {
        assert s[e..][0] == '\n' && !StartsAt(s[e..], 0, "//");
      }
    }
  }

  /** No two adjacent slashes occur in r. */
  predicate NoDoubleSlash(r: string)
  {
    forall k :: 0 <= k < |r| - 1 ==> !(r[k] == '/' && r[k + 1] == '/')
  }

  /** No `//` is left once line comments are removed. */
  lemma {:induction false} NoLineCommentLeft(s: string)
    ensures NoDoubleSlash(StripLineComments(s))
    decreases |s|
  {
    if |s| > 0 {
      if StartsAt(s, 0, "//") {
        var t := s[IndexOf(s, 2, '\n')..];
        NoLineCommentLeft(t);
        assert StripLineComments(s) == StripLineComments(t);
      } else {
        var t := s[1..];
        NoLineCommentLeft(t);
        var r, rt := StripLineComments(s), StripLineComments(t);
        assert r == [s[0]] + rt;
        if rt != [] {
          LineCommentsLeaveHead(t);
          assert !(r[0] == '/' && r[1] == '/') by {
            if s[0] == '/' && !StartsAt(t, 0, "//") {
              assert t[0] == s[1];
              assert s[..2] != "//";
            }
          }
        }
        forall k | 1 <= k < |r| - 1
          ensures !(r[k] == '/' && r[k + 1] == '/')
        {
          assert r[k] == rt[k - 1] && r[k + 1] == rt[k];
        }
        assert NoDoubleSlash(r);
      }
    }
  }

  // `re.sub(r'/\*[\s\S]*?\*/', '', code)`: the leftmost `/*` and the first `*/` after it
  // are deleted with everything between them, and the scan resumes after that `*/`; a `/*`
  // with no `*/` after it is kept, and so is all that follows it.
  function StripBlockComments(s: string): (r: string)
    ensures |r| <= |s|
    decreases |s|
  {
    if |s| < 2 then s
    else if StartsAt(s, 0, "/*") then
      var close := Find(s, 2, "*/");
      if close < |s| then StripBlockComments(s[close + 2..]) else s
    else [s[0]] + StripBlockComments(s[1..])
  }

  /** `re.sub(r'\s+', ' ', code)`: every maximal run of whitespace becomes one space. */
  function CollapseWhitespace(s: string): (r: string)
    ensures |r| <= |s|
    ensures |r| == 0 <==> |s| == 0
    ensures |r| > 0 ==> (IsSpace(r[0]) <==> IsSpace(s[0]))
    ensures forall k :: 0 <= k < |r| ==> IsSpace(r[k]) ==> r[k] == ' '
    ensures forall k :: 0 <= k < |r| - 1 ==> !(IsSpace(r[k]) && IsSpace(r[k + 1]))
    decreases |s|
  {
    if |s| == 0 then []
    else if IsSpace(s[0]) then [' '] + CollapseWhitespace(s[SkipSpaces(s, 1)..])
    else [s[0]] + CollapseWhitespace(s[1..])
  }

  /** A maximal run of whitespace becomes exactly one space, and the rewrite goes on with
      what follows the run. */
  lemma CollapseRun(w: string, y: string)
    requires w != [] && forall i :: 0 <= i < |w| ==> IsSpace(w[i])
    requires y == [] || !IsSpace(y[0])
    ensures CollapseWhitespace(w + y) == " " + CollapseWhitespace(y)
  {
    var s := w + y;
    assert IsSpace(s[0]) by { assert s[0] == w[0]; }
    forall i | 1 <= i < |w|
      ensures IsSpace(s[i])
    {
      assert s[i] == w[i];
    }
    if |w| < |s| {
      assert s[|w|] == y[0];
    }
    var e := SkipSpaces(s, 1);
    assert e == |w|;
    assert s[e..] == y;
  }

  /** A character that is not whitespace is kept as it is. */
  lemma CollapseKeepsChar(c: char, y: string)
    requires !IsSpace(c)
    ensures CollapseWhitespace([c] + y) == [c] + CollapseWhitespace(y)
  {
    assert ([c] + y)[1..] == y;
  }

  /** normalize_code: the text the rubric matches its whitespace- and comment-insensitive
      patterns against. */
  function NormalizeCode(code: string): (r: string)
    ensures |r| <= |code|
    ensures forall k :: 0 <= k < |r| - 1 ==> !(IsSpace(r[k]) && IsSpace(r[k + 1]))
    ensures forall k :: 0 <= k < |r| ==> IsSpace(r[k]) ==> r[k] == ' '
  {
    CollapseWhitespace(StripBlockComments(StripLineComments(code)))
  }

  /** The characters of s that are not whitespace, in order. */
  function NonSpace(s: string): string
  {
    if |s| == 0 then [] else (if IsSpace(s[0]) then [] else [s[0]]) + NonSpace(s[1..])
  }

  lemma {:induction false} NonSpaceOfSpaces(s: string, j: nat)
    requires j <= |s| && forall k :: 0 <= k < j ==> IsSpace(s[k])
    ensures NonSpace(s) == NonSpace(s[j..])
    decreases j
  {
    if j > 0 {
      NonSpaceOfSpaces(s[1..], j - 1);
      assert s[1..][j - 1..] == s[j..];
    }
  }

  /** Collapsing whitespace changes only whitespace: the other characters stay, in order. */
  lemma {:induction false} CollapseKeepsNonSpace(s: string)
    ensures NonSpace(CollapseWhitespace(s)) == NonSpace(s)
    decreases |s|
  {
    if |s| > 0 {
      var r := CollapseWhitespace(s);
      if IsSpace(s[0]) {
        var j := SkipSpaces(s, 1);
        CollapseKeepsNonSpace(s[j..]);
        NonSpaceOfSpaces(s, j);
        assert r[1..] == CollapseWhitespace(s[j..]);
      } else {
        CollapseKeepsNonSpace(s[1..]);
        assert r[1..] == CollapseWhitespace(s[1..]);
      }
    }
  }

  /** The newline that ends a line comment is the first one after its `//`. */
  lemma FirstNewlineEndsComment(comment: string, rest: string)
    requires '\n' !in comment
    ensures var s := "//" + comment + "\n" + rest;
            IndexOf(s, 2, '\n') == 2 + |comment| && s[2 + |comment|..] == "\n" + rest
  {
    var s := "//" + comment + "\n" + rest;
    assert s[2 + |comment|] == '\n';
    forall k | 2 <= k < 2 + |comment|
      ensures s[k] != '\n'
    {
      assert s[k] == comment[k - 2];
    }
    assert s[2 + |comment|..] == "\n" + rest;
  }

  /** A line comment is dropped up to, but not including, the newline that ends it. */
  lemma LineCommentDropped(comment: string, rest: string)
    requires '\n' !in comment
    ensures StripLineComments("//" + comment + "\n" + rest) == "\n" + StripLineComments(rest)
  {
    var s := "//" + comment + "\n" + rest;
    FirstNewlineEndsComment(comment, rest);
    assert StartsAt(s, 0, "//");
    assert StripLineComments(s) == StripLineComments("\n" + rest);
    assert ("\n" + rest)[1..] == rest;
  }

  /** A line comment on the last line runs to the end of the text. */
  lemma LastLineCommentDropped(comment: string)
    requires '\n' !in comment
    ensures StripLineComments("//" + comment) == ""
  {
    var s := "//" + comment;
  }

  /** A character that does not begin `//` is kept, and the rewrite goes on with the rest. */
  lemma LineCommentKeepsChar(c: char, y: string)
    requires !StartsAt([c] + y, 0, "//")
    ensures StripLineComments([c] + y) == [c] + StripLineComments(y)
  {
    assert ([c] + y)[1..] == y;
  }

  // The first `*/` after the opening `/*` is the one that ends the comment.
  lemma FirstCloseEndsComment(comment: string, rest: string)
    requires !Contains(comment, "*/")
    ensures Find("/*" + comment + "*/" + rest, 2, "*/") == 2 + |comment|
  {
    var s := "/*" + comment + "*/" + rest;
    var n := |comment|;
    assert s[2 + n..4 + n] == "*/";
    assert StartsAt(s, 2 + n, "*/");
    forall k | 2 <= k < 2 + n
      ensures !StartsAt(s, k, "*/")
    {
      if k < n + 1 {
        assert s[k..k + 2] == comment[k - 2..k];
        assert !StartsAt(comment, k - 2, "*/");
        assert comment[k - 2..k] != "*/";
      } else {
        assert s[k..k + 2][1] == s[2 + n] == '*';
      }
    }
  }

  // A block comment closes at the first `*/` after its `/*`, and the scan goes on after it.
  lemma BlockCommentDropped(comment: string, rest: string)
    requires !Contains(comment, "*/")
    ensures StripBlockComments("/*" + comment + "*/" + rest) == StripBlockComments(rest)
  {
    var s := "/*" + comment + "*/" + rest;
    FirstCloseEndsComment(comment, rest);
    assert s[..2] == "/*";
    assert s[4 + |comment|..] == rest;
  }

  // A `/*` that no `*/` follows is left in place, with everything after it.
  lemma UnterminatedBlockKept(tail: string)
    requires !Contains(tail, "*/")
    ensures StripBlockComments("/*" + tail) == "/*" + tail
  {
    var s := "/*" + tail;
    var close := Find(s, 2, "*/");
    if close < |s| {
      assert s[close..close + 2] == tail[close - 2..close];
      assert StartsAt(tail, close - 2, "*/");
    }
  }

  // A character that does not begin `/*` is kept, and the rewrite goes on with the rest.
  lemma BlockCommentKeepsChar(c: char, y: string)
    requires !StartsAt([c] + y, 0, "/*")
    ensures StripBlockComments([c] + y) == [c] + StripBlockComments(y)
  {
    assert ([c] + y)[1..] == y;
  }

  // Text with no `/*` in it has no block comment to remove.
  lemma {:induction false} NoBlockCommentUnchanged(s: string)
    requires !Contains(s, "/*")
    ensures StripBlockComments(s) == s
    decreases |s|
  {
    if |s| >= 2 {
      assert !StartsAt(s, 0, "/*");
      assert !Contains(s[1..], "/*") by {
        forall k: nat | k <= |s[1..]| ensures !StartsAt(s[1..], k, "/*") {
          if StartsAt(s[1..], k, "/*") {
            assert s[k + 1..k + 3] == s[1..][k..k + 2];
            assert StartsAt(s, k + 1, "/*");
          }
        }
      }
      NoBlockCommentUnchanged(s[1..]);
      assert s == [s[0]] + s[1..];
    }
  }
}
