/** Character classes and string scanning shared by the normaliser and the rubric checks of
    evaluation_framework.py. Strings are sequences of characters; the character classes are
    the ASCII parts of Python's `\s` and `\w`. */
module Text {

  /** Python's `\s` (and the characters `str.strip` removes), restricted to ASCII: space,
      tab, newline, carriage return, vertical tab, form feed and the four separators
      0x1C to 0x1F. */
  predicate IsSpace(c: char)
  {
    || c == ' ' || c == '\t' || c == '\n' || c == '\r' || c == '\U{B}' || c == '\U{C}'
    || ('\U{1C}' <= c <= '\U{1F}')
  }

  /** Python's `\w` restricted to ASCII: `[a-zA-Z0-9_]`. */
  predicate IsWordChar(c: char)
  {
    ('a' <= c <= 'z') || ('A' <= c <= 'Z') || ('0' <= c <= '9') || c == '_'
  }

  /** `[a-zA-Z_]`, the first character of an identifier. */
  predicate IsIdentStart(c: char)
  {
    ('a' <= c <= 'z') || ('A' <= c <= 'Z') || c == '_'
  }

  /** pat occurs in s at index k. */
  predicate StartsAt(s: string, k: nat, pat: string)
  {
    k + |pat| <= |s| && s[k..k + |pat|] == pat
  }

  /** Python's `pat in s`. */
  predicate Contains(s: string, pat: string)
  {
    exists k: nat :: k <= |s| && StartsAt(s, k, pat)
  }

  /** The end of the run of characters satisfying p that starts at `from`: the first index
      at or after `from` whose character fails p, or |s|. */
  function SkipWhile(s: string, from: nat, p: char -> bool): (r: nat)
    requires from <= |s|
    ensures from <= r <= |s|
    ensures forall k :: from <= k < r ==> p(s[k])
    ensures r < |s| ==> !p(s[r])
    decreases |s| - from
  {
    if from == |s| || !p(s[from]) then from else SkipWhile(s, from + 1, p)
  }

  /** Where `\s*` starting at `from` stops. */
  function SkipSpaces(s: string, from: nat): (r: nat)
    requires from <= |s|
    ensures from <= r <= |s|
    ensures forall k :: from <= k < r ==> IsSpace(s[k])
    ensures r < |s| ==> !IsSpace(s[r])
  {
    SkipWhile(s, from, IsSpace)
  }

  /** The first index at or after `from` holding c, or |s| when there is none: where `[^c]*`
      starting at `from` must stop. */
  function IndexOf(s: string, from: nat, c: char): (r: nat)
    requires from <= |s|
    ensures from <= r <= |s|
    ensures forall k :: from <= k < r ==> s[k] != c
    ensures r < |s| ==> s[r] == c
  {
    SkipWhile(s, from, x => x != c)
  }

  /** The first index at or after `from` where pat occurs, or |s| when there is none. */
  function Find(s: string, from: nat, pat: string): (r: nat)
    requires from <= |s| && pat != []
    ensures from <= r <= |s|
    ensures forall k :: from <= k < r ==> !StartsAt(s, k, pat)
    ensures r < |s| ==> StartsAt(s, r, pat)
    ensures r == |s| ==> forall k :: from <= k ==> !StartsAt(s, k, pat)
    decreases |s| - from
  {
    if from == |s| || StartsAt(s, from, pat) then from else Find(s, from + 1, pat)
  }
}
