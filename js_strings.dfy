/** The two pieces of the JavaScript string library the script relies on:
    `String.prototype.trim` and the ordering behind `localeCompare`.
    A Dafny `char` is a Unicode scalar value; the browser's strings are
    UTF-16, which differs only for characters outside the Basic
    Multilingual Plane. */
module JsStrings {

  /** The characters `trim` removes: ECMAScript's WhiteSpace and
      LineTerminator productions (tab, vertical tab, form feed, the
      space separators of category Zs, the byte-order mark, and the four
      line terminators). */
  predicate IsJsWhitespace(c: char) {
    || c == '\t' || c == '\n' || c == '\U{000B}' || c == '\U{000C}' || c == '\r'
    || c == ' ' || c == '\U{00A0}' || c == '\U{1680}'
    || ('\U{2000}' <= c <= '\U{200A}')
    || c == '\U{2028}' || c == '\U{2029}' || c == '\U{202F}' || c == '\U{205F}'
    || c == '\U{3000}' || c == '\U{FEFF}'
  }

  predicate AllWhitespace(s: string) {
    forall i :: 0 <= i < |s| ==> IsJsWhitespace(s[i])
  }

  /** The index of the first character at or after `i` that is not
      whitespace, or `|s|` when there is none: every character skipped is
      whitespace and the one it stops at is not. */
  function SkipLeadingWhitespace(s: string, i: nat): (j: nat)
    requires i <= |s|
    ensures i <= j <= |s|
    ensures forall k :: i <= k < j ==> IsJsWhitespace(s[k])
    ensures j == |s| || !IsJsWhitespace(s[j])
    decreases |s| - i
  {
    if i < |s| && IsJsWhitespace(s[i]) then SkipLeadingWhitespace(s, i + 1) else i
  }

  /** The end of `s[lo..hi]` once its trailing whitespace is dropped: every
      character dropped is whitespace, and the one before the new end (if
      it is still past `lo`) is not. */
  function SkipTrailingWhitespace(s: string, lo: nat, hi: nat): (j: nat)
    requires lo <= hi <= |s|
    ensures lo <= j <= hi
    ensures forall k :: j <= k < hi ==> IsJsWhitespace(s[k])
    ensures j == lo || !IsJsWhitespace(s[j - 1])
    decreases hi
  {
    if lo < hi && IsJsWhitespace(s[hi - 1]) then SkipTrailingWhitespace(s, lo, hi - 1) else hi
  }

  /** Where the text `trim` keeps starts. */
  function TrimStartIndex(s: string): nat
    ensures TrimStartIndex(s) <= |s|
  {
    SkipLeadingWhitespace(s, 0)
  }

  /** `String.prototype.trim`: `s` with whitespace removed at both ends.
      Neither end of what is left is whitespace. */
  function Trim(s: string): (r: string)
    ensures |r| <= |s|
    ensures r == [] || (!IsJsWhitespace(r[0]) && !IsJsWhitespace(r[|r| - 1]))
  {
    var i := TrimStartIndex(s);
    var j := SkipTrailingWhitespace(s, i, |s|);
    assert i < j ==> s[i..j][0] == s[i] && s[i..j][j - i - 1] == s[j - 1];
    s[i..j]
  }

  /** What `trim` keeps is an infix of `s`, with only whitespace on either
      side of it. */
  lemma TrimIsInfix(s: string)
    ensures var i, r := TrimStartIndex(s), Trim(s);
            && i + |r| <= |s| && r == s[i..i + |r|]
            && AllWhitespace(s[..i]) && AllWhitespace(s[i + |r|..])
  {
    var i := TrimStartIndex(s);
    var j := SkipTrailingWhitespace(s, i, |s|);
    forall k | 0 <= k < i ensures IsJsWhitespace(s[..i][k]) {
    }
    forall k | 0 <= k < |s| - j ensures IsJsWhitespace(s[j..][k]) {
      assert s[j..][k] == s[j + k];
    }
  }

  /** `!text.trim()` holds exactly for the empty and the all-whitespace
      strings. */
  lemma TrimEmptyIffBlank(s: string)
    ensures Trim(s) == [] <==> AllWhitespace(s)
  {
    var i := TrimStartIndex(s);
    var j := SkipTrailingWhitespace(s, i, |s|);
    if Trim(s) == [] {
      assert j == i;
      assert i == |s|;
    } else {
      assert i < j && !IsJsWhitespace(s[i]);
    }
  }

  /** Trimming twice is trimming once. */
  lemma TrimIdempotent(s: string)
    ensures Trim(Trim(s)) == Trim(s)
  {
    var r := Trim(s);
    if r != [] {
      assert TrimStartIndex(r) == 0;
      assert SkipTrailingWhitespace(r, 0, |r|) == |r|;
      assert r[0..|r|] == r;
    }
  }

  /** Strict lexicographic order on characters: `a` sorts before `b`. */
  predicate LexLess(a: string, b: string) {
    if |a| == 0 then |b| > 0
    else if |b| == 0 then false
    else if a[0] != b[0] then a[0] < b[0]
    else LexLess(a[1..], b[1..])
  }

  lemma {:induction false} LexLessIrreflexive(a: string)
    ensures !LexLess(a, a)
  {
    if |a| > 0 {
      LexLessIrreflexive(a[1..]);
    }
  }

  lemma {:induction false} LexLessAsymmetric(a: string, b: string)
    ensures LexLess(a, b) ==> !LexLess(b, a)
  {
    if |a| > 0 && |b| > 0 && a[0] == b[0] {
      LexLessAsymmetric(a[1..], b[1..]);
    }
  }

  lemma {:induction false} LexLessTransitive(a: string, b: string, c: string)
    ensures LexLess(a, b) && LexLess(b, c) ==> LexLess(a, c)
  {
    if |a| > 0 && |b| > 0 && |c| > 0 && a[0] == b[0] == c[0] {
      LexLessTransitive(a[1..], b[1..], c[1..]);
    }
  }

  lemma {:induction false} LexLessTotal(a: string, b: string)
    ensures a == b || LexLess(a, b) || LexLess(b, a)
  {
    if |a| > 0 && |b| > 0 && a[0] == b[0] {
      LexLessTotal(a[1..], b[1..]);
      if a[1..] == b[1..] {
        assert a == [a[0]] + a[1..] && b == [b[0]] + b[1..];
      }
    }
  }

  /** `a.localeCompare(b)`, taken as code-unit order: negative, zero or
      positive as `a` sorts before, equal to, or after `b`. */
  function LocaleCompare(a: string, b: string): (c: int)
    ensures c == 0 <==> a == b
    ensures c < 0 <==> LexLess(a, b)
    ensures c > 0 <==> LexLess(b, a)
    ensures -1 <= c <= 1
  {
    LexLessIrreflexive(a);
    LexLessAsymmetric(a, b);
    LexLessTotal(a, b);
    if a == b then 0 else if LexLess(a, b) then -1 else 1
  }
}
