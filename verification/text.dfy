/** Python `str` operations, restricted to what the configuration parser and
    the version ledger use: whitespace, lower-casing, splitting, joining,
    stripping, universal newlines and code-point ordering. */
module Text {

  /** Python's `str.isspace()`; `str.split()` and `str.strip()` use the same set. */
  predicate IsSpace(c: char) {
    || ('\t' <= c <= '\r')
    || ('\U{1c}' <= c <= '\U{1f}')
    || c == ' '
    || c == '\U{85}'
    || c == '\U{a0}'
    || c == '\U{1680}'
    || ('\U{2000}' <= c <= '\U{200a}')
    || c == '\U{2028}'
    || c == '\U{2029}'
    || c == '\U{202f}'
    || c == '\U{205f}'
    || c == '\U{3000}'
  }

  predicate NoSpace(s: string) {
    forall i :: 0 <= i < |s| ==> !IsSpace(s[i])
  }

  predicate AllSpace(s: string) {
    forall i :: 0 <= i < |s| ==> IsSpace(s[i])
  }

  function LowerChar(c: char): char {
    if 'A' <= c <= 'Z' then (c as int + 32) as char else c
  }

  /** `str.lower()` on ASCII letters; every other character is kept. */
  function Lower(s: string): (r: string)
    ensures |r| == |s|
  {
    if |s| == 0 then "" else [LowerChar(s[0])] + Lower(s[1..])
  }

  lemma {:induction false} LowerAt(s: string, i: nat)
    requires i < |s|
    ensures Lower(s)[i] == LowerChar(s[i])
    decreases i
  {
    if i > 0 {
      LowerAt(s[1..], i - 1);
    }
  }

  // ---------------------------------------------------------------------------
  // split(sep) and sep.join(...)
  // ---------------------------------------------------------------------------

  /** `sep.join(parts)`. */
  function Join(parts: seq<string>, sep: char): string
    requires |parts| >= 1
  {
    if |parts| == 1 then parts[0] else parts[0] + [sep] + Join(parts[1..], sep)
  }

  /** `s.split(sep)` for a one-character separator: never empty, joins back to
      `s`, and no piece holds the separator. */
  function Split(s: string, sep: char): (parts: seq<string>)
    ensures |parts| >= 1
    ensures sep in s ==> |parts| >= 2
    ensures Join(parts, sep) == s
    ensures forall i :: 0 <= i < |parts| ==> sep !in parts[i]
  {
    if |s| == 0 then [""]
    else
      var rest := Split(s[1..], sep);
      if s[0] == sep then
        assert s == [sep] + s[1..];
        [""] + rest
      else
        var parts := [[s[0]] + rest[0]] + rest[1..];
        assert parts[1..] == rest[1..];
        assert |rest| > 1 ==> Join(rest, sep) == rest[0] + [sep] + Join(rest[1..], sep);
        assert s == [s[0]] + s[1..];
        parts
  }

  lemma {:induction false} SplitWithoutSeparator(x: string, sep: char)
    requires sep !in x
    ensures Split(x, sep) == [x]
    decreases |x|
  {
    if |x| > 0 {
      SplitWithoutSeparator(x[1..], sep);
    }
  }

  lemma {:induction false} SplitAtSeparator(x: string, y: string, sep: char)
    requires sep !in x
    ensures Split(x + [sep] + y, sep) == [x] + Split(y, sep)
    decreases |x|
  {
    var s := x + [sep] + y;
    if |x| == 0 {
      assert s[1..] == y;
    } else {
      assert s[1..] == x[1..] + [sep] + y;
      SplitAtSeparator(x[1..], y, sep);
      assert [x[0]] + x[1..] == x;
    }
  }

  /** Splitting is the inverse of joining pieces that do not hold the separator. */
  lemma {:induction false} SplitJoin(parts: seq<string>, sep: char)
    requires |parts| >= 1
    requires forall i :: 0 <= i < |parts| ==> sep !in parts[i]
    ensures Split(Join(parts, sep), sep) == parts
    decreases |parts|
  {
    if |parts| == 1 {
      SplitWithoutSeparator(parts[0], sep);
    } else {
      SplitJoin(parts[1..], sep);
      SplitAtSeparator(parts[0], Join(parts[1..], sep), sep);
      assert [parts[0]] + parts[1..] == parts;
    }
  }

  // ---------------------------------------------------------------------------
  // Universal newlines
  // ---------------------------------------------------------------------------

  /** Text-mode reading: `\r\n` and a lone `\r` both become `\n`. */
  function Newlines(s: string): (r: string)
    ensures '\r' !in r
    ensures '\r' !in s ==> r == s
  {
    if |s| == 0 then ""
    else if s[0] == '\r' then
      if |s| > 1 && s[1] == '\n' then "\n" + Newlines(s[2..]) else "\n" + Newlines(s[1..])
    else
      assert s == [s[0]] + s[1..];
      [s[0]] + Newlines(s[1..])
  }

  /** Text before the first carriage return passes through unchanged. */
  lemma {:induction false} NewlinesKeepPrefix(x: string, y: string)
    requires '\r' !in x
    ensures Newlines(x + y) == x + Newlines(y)
    decreases |x|
  {
    if |x| == 0 {
      assert x + y == y;
    } else {
      assert x[0] != '\r' && (x + y)[0] == x[0] && (x + y)[1..] == x[1..] + y;
      assert Newlines(x + y) == [x[0]] + Newlines(x[1..] + y);
      NewlinesKeepPrefix(x[1..], y);
      assert [x[0]] + x[1..] == x;
    }
  }

  /** At the first carriage return, `\r\n` and a lone `\r` each become one
      `\n`, and reading goes on after them. */
  lemma NewlinesAtReturn(x: string, y: string)
    requires '\r' !in x
    ensures Newlines(x + "\r\n" + y) == x + "\n" + Newlines(y)
    ensures |y| == 0 || y[0] != '\n' ==> Newlines(x + "\r" + y) == x + "\n" + Newlines(y)
  {
    NewlinesAtCrLf(x, y);
    if |y| == 0 || y[0] != '\n' {
      NewlinesAtLoneCr(x, y);
    }
  }

  lemma NewlinesAtCrLf(x: string, y: string)
    requires '\r' !in x
    ensures Newlines(x + "\r\n" + y) == x + "\n" + Newlines(y)
  {
    var rest := "\r\n" + y;
    NewlinesKeepPrefix(x, rest);
    assert x + "\r\n" + y == x + rest;
    assert rest[0] == '\r' && rest[1] == '\n' && rest[2..] == y;
  }

  lemma NewlinesAtLoneCr(x: string, y: string)
    requires '\r' !in x && (|y| == 0 || y[0] != '\n')
    ensures Newlines(x + "\r" + y) == x + "\n" + Newlines(y)
  {
    var rest := "\r" + y;
    NewlinesKeepPrefix(x, rest);
    assert x + "\r" + y == x + rest;
    assert rest[0] == '\r' && rest[1..] == y;
  }

  // ---------------------------------------------------------------------------
  // strip() and split()
  // ---------------------------------------------------------------------------

  function StripLeft(s: string): (r: string)
    ensures |r| <= |s| && r == s[|s| - |r|..]
    ensures forall i :: 0 <= i < |s| - |r| ==> IsSpace(s[i])
    ensures |r| == 0 || !IsSpace(r[0])
  {
    if |s| > 0 && IsSpace(s[0]) then StripLeft(s[1..]) else s
  }

  function StripRight(s: string): (r: string)
    ensures |r| <= |s| && r == s[..|r|]
    ensures forall i :: |r| <= i < |s| ==> IsSpace(s[i])
    ensures |r| == 0 || !IsSpace(r[|r| - 1])
  {
    if |s| > 0 && IsSpace(s[|s| - 1]) then StripRight(s[..|s| - 1]) else s
  }

  /** `str.strip()`: the result starts and ends with a non-space character. */
  function Strip(s: string): (r: string)
    ensures |r| <= |s|
    ensures |r| == 0 || (!IsSpace(r[0]) && !IsSpace(r[|r| - 1]))
  {
    StripRight(StripLeft(s))
  }

  /** `str.strip()` keeps the middle of the text, from `a` on, as it is. */
  lemma {:induction false} StripIsMiddle(s: string)
    ensures var r, a := Strip(s), |s| - |StripLeft(s)|;
            && a + |r| <= |s|
            && (forall i :: 0 <= i < |r| ==> r[i] == s[a + i])
  {
    PrefixOfSuffix(s, StripLeft(s), Strip(s));
  }

  /** What `str.strip()` removes at either end is whitespace, so it removes
      exactly the leading and trailing whitespace. */
  lemma {:induction false} StripCutsSpace(s: string)
    ensures var r, a := Strip(s), |s| - |StripLeft(s)|;
            && (forall i :: 0 <= i < a ==> IsSpace(s[i]))
            && (forall i :: a + |r| <= i < |s| ==> IsSpace(s[i]))
  {
    PrefixOfSuffix(s, StripLeft(s), Strip(s));
  }

  /** Positions of a prefix `r` of a suffix `left` of `s`, and of what
      follows `r` in `left`, as positions of `s`. */
  lemma PrefixOfSuffix(s: string, left: string, r: string)
    requires |left| <= |s| && left == s[|s| - |left|..]
    requires |r| <= |left| && r == left[..|r|]
    ensures forall i :: 0 <= i < |r| ==> r[i] == s[|s| - |left| + i]
    ensures forall i :: |s| - |left| + |r| <= i < |s| ==> s[i] == left[i - (|s| - |left|)]
  {
  }

  lemma StripUnchanged(s: string)
    requires |s| > 0 && !IsSpace(s[0]) && !IsSpace(s[|s| - 1])
    ensures Strip(s) == s
  {
  }

  /** Length of the leading run of non-space characters. */
  function WordLength(s: string): (n: nat)
    ensures n <= |s|
    ensures forall i :: 0 <= i < n ==> !IsSpace(s[i])
    ensures n == |s| || IsSpace(s[n])
  {
    if |s| == 0 || IsSpace(s[0]) then 0 else 1 + WordLength(s[1..])
  }

  /** `str.split()` with no argument: the maximal runs of non-space characters. */
  function Fields(s: string): (fs: seq<string>)
    ensures forall i :: 0 <= i < |fs| ==> |fs[i]| > 0 && NoSpace(fs[i])
    decreases |s|
  {
    if |s| == 0 then []
    else if IsSpace(s[0]) then Fields(s[1..])
    else
      var n := WordLength(s);
      [s[..n]] + Fields(s[n..])
  }

  lemma {:induction false} WordLengthBeforeSpace(x: string, c: char, y: string)
    requires IsSpace(c)
    ensures WordLength(x + [c] + y) == WordLength(x)
    decreases |x|
  {
    var s := x + [c] + y;
    if |x| > 0 && !IsSpace(x[0]) {
      assert s[1..] == x[1..] + [c] + y;
      WordLengthBeforeSpace(x[1..], c, y);
    }
  }

  /** A whitespace character separates the fields on its two sides. */
  lemma {:induction false} FieldsSplitAtSpace(x: string, c: char, y: string)
    requires IsSpace(c)
    ensures Fields(x + [c] + y) == Fields(x) + Fields(y)
    decreases |x|, 1
  {
    if |x| == 0 {
      assert x + [c] + y == [c] + y;
      assert ([c] + y)[1..] == y;
    } else if IsSpace(x[0]) {
      FieldsSplitAfterSpace(x, c, y);
    } else {
      FieldsSplitAfterWord(x, c, y);
    }
  }

  lemma {:induction false} FieldsSplitAfterSpace(x: string, c: char, y: string)
    requires IsSpace(c) && |x| > 0 && IsSpace(x[0])
    ensures Fields(x + [c] + y) == Fields(x) + Fields(y)
    decreases |x|, 0
  {
    var s := x + [c] + y;
    assert s[1..] == x[1..] + [c] + y;
    FieldsSplitAtSpace(x[1..], c, y);
  }

  lemma {:induction false} FieldsSplitAfterWord(x: string, c: char, y: string)
    requires IsSpace(c) && |x| > 0 && !IsSpace(x[0])
    ensures Fields(x + [c] + y) == Fields(x) + Fields(y)
    decreases |x|, 0
  {
    var s := x + [c] + y;
    var n := WordLength(x);
    WordLengthBeforeSpace(x, c, y);
    assert s[..n] == x[..n];
    assert s[n..] == x[n..] + [c] + y;
    FieldsSplitAtSpace(x[n..], c, y);
  }

  lemma {:induction false} FieldsOfSpaces(s: string)
    requires AllSpace(s)
    ensures Fields(s) == []
    decreases |s|
  {
    if |s| > 0 {
      FieldsOfSpaces(s[1..]);
    }
  }

  lemma {:induction false} WordLengthOfWord(w: string)
    requires NoSpace(w)
    ensures WordLength(w) == |w|
    decreases |w|
  {
    if |w| > 0 {
      WordLengthOfWord(w[1..]);
    }
  }

  lemma {:induction false} FieldsOfWord(w: string)
    requires |w| > 0 && NoSpace(w)
    ensures Fields(w) == [w]
  {
    WordLengthOfWord(w);
    assert w[..|w|] == w;
    assert w[|w|..] == "";
  }

  lemma {:induction false} FieldsStripLeft(s: string)
    ensures Fields(StripLeft(s)) == Fields(s)
    decreases |s|
  {
    if |s| > 0 && IsSpace(s[0]) {
      FieldsStripLeft(s[1..]);
    }
  }

  lemma FieldsStripRight(s: string)
    ensures Fields(StripRight(s)) == Fields(s)
  {
    var r := StripRight(s);
    if |r| < |s| {
      var y := s[|r| + 1..];
      assert s == r + [s[|r|]] + y;
      FieldsSplitAtSpace(r, s[|r|], y);
      FieldsOfSpaces(y);
    }
  }

  /** Stripping a line first does not change how `split()` divides it. */
  lemma FieldsOfStrip(s: string)
    ensures Fields(Strip(s)) == Fields(s)
  {
    FieldsStripLeft(s);
    FieldsStripRight(StripLeft(s));
  }

  // ---------------------------------------------------------------------------
  // Code-point ordering of strings (Python's `<` on `str`)
  // ---------------------------------------------------------------------------

  predicate LexLess(a: string, b: string) {
    if |a| == 0 then |b| > 0
    else if |b| == 0 then false
    else if a[0] != b[0] then a[0] < b[0]
    else LexLess(a[1..], b[1..])
  }

  lemma LexLessIrreflexive(a: string)
    ensures !LexLess(a, a)
  {
  }

  lemma LexLessAsymmetric(a: string, b: string)
    ensures LexLess(a, b) ==> !LexLess(b, a)
  {
  }

  lemma LexLessTransitive(a: string, b: string, c: string)
    requires LexLess(a, b) && LexLess(b, c)
    ensures LexLess(a, c)
  {
  }

  lemma {:induction false} LexLessTotal(a: string, b: string)
    ensures a == b || LexLess(a, b) || LexLess(b, a)
    decreases |a|
  {
    if |a| > 0 && |b| > 0 && a[0] == b[0] {
      LexLessTotal(a[1..], b[1..]);
      if a[1..] == b[1..] {
        assert a == [a[0]] + a[1..] && b == [b[0]] + b[1..];
      }
    }
  }
}
