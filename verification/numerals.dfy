/** The numeric text syntax of Python's `int(s)` (base 10), `float(s)` and
    `str(n)`, over ASCII digits. Float values are never computed: only the
    question "would `float(s)` accept this text" is modelled. */
module Numerals {
  import opened Results
  import opened Text

  predicate IsDigit(c: char) {
    '0' <= c <= '9'
  }

  function DigitValue(c: char): nat
    requires IsDigit(c)
  {
    c as int - '0' as int
  }

  function DigitChar(d: nat): (c: char)
    requires d < 10
    ensures IsDigit(c) && DigitValue(c) == d
  {
    ('0' as int + d) as char
  }

  predicate IsSign(c: char) {
    c == '+' || c == '-'
  }

  predicate DigitOrUnderscore(c: char) {
    IsDigit(c) || c == '_'
  }

  /** A digit group: digits, with single underscores allowed between two digits
      (`1_000` but not `_1`, `1_` or `1__0`). */
  predicate IsDigitPart(s: string)
    decreases |s|
  {
    && |s| > 0
    && IsDigit(s[0])
    && (|s| == 1 || if s[1] == '_' then IsDigitPart(s[2..]) else IsDigitPart(s[1..]))
  }

  lemma {:induction false} DigitPartCharacters(s: string)
    requires IsDigitPart(s)
    ensures forall i :: 0 <= i < |s| ==> DigitOrUnderscore(s[i])
    decreases |s|
  {
    if |s| > 1 {
      if s[1] == '_' {
        DigitPartCharacters(s[2..]);
        assert forall i :: 2 <= i < |s| ==> s[i] == s[2..][i - 2];
      } else {
        DigitPartCharacters(s[1..]);
        assert forall i :: 1 <= i < |s| ==> s[i] == s[1..][i - 1];
      }
    }
  }

  lemma {:induction false} DigitsArePart(s: string)
    requires |s| > 0
    requires forall i :: 0 <= i < |s| ==> IsDigit(s[i])
    ensures IsDigitPart(s)
    decreases |s|
  {
    if |s| > 1 {
      DigitsArePart(s[1..]);
    }
  }

  /** The number a digit group denotes; the underscores in it are skipped. */
  function DigitsValue(s: string): nat
    decreases |s|
  {
    if |s| == 0 then 0
    else
      var last := s[|s| - 1];
      if IsDigit(last) then 10 * DigitsValue(s[..|s| - 1]) + DigitValue(last)
      else DigitsValue(s[..|s| - 1])
  }

  /** An optional sign followed by a digit group. */
  predicate IsIntLiteral(t: string) {
    if |t| > 0 && IsSign(t[0]) then IsDigitPart(t[1..]) else IsDigitPart(t)
  }

  function LiteralValue(t: string): int
    requires IsIntLiteral(t)
  {
    if IsSign(t[0]) then
      var magnitude: int := DigitsValue(t[1..]);
      if t[0] == '-' then -magnitude else magnitude
    else DigitsValue(t)
  }

  // ---------------------------------------------------------------------------
  // The whitespace around a number
  // ---------------------------------------------------------------------------

  /** The whitespace `int()` and `float()` ignore around a number. CPython
      turns non-ASCII whitespace into a space and then strips only ASCII
      whitespace, so the separators U+001C to U+001F, which `str.isspace()`
      counts as whitespace, make the text no number. */
  predicate IsNumberSpace(c: char) {
    IsSpace(c) && !('\U{1c}' <= c <= '\U{1f}')
  }

  function TrimLeft(s: string): (r: string)
    ensures |r| <= |s| && r == s[|s| - |r|..]
    ensures |r| == 0 || !IsNumberSpace(r[0])
  {
    if |s| > 0 && IsNumberSpace(s[0]) then TrimLeft(s[1..]) else s
  }

  function TrimRight(s: string): (r: string)
    ensures |r| <= |s| && r == s[..|r|]
    ensures |r| == 0 || !IsNumberSpace(r[|r| - 1])
  {
    if |s| > 0 && IsNumberSpace(s[|s| - 1]) then TrimRight(s[..|s| - 1]) else s
  }

  /** The text a number is read from: the argument without the whitespace
      `int()` and `float()` ignore at either end. */
  function NumberStrip(s: string): (r: string)
    ensures |r| <= |s|
    ensures |r| == 0 || (!IsNumberSpace(r[0]) && !IsNumberSpace(r[|r| - 1]))
  {
    TrimRight(TrimLeft(s))
  }

  /** The number text is the middle of the argument, from `a` on, as it is. */
  lemma {:induction false} NumberStripIsMiddle(s: string)
    ensures var r, a := NumberStrip(s), |s| - |TrimLeft(s)|;
            && a + |r| <= |s|
            && (forall i :: 0 <= i < |r| ==> r[i] == s[a + i])
  {
    PrefixOfSuffix(s, TrimLeft(s), NumberStrip(s));
  }

  /** What is cut from either end of a number text is the whitespace `int()` and
      `float()` ignore, so exactly that whitespace is removed. */
  lemma {:induction false} NumberStripCutsSpace(s: string)
    ensures var r, a := NumberStrip(s), |s| - |TrimLeft(s)|;
            && (forall i :: 0 <= i < a ==> IsNumberSpace(s[i]))
            && (forall i :: a + |r| <= i < |s| ==> IsNumberSpace(s[i]))
  {
    TrimLeftRemovesSpace(s);
    TrimRightRemovesSpace(TrimLeft(s));
    PrefixOfSuffix(s, TrimLeft(s), NumberStrip(s));
  }

  /** What `TrimLeft` removes is whitespace of that kind. */
  lemma {:induction false} TrimLeftRemovesSpace(s: string)
    ensures forall i :: 0 <= i < |s| - |TrimLeft(s)| ==> IsNumberSpace(s[i])
    decreases |s|
  {
    if |s| > 0 && IsNumberSpace(s[0]) {
      var tail := s[1..];
      TrimLeftRemovesSpace(tail);
      forall i | 1 <= i < |s| - |TrimLeft(s)|
        ensures IsNumberSpace(s[i])
      {
        assert s[i] == tail[i - 1];
      }
    }
  }

  /** What `TrimRight` removes is whitespace of that kind. */
  lemma {:induction false} TrimRightRemovesSpace(s: string)
    ensures forall i :: |TrimRight(s)| <= i < |s| ==> IsNumberSpace(s[i])
    decreases |s|
  {
    if |s| > 0 && IsNumberSpace(s[|s| - 1]) {
      var init := s[..|s| - 1];
      TrimRightRemovesSpace(init);
      forall i | |TrimRight(s)| <= i < |s| - 1
        ensures IsNumberSpace(s[i])
      {
        assert s[i] == init[i];
      }
    }
  }

  lemma NumberStripUnchanged(s: string)
    requires |s| > 0 && !IsNumberSpace(s[0]) && !IsNumberSpace(s[|s| - 1])
    ensures NumberStrip(s) == s
  {
  }

  /** A digit followed by a separator character (U+001C to U+001F) is no
      integer, although `str.strip()` would take the separator off. */
  lemma SeparatorMakesNoInt(d: char, c: char)
    requires IsDigit(d) && '\U{1c}' <= c <= '\U{1f}'
    ensures Strip([d, c]) == [d] && !IsIntText([d, c])
  {
    var s := [d, c];
    NumberStripUnchanged(s);
    assert !IsSign(s[0]) && s[1] != '_' && s[1..] == [c];
    assert !IsDigitPart([c]);
    assert StripLeft(s) == s;
    assert IsSpace(s[1]) && s[..1] == [d];
    assert StripRight(s) == StripRight([d]) == [d];
  }

  // ---------------------------------------------------------------------------
  // int(s)
  // ---------------------------------------------------------------------------

  /** Whether `int(s)` succeeds: the whitespace of `IsNumberSpace` around it is ignored. */
  predicate IsIntText(s: string) {
    IsIntLiteral(NumberStrip(s))
  }

  /** `int(s)`; `None` where Python raises `ValueError`. */
  function ParseInt(s: string): (r: Option<int>)
    ensures r.Some? <==> IsIntText(s)
  {
    var t := NumberStrip(s);
    if IsIntLiteral(t) then Some(LiteralValue(t)) else None
  }

  function NatToString(n: nat): (s: string)
    ensures |s| > 0
    ensures forall i :: 0 <= i < |s| ==> IsDigit(s[i])
    ensures DigitsValue(s) == n
    ensures s[0] == '0' ==> n == 0 && s == "0"
  {
    if n < 10 then [DigitChar(n)]
    else
      var init := NatToString(n / 10);
      var s := init + [DigitChar(n % 10)];
      assert s[..|s| - 1] == init;
      s
  }

  /** `str(n)` for an integer: a minus sign exactly for a negative number,
      then the magnitude's decimal digits without leading zeros. */
  function IntToString(n: int): (s: string)
    ensures |s| > 0 && IsDigit(s[|s| - 1])
    ensures forall i :: 0 <= i < |s| ==> IsDigit(s[i]) || (i == 0 && s[i] == '-')
    ensures s[0] == '-' <==> n < 0
    ensures n >= 0 ==> DigitsValue(s) == n
    ensures n < 0 ==> DigitsValue(s[1..]) == -n && s[1] != '0'
    ensures s[0] == '0' ==> s == "0"
  {
    if n < 0 then "-" + NatToString(-n) else NatToString(n)
  }

  /** `int(str(n)) == n`. */
  lemma ParseIntRoundTrip(n: int)
    ensures ParseInt(IntToString(n)) == Some(n)
  {
    var s := IntToString(n);
    assert !IsNumberSpace(s[0]) && !IsNumberSpace(s[|s| - 1]);
    NumberStripUnchanged(s);
    if n < 0 {
      var digits := NatToString(-n);
      assert s[1..] == digits;
      DigitsArePart(digits);
      assert IsIntLiteral(s);
      assert LiteralValue(s) == n;
    } else {
      DigitsArePart(s);
      assert !IsSign(s[0]);
      assert IsIntLiteral(s);
    }
  }

  // ---------------------------------------------------------------------------
  // float(s)
  // ---------------------------------------------------------------------------

  predicate IsExponentMark(c: char) {
    c == 'e' || c == 'E'
  }

  /** Where a left-to-right scan of a decimal float literal stands: the
      integer part, the point, the fraction, the exponent, each digit group
      possibly just after one of its underscores. */
  datatype FloatScan =
    | Begin
    | Whole
    | WholeSep
    | BarePoint
    | WholePoint
    | Fraction
    | FractionSep
    | Mark
    | MarkSign
    | Exponent
    | ExponentSep
    | Reject

  /** Python's float grammar: `[digitpart] "." digitpart` or `digitpart ["."]`,
      optionally followed by `e`/`E`, an optional sign and a digit part. */
  function FloatStep(st: FloatScan, c: char): FloatScan {
    match st
    case Begin => if IsDigit(c) then Whole else if c == '.' then BarePoint else Reject
    case Whole =>
      if IsDigit(c) then Whole
      else if c == '_' then WholeSep
      else if c == '.' then WholePoint
      else if IsExponentMark(c) then Mark
      else Reject
    case WholeSep => if IsDigit(c) then Whole else Reject
    case BarePoint => if IsDigit(c) then Fraction else Reject
    case WholePoint => if IsDigit(c) then Fraction else if IsExponentMark(c) then Mark else Reject
    case Fraction =>
      if IsDigit(c) then Fraction
      else if c == '_' then FractionSep
      else if IsExponentMark(c) then Mark
      else Reject
    case FractionSep => if IsDigit(c) then Fraction else Reject
    case Mark => if IsDigit(c) then Exponent else if IsSign(c) then MarkSign else Reject
    case MarkSign => if IsDigit(c) then Exponent else Reject
    case Exponent => if IsDigit(c) then Exponent else if c == '_' then ExponentSep else Reject
    case ExponentSep => if IsDigit(c) then Exponent else Reject
    case Reject => Reject
  }

  function FloatRun(st: FloatScan, s: string): FloatScan
    decreases |s|
  {
    if |s| == 0 then st else FloatRun(FloatStep(st, s[0]), s[1..])
  }

  predicate Accepting(st: FloatScan) {
    st == Whole || st == WholePoint || st == Fraction || st == Exponent
  }

  predicate IsFloatNumber(r: string) {
    Accepting(FloatRun(Begin, r))
  }

  lemma {:induction false} RejectIsFinal(s: string)
    ensures FloatRun(Reject, s) == Reject
    decreases |s|
  {
    if |s| > 0 {
      RejectIsFinal(s[1..]);
    }
  }

  const SpecialFloats: set<string> := {"inf", "infinity", "nan"}

  /** Whether `float(s)` succeeds: the whitespace of `IsNumberSpace` around it,
      an optional sign, then a decimal number or (in any letter case) `inf`, `infinity`, `nan`.
      Blank text is rejected, and every text `int()` accepts is accepted too,
      which is why the auto-detection tries integers first. */
  function IsFloatText(s: string): (accepted: bool)
    ensures accepted ==> |NumberStrip(s)| > 0
    ensures IsIntText(s) ==> accepted
    ensures Lower(NumberStrip(s)) in SpecialFloats ==> accepted
  {
    var t := NumberStrip(s);
    var body := if |t| > 0 && IsSign(t[0]) then t[1..] else t;
    var accepted := Lower(body) in SpecialFloats || IsFloatNumber(body);
    BlankIsNoFloat();
    if Lower(t) in SpecialFloats then
      SpecialHasNoSign(t);
      accepted
    else if IsIntLiteral(t) then
      DigitPartScansAsWhole(Begin, body);
      accepted
    else accepted
  }

  lemma BlankIsNoFloat()
    ensures Lower("") !in SpecialFloats && !IsFloatNumber("")
  {
    assert Lower("") == "";
  }

  /** The special values start with a letter, so no sign is taken off them. */
  lemma SpecialHasNoSign(t: string)
    requires Lower(t) in SpecialFloats
    ensures |t| > 0 && !IsSign(t[0])
  {
    SpecialStartsWithLetter(Lower(t));
    LowerAt(t, 0);
  }

  lemma SpecialStartsWithLetter(l: string)
    requires l in SpecialFloats
    ensures |l| > 0 && (l[0] == 'i' || l[0] == 'n')
  {
  }

  /** Nor is it a float: the scan rejects the separator after the digit. */
  lemma SeparatorMakesNoFloat(d: char, c: char)
    requires IsDigit(d) && '\U{1c}' <= c <= '\U{1f}'
    ensures !IsFloatText([d, c])
  {
    var s := [d, c];
    NumberStripUnchanged(s);
    assert !IsSign(s[0]);
    assert FloatRun(Whole, s[1..]) == Reject by { assert s[1..][1..] == []; }
    assert FloatRun(Begin, s) == Reject;
    LowerAt(s, 0);
    if Lower(s) in SpecialFloats {
      SpecialStartsWithLetter(Lower(s));
    }
  }

  lemma {:induction false} DigitPartScansAsWhole(st: FloatScan, s: string)
    requires st == Begin || st == Whole || st == WholeSep
    requires IsDigitPart(s)
    ensures FloatRun(st, s) == Whole
    decreases |s|
  {
    if |s| > 1 {
      if s[1] == '_' {
        assert s[1..][1..] == s[2..];
        DigitPartScansAsWhole(WholeSep, s[2..]);
      } else {
        DigitPartScansAsWhole(Whole, s[1..]);
      }
    }
  }

  /** Text that starts with neither a sign, a digit nor a point is no
      integer, and no float unless it spells a special value. */
  lemma WordIsNotInt(t: string)
    requires NumberStrip(t) == t && |t| > 0
    requires !IsSign(t[0]) && !IsDigit(t[0])
    ensures !IsIntText(t)
  {
  }

  lemma WordIsNotFloat(t: string)
    requires NumberStrip(t) == t && |t| > 0
    requires !IsSign(t[0]) && !IsDigit(t[0]) && t[0] != '.'
    requires Lower(t) !in SpecialFloats
    ensures !IsFloatText(t)
  {
    NoLeadingDigitIsNoNumber(t);
  }

  lemma NoLeadingDigitIsNoNumber(t: string)
    requires |t| > 0 && !IsDigit(t[0]) && t[0] != '.'
    ensures !IsFloatNumber(t)
  {
    RejectIsFinal(t[1..]);
  }
}
