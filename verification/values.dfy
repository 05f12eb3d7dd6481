/** Configuration values and the two conversions `parse_argv` applies to a
    command-line value string: conversion to the type of an existing default
    (`convert_type`) and type auto-detection (`auto_convert_type`). */
module Values {
  import opened Results
  import opened Text
  import opened Numerals

  /** A Python value as it can occur in a configuration dict. A float is kept
      as the text it was read from; lists produced here hold strings. */
  datatype Value =
    | VNone
    | VBool(b: bool)
    | VInt(i: int)
    | VFloat(text: string)
    | VStr(s: string)
    | VList(items: seq<string>)
    | VDict(entries: map<string, Value>)

  /** `type(v)` for the values above. */
  datatype PyType = NoneType | BoolType | IntType | FloatType | StrType | ListType | DictType

  function TypeOf(v: Value): PyType {
    match v
    case VNone => NoneType
    case VBool(_) => BoolType
    case VInt(_) => IntType
    case VFloat(_) => FloatType
    case VStr(_) => StrType
    case VList(_) => ListType
    case VDict(_) => DictType
  }

  /** Why overlaying one argument fails: `int()` or `float()` rejected the
      text, or a dotted path ran into a value that is not a dict. */
  datatype Failure = BadInt(text: string) | BadFloat(text: string) | NotADict(segment: string)

  const TrueWords: set<string> := {"true", "1", "yes", "on"}
  const BoolWords: set<string> := {"true", "false"}

  /** The types `convert_type` converts to; any other type gets the raw string. */
  predicate IsConvertedType(t: PyType) {
    t == BoolType || t == IntType || t == FloatType || t == ListType
  }

  /** `convert_type(val_str, target_type)`. */
  function ConvertType(text: string, target: PyType): (r: Result<Value, Failure>)
    ensures r.Err? <==> (target == IntType && !IsIntText(text)) || (target == FloatType && !IsFloatText(text))
    ensures target == BoolType ==> r.Ok? && r.value.VBool? && (r.value.b <==> Lower(text) in TrueWords)
    ensures target == IntType && r.Ok? ==> r.value.VInt? && ParseInt(text) == Some(r.value.i)
    ensures target == FloatType && r.Ok? ==> r.value == VFloat(text)
    ensures target == ListType ==> r.Ok? && r.value.VList?
    ensures target == ListType ==> |r.value.items| >= 1 && Join(r.value.items, ',') == text
    ensures target == ListType ==> forall i :: 0 <= i < |r.value.items| ==> ',' !in r.value.items[i]
    ensures !IsConvertedType(target) ==> r == Ok(VStr(text))
    ensures r.Ok? && IsConvertedType(target) ==> TypeOf(r.value) == target
    ensures r.Err? ==> r.error == (if target == IntType then BadInt(text) else BadFloat(text))
  {
    match target
    case BoolType => Ok(VBool(Lower(text) in TrueWords))
    case IntType =>
      (match ParseInt(text)
       case Some(n) => Ok(VInt(n))
       case None => Err(BadInt(text)))
    case FloatType => if IsFloatText(text) then Ok(VFloat(text)) else Err(BadFloat(text))
    case ListType => Ok(VList(Split(text, ',')))
    case _ => Ok(VStr(text))
  }

  /** `auto_convert_type(val_str)`: bool, then int, then float, then a
      comma-separated list, then the plain string. Each outcome is described
      by the text alone. */
  function AutoConvert(text: string): (v: Value)
    ensures v.VBool? <==> Lower(text) in BoolWords
    ensures v.VBool? ==> (v.b <==> Lower(text) == "true")
    ensures v.VInt? <==> Lower(text) !in BoolWords && IsIntText(text)
    ensures v.VInt? ==> ParseInt(text) == Some(v.i)
    ensures v.VFloat? <==> Lower(text) !in BoolWords && !IsIntText(text) && IsFloatText(text)
    ensures v.VFloat? ==> v.text == text
    ensures v.VList? <==> Lower(text) !in BoolWords && !IsFloatText(text) && ',' in text
    ensures v.VList? ==> |v.items| >= 2 && Join(v.items, ',') == text
    ensures v.VList? ==> forall i :: 0 <= i < |v.items| ==> ',' !in v.items[i]
    ensures v.VStr? <==> Lower(text) !in BoolWords && !IsFloatText(text) && ',' !in text
    ensures v.VStr? ==> v.s == text
    ensures !v.VNone? && !v.VDict?
  {
    var lower := Lower(text);
    if lower in BoolWords then VBool(lower == "true")
    else
      match ParseInt(text)
      case Some(n) => VInt(n)
      case None =>
        if IsFloatText(text) then VFloat(text)
        else if ',' in text then
          VList(Split(text, ','))
        else VStr(text)
  }

  /** A digit followed by a separator character (U+001C to U+001F) is
      neither a number nor a list, so auto-detection keeps the string and an
      int default rejects it. */
  lemma SeparatorTextStaysString(d: char, c: char)
    requires IsDigit(d) && '\U{1c}' <= c <= '\U{1f}'
    ensures AutoConvert([d, c]) == VStr([d, c])
    ensures Coerce(VInt(0), [d, c]) == Err(BadInt([d, c]))
  {
    SeparatorMakesNoInt(d, c);
    SeparatorMakesNoFloat(d, c);
    LowerAt([d, c], 0);
  }

  /** The conversion both `set_nested_config` and the undotted branch of
      `parse_argv` apply: the value read from the dict picks the conversion,
      and `None` (a missing key reads as `None` too) means auto-detect. Only an
      int or float default can reject the text; a bool, int, float or list
      default keeps its type, any other default gives the raw string. */
  function Coerce(original: Value, text: string): (r: Result<Value, Failure>)
    ensures r.Err? <==> (original.VInt? && !IsIntText(text)) || (original.VFloat? && !IsFloatText(text))
    ensures r.Ok? && IsConvertedType(TypeOf(original)) ==> TypeOf(r.value) == TypeOf(original)
    ensures !original.VNone? && !IsConvertedType(TypeOf(original)) ==> r == Ok(VStr(text))
    ensures r.Ok? ==> !r.value.VDict? && !r.value.VNone?
  {
    if original.VNone? then Ok(AutoConvert(text)) else ConvertType(text, TypeOf(original))
  }

  /** What each default makes of the text: `None` auto-detects, a bool
      default tests the true words, an int default gives the number `int()`
      reads, a float default keeps the text, a list default splits on commas,
      and a rejected text names the conversion that rejected it. */
  lemma CoerceConverts(original: Value, text: string)
    ensures var r := Coerce(original, text);
            (original.VNone? ==> r == Ok(AutoConvert(text)))
            && (original.VBool? ==> r.Ok? && r.value.VBool? && (r.value.b <==> Lower(text) in TrueWords))
            && (original.VInt? && r.Ok? ==> r.value.VInt? && ParseInt(text) == Some(r.value.i))
            && (original.VFloat? && r.Ok? ==> r.value == VFloat(text))
            && (original.VList? ==> r.Ok? && r.value.VList? && |r.value.items| >= 1 && Join(r.value.items, ',') == text)
            && (original.VList? ==> forall i :: 0 <= i < |r.value.items| ==> ',' !in r.value.items[i])
            && (r.Err? ==> r.error == (if original.VInt? then BadInt(text) else BadFloat(text)))
  {
  }

  /** A list default splits the text on commas into pieces that join back to it. */
  lemma ListConversionRoundTrip(items: seq<string>, text: string)
    ensures Coerce(VList(items), text).Ok?
    ensures Join(Coerce(VList(items), text).value.items, ',') == text
    ensures forall i :: 0 <= i < |Coerce(VList(items), text).value.items| ==> ',' !in Coerce(VList(items), text).value.items[i]
  {
  }

  /** An int default accepts exactly the texts `int()` accepts, and `str(n)` gives back `n`. */
  lemma IntConversionRoundTrip(default: int, n: int)
    ensures Coerce(VInt(default), IntToString(n)) == Ok(VInt(n))
  {
    ParseIntRoundTrip(n);
  }

  lemma AutoConvertIntText(s: string)
    requires IsIntText(s) && Lower(s) != "true" && Lower(s) != "false"
    ensures AutoConvert(s) == VInt(ParseInt(s).value)
  {
  }

  lemma NumeralIsNotBoolWord(s: string)
    requires |s| > 0 && IsDigit(s[|s| - 1])
    ensures Lower(s) != "true" && Lower(s) != "false"
  {
    var lower := Lower(s);
    LowerAt(s, |s| - 1);
    assert lower[|lower| - 1] != 'e';
  }

  /** Auto-detection reads `str(n)` as the integer `n`, never as a float. */
  lemma AutoConvertReadsIntegers(n: int)
    ensures AutoConvert(IntToString(n)) == VInt(n)
  {
    var s := IntToString(n);
    ParseIntRoundTrip(n);
    NumeralIsNotBoolWord(s);
    AutoConvertIntText(s);
  }

  /** `true` in any letter case, the text a bare `--key` supplies being
      `"True"`: true against a bool default or no default, an error against
      an int or float default, a one-item list against a list default, and
      the string itself otherwise. */
  lemma CoerceTrueText(original: Value, t: string)
    requires Lower(t) == "true"
    ensures original.VBool? || original.VNone? ==> Coerce(original, t) == Ok(VBool(true))
    ensures original.VInt? ==> Coerce(original, t) == Err(BadInt(t))
    ensures original.VFloat? ==> Coerce(original, t) == Err(BadFloat(t))
    ensures original.VList? ==> Coerce(original, t) == Ok(VList([t]))
    ensures original.VStr? || original.VDict? ==> Coerce(original, t) == Ok(VStr(t))
  {
    match original
    case VNone => TrueTextAuto(t);
    case VBool(_) => TrueTextAgainstBool(t);
    case VInt(_) => TrueTextAgainstNumbers(t);
    case VFloat(_) => TrueTextAgainstNumbers(t);
    case VList(_) => TrueTextAgainstList(t);
    case _ =>
  }

  lemma TrueTextAgainstBool(t: string)
    requires Lower(t) == "true"
    ensures ConvertType(t, BoolType) == Ok(VBool(true))
  {
  }

  lemma TrueTextAgainstNumbers(t: string)
    requires Lower(t) == "true"
    ensures ConvertType(t, IntType) == Err(BadInt(t))
    ensures ConvertType(t, FloatType) == Err(BadFloat(t))
  {
    TrueTextIsNotANumber(t);
  }

  lemma TrueTextAgainstList(t: string)
    requires Lower(t) == "true"
    ensures ConvertType(t, ListType) == Ok(VList([t]))
  {
    TrueTextLetters(t);
    SplitWithoutSeparator(t, ',');
  }

  lemma TrueTextAuto(t: string)
    requires Lower(t) == "true"
    ensures AutoConvert(t) == VBool(true)
  {
  }

  lemma TrueTextIsNotANumber(t: string)
    requires Lower(t) == "true"
    ensures !IsIntText(t) && !IsFloatText(t) && ',' !in t
  {
    TrueTextLetters(t);
    NumberStripUnchanged(t);
    WordIsNotInt(t);
    WordIsNotFloat(t);
  }

  lemma TrueTextLetters(t: string)
    requires Lower(t) == "true"
    ensures |t| == 4 && (t[0] == 't' || t[0] == 'T') && (t[3] == 'e' || t[3] == 'E')
    ensures ',' !in t
  {
    LowerAt(t, 0);
    LowerAt(t, 1);
    LowerAt(t, 2);
    LowerAt(t, 3);
  }

  /** The text of a bare `--key`. */
  lemma BareFlagText()
    ensures Lower("True") == "true"
  {
    LowerAt("True", 0);
    LowerAt("True", 1);
    LowerAt("True", 2);
    LowerAt("True", 3);
  }
}
