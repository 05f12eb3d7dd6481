/** `parse_argv`: the help check, the left-to-right token scan, and the
    overlay of every `--key [value]` pair onto the configuration dict. The
    argument list is a parameter instead of `sys.argv[1:]`, and the outcome
    is a value instead of printing and exiting. */
module Argv {
  import opened Results
  import opened Text
  import opened Numerals
  import opened Values
  import opened ConfigTree

  /** One `--key value` pair as the scan reads it; `text` is the raw value string. */
  datatype Assignment = Assignment(key: string, text: string)

  /** Help was requested; or the overlaid dict; or the error Python would raise. */
  datatype Outcome = Help | Parsed(config: Tree) | ParseError(failure: Failure)

  /** `token.startswith('--')`. */
  predicate IsFlag(token: string) {
    "--" <= token
  }

  predicate HelpRequested(args: seq<string>) {
    "--help" in args || "-h" in args
  }

  /** The value string a flag at position `p` receives: the next token when
      there is one and it is not itself a flag, otherwise `"True"`. */
  function ValueAfter(args: seq<string>, p: nat): string
    requires p < |args|
  {
    if p + 1 < |args| && !IsFlag(args[p + 1]) then args[p + 1] else "True"
  }

  /** The token loop of `parse_argv`, reading pairs from cursor `i` on. At
      most one pair per token is read, and no value string is itself a flag. */
  function Scan(args: seq<string>, i: nat): (r: seq<Assignment>)
    requires i <= |args|
    ensures |r| <= |args| - i
    ensures forall j :: 0 <= j < |r| ==> !IsFlag(r[j].text)
    decreases |args| - i
  {
    if i == |args| then []
    else if IsFlag(args[i]) then
      var key := args[i][2..];
      if i + 1 < |args| && !IsFlag(args[i + 1]) then
        [Assignment(key, args[i + 1])] + Scan(args, i + 2)
      else
        assert "True"[0] != "--"[0];
        [Assignment(key, "True")] + Scan(args, i + 1)
    else
      Scan(args, i + 1)
  }

  /** Overlays one pair: a dotted key walks the nested dicts, an undotted key
      is set on the top-level dict. Either way the key's path afterwards holds
      the text converted against what it held before, and the top level gains
      at most the path's first segment. */
  function Apply(t: Tree, a: Assignment): (r: Result<Tree, Failure>)
    ensures r.Ok? ==> r.value.Keys == t.Keys + {Split(a.key, '.')[0]}
    ensures r.Ok? ==> Coerce(ValueAt(t, Split(a.key, '.')), a.text).Ok?
    ensures r.Ok? ==> Lookup(r.value, Split(a.key, '.')) == Some(Coerce(ValueAt(t, Split(a.key, '.')), a.text).value)
  {
    if '.' in a.key then
      var path := Split(a.key, '.');
      var r := SetPath(t, path, a.text);
      if r.Ok? then
        SetPathThenLookup(t, path, a.text);
        r
      else r
    else
      SplitWithoutSeparator(a.key, '.');
      SetTopLevel(t, a.key, a.text)
  }

  /** Overlays the pairs in order; the first failure ends the parse. Keys are
      only ever added, never removed. */
  function ApplyAll(t: Tree, pairs: seq<Assignment>): (r: Result<Tree, Failure>)
    ensures r.Ok? ==> t.Keys <= r.value.Keys
    decreases |pairs|
  {
    if |pairs| == 0 then Ok(t)
    else
      match Apply(t, pairs[0])
      case Ok(t') => ApplyAll(t', pairs[1..])
      case Err(e) => Err(e)
  }

  /** `parse_argv(config)` with `sys.argv[1:] == args`. A help token anywhere,
      even where a value is expected, means help and nothing is overlaid;
      a parse never removes a key of the defaults. */
  function ParseArgv(config: Tree, args: seq<string>): (r: Outcome)
    ensures r.Help? <==> HelpRequested(args)
    ensures r.Parsed? ==> config.Keys <= r.config.Keys
  {
    if HelpRequested(args) then Help
    else
      match ApplyAll(config, Scan(args, 0))
      case Ok(t) => Parsed(t)
      case Err(e) => ParseError(e)
  }

  /** The same loop, written as the source writes it: a cursor that moves by
      two after a key with a value and by one otherwise. */
  method ParseArgvLoop(config: Tree, args: seq<string>) returns (r: Outcome)
    ensures r == ParseArgv(config, args)
  {
    if "--help" in args || "-h" in args {
      return Help;
    }
    var cfg := config;
    var i := 0;
    while i < |args|
      invariant 0 <= i <= |args|
      invariant ApplyAll(cfg, Scan(args, i)) == ApplyAll(config, Scan(args, 0))
      decreases |args| - i
    {
      if IsFlag(args[i]) {
        var at := i;
        var key := args[i][2..];
        var text;
        if i + 1 < |args| && !IsFlag(args[i + 1]) {
          text := args[i + 1];
          i := i + 2;
        } else {
          text := "True";
          i := i + 1;
        }
        var step;
        if '.' in key {
          step := SetPath(cfg, Split(key, '.'), text);
        } else {
          step := SetTopLevel(cfg, key, text);
        }
        StepIsApply(cfg, key, text);
        ScanReadsPair(args, at, i);
        ApplyAllCons(cfg, PairAt(args, at), Scan(args, i));
        if step.Err? {
          return ParseError(step.error);
        }
        cfg := step.value;
      } else {
        i := i + 1;
      }
    }
    return Parsed(cfg);
  }

  /** The loop body's two branches are the two branches of `Apply`. */
  lemma StepIsApply(t: Tree, key: string, text: string)
    ensures Apply(t, Assignment(key, text))
         == if '.' in key then SetPath(t, Split(key, '.'), text) else SetTopLevel(t, key, text)
  {
  }

  /** At a flag the scan reads one pair and resumes after its value, if any. */
  lemma ScanReadsPair(args: seq<string>, p: nat, next: nat)
    requires p < |args| && IsFlag(args[p])
    requires next == if p + 1 < |args| && !IsFlag(args[p + 1]) then p + 2 else p + 1
    ensures Scan(args, p) == [PairAt(args, p)] + Scan(args, next)
  {
  }

  lemma ApplyAllCons(t: Tree, a: Assignment, rest: seq<Assignment>)
    ensures Apply(t, a).Ok? ==> ApplyAll(t, [a] + rest) == ApplyAll(Apply(t, a).value, rest)
    ensures Apply(t, a).Err? ==> ApplyAll(t, [a] + rest) == Err(Apply(t, a).error)
  {
    assert ([a] + rest)[0] == a && ([a] + rest)[1..] == rest;
  }

  // ---------------------------------------------------------------------------
  // The scan reads every flag, in order, with the value that follows it
  // ---------------------------------------------------------------------------

  /** The positions from `i` on whose token starts with `--`, in increasing order. */
  function FlagPositions(args: seq<string>, i: nat): (ps: seq<nat>)
    requires i <= |args|
    ensures forall j :: 0 <= j < |ps| ==> i <= ps[j] < |args| && IsFlag(args[ps[j]])
    ensures forall j, k :: 0 <= j < k < |ps| ==> ps[j] < ps[k]
    ensures forall p :: i <= p < |args| && IsFlag(args[p]) ==> p in ps
    decreases |args| - i
  {
    if i == |args| then []
    else if IsFlag(args[i]) then [i] + FlagPositions(args, i + 1)
    else FlagPositions(args, i + 1)
  }

  function PairAt(args: seq<string>, p: nat): Assignment
    requires p < |args| && IsFlag(args[p])
  {
    Assignment(args[p][2..], ValueAfter(args, p))
  }

  /** The `j`-th pair is the one read at the `j`-th position, which holds a flag. */
  predicate ReadAt(args: seq<string>, pairs: seq<Assignment>, ps: seq<nat>) {
    |pairs| == |ps| &&
    forall j :: 0 <= j < |pairs| ==> ps[j] < |args| && IsFlag(args[ps[j]]) && pairs[j] == PairAt(args, ps[j])
  }

  lemma ReadAtCons(args: seq<string>, pairs: seq<Assignment>, ps: seq<nat>, p: nat)
    requires ReadAt(args, pairs, ps)
    requires p < |args| && IsFlag(args[p])
    ensures ReadAt(args, [PairAt(args, p)] + pairs, [p] + ps)
  {
    var pairs' := [PairAt(args, p)] + pairs;
    var ps' := [p] + ps;
    forall j | 1 <= j < |pairs'|
      ensures ps'[j] < |args| && IsFlag(args[ps'[j]]) && pairs'[j] == PairAt(args, ps'[j])
    {
      assert pairs'[j] == pairs[j - 1] && ps'[j] == ps[j - 1];
    }
  }

  /** The pairs the scan reads are exactly the flag tokens, in order, each
      with the key after its `--` and the value that follows it: a token
      taken as a value is never a flag, so moving the cursor by two never
      skips a key, and any other token is ignored. */
  lemma {:induction false} ScanReadsEveryFlag(args: seq<string>, i: nat)
    requires i <= |args|
    ensures ReadAt(args, Scan(args, i), FlagPositions(args, i))
    decreases |args| - i
  {
    if i < |args| {
      if IsFlag(args[i]) {
        var next := if i + 1 < |args| && !IsFlag(args[i + 1]) then i + 2 else i + 1;
        ScanReadsEveryFlag(args, next);
        if next == i + 2 {
          assert FlagPositions(args, i + 1) == FlagPositions(args, i + 2);
        }
        ReadAtCons(args, Scan(args, next), FlagPositions(args, next), i);
      } else {
        ScanReadsEveryFlag(args, i + 1);
      }
    }
  }

  // ---------------------------------------------------------------------------
  // Overlay properties
  // ---------------------------------------------------------------------------

  /** The key path a pair addresses. */
  function PathOf(a: Assignment): (path: seq<string>)
    ensures |path| >= 1
  {
    Split(a.key, '.')
  }

  /** The undotted branch gives what `set_nested_config` gives for the
      one-segment path, so every pair is one path assignment. */
  lemma ApplyIsSetPath(t: Tree, a: Assignment)
    ensures Apply(t, a) == SetPath(t, PathOf(a), a.text)
  {
    if '.' !in a.key {
      SplitWithoutSeparator(a.key, '.');
    }
  }

  /** A successful parse leaves every path unrelated to all the keys given
      on the command line as it was in the defaults. */
  lemma {:induction false} ApplyAllFrame(t: Tree, pairs: seq<Assignment>, q: seq<string>)
    requires |q| >= 1
    requires ApplyAll(t, pairs).Ok?
    requires forall j :: 0 <= j < |pairs| ==> Unrelated(PathOf(pairs[j]), q)
    ensures Lookup(ApplyAll(t, pairs).value, q) == Lookup(t, q)
    decreases |pairs|
  {
    if |pairs| > 0 {
      ApplyIsSetPath(t, pairs[0]);
      SetPathFrame(t, PathOf(pairs[0]), pairs[0].text, q);
      ApplyAllFrame(Apply(t, pairs[0]).value, pairs[1..], q);
    }
  }

  lemma {:induction false} ApplyAllAppend(t: Tree, pairs: seq<Assignment>, a: Assignment)
    ensures ApplyAll(t, pairs + [a]) ==
              match ApplyAll(t, pairs)
              case Ok(t') => Apply(t', a)
              case Err(e) => Err(e)
    decreases |pairs|
  {
    if |pairs| == 0 {
      assert pairs + [a] == [a];
    } else {
      assert (pairs + [a])[1..] == pairs[1..] + [a];
      match Apply(t, pairs[0])
      case Ok(t') => ApplyAllAppend(t', pairs[1..], a);
      case Err(_) =>
    }
  }

  /** When a key is given more than once, the last value given is the one that stays. */
  lemma ApplyAllLastWins(t: Tree, pairs: seq<Assignment>, last: Assignment)
    requires ApplyAll(t, pairs + [last]).Ok?
    ensures ApplyAll(t, pairs).Ok?
    ensures Coerce(ValueAt(ApplyAll(t, pairs).value, PathOf(last)), last.text).Ok?
    ensures Lookup(ApplyAll(t, pairs + [last]).value, PathOf(last)) ==
              Some(Coerce(ValueAt(ApplyAll(t, pairs).value, PathOf(last)), last.text).value)
  {
    ApplyAllAppend(t, pairs, last);
    var before := ApplyAll(t, pairs).value;
    ApplyIsSetPath(before, last);
    SetPathThenLookup(before, PathOf(last), last.text);
  }

  // ---------------------------------------------------------------------------
  // Example runs
  // ---------------------------------------------------------------------------

  lemma ScanKeyValue(flag: string, value: string)
    requires IsFlag(flag) && !IsFlag(value)
    ensures Scan([flag, value], 0) == [Assignment(flag[2..], value)]
  {
    assert Scan([flag, value], 2) == [];
  }

  lemma ScanBareFlag(flag: string)
    requires IsFlag(flag)
    ensures Scan([flag], 0) == [Assignment(flag[2..], "True")]
  {
    assert Scan([flag], 1) == [];
  }

  lemma NoHelpToken(x: string)
    requires x != "--help" && x != "-h"
    ensures !HelpRequested([x])
  {
    assert [x][0] == x;
  }

  lemma NoHelpTokens(x: string, y: string)
    requires x != "--help" && x != "-h" && y != "--help" && y != "-h"
    ensures !HelpRequested([x, y])
  {
    assert [x, y][0] == x && [x, y][1] == y;
  }

  /** One undotted pair overlaid on a dict whose default converts. */
  lemma OneTopLevelPair(t: Tree, args: seq<string>, a: Assignment, v: Value)
    requires !HelpRequested(args) && Scan(args, 0) == [a]
    requires '.' !in a.key && Coerce(Get(t, a.key), a.text) == Ok(v)
    ensures ParseArgv(t, args) == Parsed(t[a.key := v])
  {
    ApplyOnePair(t, a, v);
  }

  lemma ApplyOnePair(t: Tree, a: Assignment, v: Value)
    requires '.' !in a.key && Coerce(Get(t, a.key), a.text) == Ok(v)
    ensures ApplyAll(t, [a]) == Ok(t[a.key := v])
  {
    TopLevelPair(t, a, v);
    assert [a][1..] == [];
  }

  lemma TopLevelPair(t: Tree, a: Assignment, v: Value)
    requires '.' !in a.key && Coerce(Get(t, a.key), a.text) == Ok(v)
    ensures Apply(t, a) == Ok(t[a.key := v])
  {
  }

  /** The flag token for a key. */
  lemma FlagOf(key: string)
    requires key != "help"
    ensures IsFlag("--" + key) && ("--" + key)[2..] == key
    ensures "--" + key != "--help" && "--" + key != "-h"
  {
    var f := "--" + key;
    assert f[..2] == "--" && f[2..] == key;
    assert f[1] == '-';
  }

  /** A bare `--key` overlaid on a dict whose default for the key converts `"True"`. */
  lemma BareFlagRun(t: Tree, key: string, v: Value)
    requires '.' !in key && key != "help"
    requires Coerce(Get(t, key), "True") == Ok(v)
    ensures ParseArgv(t, ["--" + key]) == Parsed(t[key := v])
  {
    FlagOf(key);
    ScanBareFlag("--" + key);
    NoHelpToken("--" + key);
    OneTopLevelPair(t, ["--" + key], Assignment(key, "True"), v);
  }

  /** A bare `--debug` against a false default sets it to true. */
  lemma DebugFlagRun()
    ensures ParseArgv(map["debug" := VBool(false)], ["--debug"]) == Parsed(map["debug" := VBool(true)])
  {
    var t := map["debug" := VBool(false)];
    DebugKey();
    DebugDefault(t);
    BareFlagRun(t, "debug", VBool(true));
    OverwriteTwice(map[], "debug", VBool(false), VBool(true));
  }

  lemma DebugKey()
    ensures "--" + "debug" == "--debug" && '.' !in "debug" && "debug" != "help"
  {
    assert "debug"[0] != "help"[0];
  }

  lemma DebugDefault(t: Tree)
    requires t == map["debug" := VBool(false)]
    ensures Coerce(Get(t, "debug"), "True") == Ok(VBool(true))
  {
    BareFlagText();
    CoerceTrueText(VBool(false), "True");
  }

  /** `--key value` overlaid on a dict whose default for the key converts. */
  lemma KeyValueRun(t: Tree, key: string, value: string, v: Value)
    requires '.' !in key && key != "help"
    requires !IsFlag(value) && value != "-h"
    requires Coerce(Get(t, key), value) == Ok(v)
    ensures ParseArgv(t, ["--" + key, value]) == Parsed(t[key := v])
  {
    FlagOf(key);
    NotAFlagIsNoHelp(value);
    ScanKeyValue("--" + key, value);
    NoHelpTokens("--" + key, value);
    OneTopLevelPair(t, ["--" + key, value], Assignment(key, value), v);
  }

  /** `--key text` against a list default gives the comma-separated pieces of
      the text, whatever items the default held. */
  lemma ListFlagRun(t: Tree, key: string, items: seq<string>, text: string)
    requires '.' !in key && key != "help"
    requires !IsFlag(text) && text != "-h"
    ensures ParseArgv(t[key := VList(items)], ["--" + key, text]) == Parsed(t[key := VList(Split(text, ','))])
  {
    ListDefault(items, text, Split(text, ','));
    KeyValueRun(t[key := VList(items)], key, text, VList(Split(text, ',')));
    OverwriteTwice(t, key, VList(items), VList(Split(text, ',')));
  }

  lemma OverwriteTwice(t: Tree, key: string, v: Value, w: Value)
    ensures t[key := v][key := w] == t[key := w]
  {
  }

  /** `--a x --b.c y` against a float default at `a` and an int default at
      `b.c`: the float keeps the text given, and the nested int becomes the
      number `int()` reads, with every other key left alone. */
  lemma FloatAndNestedIntRun(t: Tree, a: string, x: string, b: string, c: string, y: string, m: Tree)
    requires '.' !in a && '.' !in b && '.' !in c && a != "help"
    requires a in t && t[a].VFloat? && b in t && t[b] == VDict(m) && c in m && m[c].VInt?
    requires IsFloatText(x) && IsIntText(y)
    requires !IsFlag(x) && !IsFlag(y) && x != "-h" && y != "-h"
    ensures ParseArgv(t, ["--" + a, x, "--" + b + "." + c, y])
         == Parsed(t[a := VFloat(x)][b := VDict(m[c := VInt(ParseInt(y).value)])])
  {
    var dotted := b + "." + c;
    DottedKey(b, c);
    var p, q := Assignment(a, x), Assignment(dotted, y);
    var t1 := t[a := VFloat(x)];
    var t2 := t1[b := VDict(m[c := VInt(ParseInt(y).value)])];
    FloatDefault(t, a, x);
    TopLevelPair(t, p, VFloat(x));
    IntDefault(m, c, y);
    NestedPair(t1, b, c, y, m, VInt(ParseInt(y).value));
    ApplyTwo(t, p, q, t1, t2);
    TwoPairsParse(t, a, x, dotted, y, t2);
  }

  lemma DottedKey(b: string, c: string)
    ensures "--" + b + "." + c == "--" + (b + "." + c)
    ensures b + "." + c != "help"
  {
    var dotted := b + "." + c;
    assert dotted[|b|] == '.';
  }

  lemma FloatDefault(t: Tree, a: string, x: string)
    requires a in t && t[a].VFloat? && IsFloatText(x)
    ensures Coerce(Get(t, a), x) == Ok(VFloat(x))
  {
  }

  lemma IntDefault(m: Tree, c: string, y: string)
    requires c in m && m[c].VInt? && IsIntText(y)
    ensures Coerce(Get(m, c), y) == Ok(VInt(ParseInt(y).value))
  {
  }

  /** Two `--key value` pairs parse to what applying them in order gives. */
  lemma TwoPairsParse(t: Tree, k1: string, v1: string, k2: string, v2: string, t2: Tree)
    requires k1 != "help" && k2 != "help"
    requires !IsFlag(v1) && !IsFlag(v2) && v1 != "-h" && v2 != "-h"
    requires ApplyAll(t, [Assignment(k1, v1), Assignment(k2, v2)]) == Ok(t2)
    ensures ParseArgv(t, ["--" + k1, v1, "--" + k2, v2]) == Parsed(t2)
  {
    FlagOf(k1);
    FlagOf(k2);
    NotAFlagIsNoHelp(v1);
    NotAFlagIsNoHelp(v2);
    ScanTwoPairs("--" + k1, v1, "--" + k2, v2);
    NoHelpInFour("--" + k1, v1, "--" + k2, v2);
  }

  lemma NotAFlagIsNoHelp(v: string)
    requires !IsFlag(v)
    ensures v != "--help"
  {
    assert "--help"[..2] == "--";
  }

  lemma ScanTwoPairs(f1: string, v1: string, f2: string, v2: string)
    requires IsFlag(f1) && !IsFlag(v1) && IsFlag(f2) && !IsFlag(v2)
    ensures Scan([f1, v1, f2, v2], 0) == [Assignment(f1[2..], v1), Assignment(f2[2..], v2)]
  {
    var args := [f1, v1, f2, v2];
    assert Scan(args, 4) == [];
    assert Scan(args, 2) == [Assignment(f2[2..], v2)];
  }

  lemma NoHelpInFour(w: string, x: string, y: string, z: string)
    requires w != "--help" && w != "-h" && x != "--help" && x != "-h"
    requires y != "--help" && y != "-h" && z != "--help" && z != "-h"
    ensures !HelpRequested([w, x, y, z])
  {
    var args := [w, x, y, z];
    assert forall i :: 0 <= i < 4 ==> args[i] != "--help" && args[i] != "-h";
  }

  /** A dotted `b.c` pair sets `c` inside the dict at `b`. */
  lemma NestedPair(t: Tree, b: string, c: string, y: string, m: Tree, v: Value)
    requires '.' !in b && '.' !in c && b in t && t[b] == VDict(m)
    requires Coerce(Get(m, c), y) == Ok(v)
    ensures Apply(t, Assignment(b + "." + c, y)) == Ok(t[b := VDict(m[c := v])])
  {
    DottedPath(b, c);
    SetTwoSegments(t, b, c, y, m, v);
  }

  lemma DottedPath(b: string, c: string)
    requires '.' !in b && '.' !in c
    ensures '.' in b + "." + c && Split(b + "." + c, '.') == [b, c]
  {
    SplitWithoutSeparator(c, '.');
    SplitAtSeparator(b, c, '.');
    assert b + "." + c == b + ['.'] + c;
    assert (b + "." + c)[|b|] == '.';
  }

  lemma ApplyTwo(t: Tree, p: Assignment, q: Assignment, t1: Tree, t2: Tree)
    requires Apply(t, p) == Ok(t1) && Apply(t1, q) == Ok(t2)
    ensures ApplyAll(t, [p, q]) == Ok(t2)
  {
    ApplyAllAppend(t, [p], q);
    assert [p] + [q] == [p, q];
    assert [p][1..] == [];
  }

  lemma ListDefault(items: seq<string>, text: string, parts: seq<string>)
    requires Split(text, ',') == parts
    ensures Coerce(VList(items), text) == Ok(VList(parts))
  {
  }

  lemma ThreePieces()
    ensures Split("x,y,z", ',') == ["x", "y", "z"]
  {
    SplitWithoutSeparator("z", ',');
    SplitAtSeparator("y", "z", ',');
    assert "y" + [','] + "z" == "y,z";
    SplitAtSeparator("x", "y,z", ',');
    assert "x" + [','] + "y,z" == "x,y,z";
  }

  /** `--lr 0.5 --model.layers 8` over `{"lr": 0.1, "model": {"layers": 4}}`
      gives `{"lr": 0.5, "model": {"layers": 8}}`: the float default keeps
      the text given and the nested int default is read by `int()`. The
      literals come in through `requires` equalities, because Dafny unfolds
      `ParseArgv` on literal arguments beyond the resource limit. */
  lemma LearningRateAndLayersRun(t: Tree, args: seq<string>)
    requires t == map["lr" := VFloat("0.1"), "model" := VDict(map["layers" := VInt(4)])]
    requires args == ["--lr", "0.5", "--model.layers", "8"]
    ensures ParseArgv(t, args) == Parsed(map["lr" := VFloat("0.5"), "model" := VDict(map["layers" := VInt(8)])])
  {
    var m := map["layers" := VInt(4)];
    ExampleKeys();
    ExampleTree(t, m);
    ExampleTexts();
    ExampleArgs(args);
    FloatAndNestedIntRun(t, "lr", "0.5", "model", "layers", "8", m);
    ExampleResult(t, m);
  }

  lemma ExampleTree(t: Tree, m: Tree)
    requires t == map["lr" := VFloat("0.1"), "model" := VDict(map["layers" := VInt(4)])]
    requires m == map["layers" := VInt(4)]
    ensures "lr" in t && t["lr"].VFloat? && "model" in t && t["model"] == VDict(m) && "layers" in m && m["layers"].VInt?
  {
  }

  lemma ExampleTexts()
    ensures IsFloatText("0.5") && IsIntText("8") && ParseInt("8") == Some(8)
    ensures !IsFlag("0.5") && !IsFlag("8") && "0.5" != "-h" && "8" != "-h"
  {
    HalfIsFloatText("0.5");
    EightIsIntText();
    ExampleValuesAreNoFlags();
  }

  lemma ExampleArgs(args: seq<string>)
    requires args == ["--lr", "0.5", "--model.layers", "8"]
    ensures ["--" + "lr", "0.5", "--" + "model" + "." + "layers", "8"] == args
  {
    ExampleKeys();
  }

  lemma ExampleKeys()
    ensures '.' !in "lr" && '.' !in "model" && '.' !in "layers"
    ensures "lr" != "model" && "lr" != "help"
    ensures "--" + "model" + "." + "layers" == "--model.layers" && "--" + "lr" == "--lr"
  {
    assert "lr"[0] != "model"[0] && "lr"[0] != "help"[0];
  }

  lemma HalfIsFloatText(x: string)
    requires x == "0.5"
    ensures IsFloatText(x)
  {
    assert |x| == 3 && x[0] == '0' && x[1] == '.' && x[2] == '5';
    NumberStripUnchanged(x);
    assert !IsSign(x[0]);
    assert FloatRun(Fraction, x[3..]) == Fraction;
    assert FloatRun(BarePoint, x[2..]) == Fraction;
    assert FloatRun(Whole, x[1..]) == Fraction;
    assert FloatRun(Begin, x) == Fraction;
  }

  lemma EightIsIntText()
    ensures IsIntText("8") && ParseInt("8") == Some(8)
  {
    assert IntToString(8) == "8";
    ParseIntRoundTrip(8);
  }

  lemma ExampleValuesAreNoFlags()
    ensures !IsFlag("0.5") && !IsFlag("8") && "0.5" != "-h" && "8" != "-h"
  {
    assert "0.5"[0] != '-' && "8"[0] != '-';
  }

  lemma ExampleResult(t: Tree, m: Tree)
    requires t == map["lr" := VFloat("0.1"), "model" := VDict(map["layers" := VInt(4)])]
    requires m == map["layers" := VInt(4)]
    ensures t["lr" := VFloat("0.5")]["model" := VDict(m["layers" := VInt(8)])]
         == map["lr" := VFloat("0.5"), "model" := VDict(map["layers" := VInt(8)])]
  {
    ExampleKeys();
    OverwriteTwice(map[], "layers", VInt(4), VInt(8));
    OverwriteTwice(map["lr" := VFloat("0.1")], "model", VDict(m), VDict(m["layers" := VInt(8)]));
    OverwriteTwice(map[], "lr", VFloat("0.1"), VFloat("0.5"));
    var u := map["lr" := VFloat("0.5")];
    assert t["lr" := VFloat("0.5")] == u["model" := VDict(m)];
  }
}
