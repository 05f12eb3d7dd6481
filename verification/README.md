# wheelbarrow albert: the command-line overlay and the version ledger

This project is a Dafny model of two pieces of `wheelbarrow.albert`.

**The configuration overlay, `parse_argv`.**
- It reads `--key [value]` tokens from the command line and writes them into a nested configuration dict of defaults.
- A dotted key such as `a.b.c` walks into sub-dicts, creating any that are missing.
- Each value string is converted to the type of the default it replaces (`convert_type`). When there is no default, or the default is `None`, the type is detected from the text (`auto_convert_type`).
- `--help` or `-h` anywhere in the arguments asks for the help listing instead.

**The version ledger step of `increment_version`.**
- The file `.version_numbers` holds `label count` lines.
- The step bumps one label: a new label starts at 0, a known one goes up by 1.
- It writes every label back, sorted.
- It returns `key.N` when the key ends in a digit, and `key_vN` otherwise.

The modules follow the program's structure:
- `Results`: `Option` and `Result`.
- `Text`: the Python string operations the code relies on.
  - `str.isspace`, ASCII `lower`, `split(sep)` and `join`, `strip`, and whitespace `split()`.
  - Text-mode newline translation.
  - Code-point string order.
- `Numerals`: which texts `int()` and `float()` accept, the value `int()` gives, and `str(n)`.
- `Values`: the configuration values, `convert_type` and `auto_convert_type`.
- `ConfigTree`: the nested dict and `set_nested_config`.
- `Argv`: `parse_argv`.
  - The argument list is a parameter.
  - The outcome is `Help`, `Parsed(tree)` or `ParseError(failure)` instead of printing, exiting or raising.
  - `ParseArgv` is the recursive definition. `ParseArgvLoop` is the source's cursor loop, proved equal to it.
- `Ledger`: the ledger step. It is a pure function from the file's text and the key to the new text and the label. `Increment` adds the case where the file does not exist.

Two behaviours of the source that the model keeps.
- A value that cannot be converted fails the whole parse: `int()` or `float()` rejects it against an int or float default.
- A dotted key whose intermediate segment holds something other than a dict also fails the whole parse, because Python raises there.

The overlay can change the shape of the tree. A key whose default is a dict, given as a whole (`--model 3` against `{"model": {...}}`), falls into `convert_type`'s last branch, so the sub-dict is replaced by the string `"3"` (`Values.Coerce`). The model follows the code here: the overlay is not limited to leaves and to adding new keys.

One consequence the ledger lemmas make explicit: a key that is blank, or holds whitespace between two non-blank parts, is written to the file but never read back. So its version stays at 0 however often it is bumped (`Ledger.StepDropsUnreadableKey`). A key with whitespace only at its ends, such as `"x "`, is read back under the stripped label `x` instead.

## Model

| member | source | states |
|---|---|---|
| Values.ConvertType | wheelbarrowpy/wheelbarrow/src/wheelbarrow/albert/__init__.py:60-71 | Conversion fails exactly when the target is int and `int()` rejects the text (`BadInt`), or the target is float and `float()` rejects it (`BadFloat`). A bool target gives true exactly when the lower-cased text is `true`, `1`, `yes` or `on`. An int target gives the integer `int()` reads. A float target keeps the text, since float values are not modelled. A list target gives at least one comma-free piece, and the pieces comma-join back to the text. Every other type gets the raw string. |
| Values.AutoConvert | wheelbarrowpy/wheelbarrow/src/wheelbarrow/albert/__init__.py:73-92 | The detected value is described by the text alone. It is a bool iff the lower-cased text is `true` or `false`, and true iff it is `true`. Otherwise it is an int iff `int()` accepts the text, with the value `int()` gives. Otherwise it is a float (text kept) iff `float()` accepts it. Otherwise it is a list iff the text has a comma, with at least two comma-free pieces that comma-join back to the text. Otherwise it is the string itself. It is never `None` or a dict. |
| Values.Coerce | wheelbarrowpy/wheelbarrow/src/wheelbarrow/albert/__init__.py:107-112 | The conversion fails exactly when the default is an int and `int()` rejects the text, or a float and `float()` rejects it. A bool, int, float or list default keeps its type. Any other non-`None` default (str, dict) gets the raw string. No conversion yields a dict or `None`. |
| Values.CoerceConverts | wheelbarrowpy/wheelbarrow/src/wheelbarrow/albert/__init__.py:107-112 | The value read from the dict picks the conversion. `None` means auto-detection. A bool default is true exactly for the true words, an int default gives the number `int()` reads, and a float default keeps the text. A list default gives comma-free pieces that join back to the text. A rejected text is reported as `BadInt` or `BadFloat`, after the conversion that rejected it. |
| Values.ListConversionRoundTrip | wheelbarrowpy/wheelbarrow/src/wheelbarrow/albert/__init__.py:68-69 | Against a list default the conversion always succeeds. Its pieces contain no comma and comma-join back to the text. |
| Values.IntConversionRoundTrip | wheelbarrowpy/wheelbarrow/src/wheelbarrow/albert/__init__.py:64-65 | Against an int default, the text `str(n)` converts to `n`. |
| Values.AutoConvertReadsIntegers | wheelbarrowpy/wheelbarrow/src/wheelbarrow/albert/__init__.py:76-80 | Auto-detection reads `str(n)` as the integer `n`: never as a bool word, never as a float. |
| Values.SeparatorTextStaysString | wheelbarrowpy/wheelbarrow/src/wheelbarrow/albert/__init__.py:73-92 | A digit followed by one of U+001C to U+001F is kept as the string by auto-detection, and an int default rejects it with `BadInt`. |
| Values.CoerceTrueText | wheelbarrowpy/wheelbarrow/src/wheelbarrow/albert/__init__.py:60-92 | Any letter-case spelling of `true` is what a bare flag receives. It converts to true against a bool default or no default, and is an error against an int or float default. Against a list default it becomes a one-item list, and against a str or dict default the string itself. |
| Values.BareFlagText | wheelbarrowpy/wheelbarrow/src/wheelbarrow/albert/__init__.py:132-135 | The text `"True"` a bare flag receives is a spelling of `true`. |
| Numerals.ParseIntRoundTrip | wheelbarrowpy/wheelbarrow/src/wheelbarrow/albert/__init__.py:64-65 | `int(str(n)) == n` for every integer within CPython's 4300-digit limit on int/str conversion, which the model does not impose. |
| Numerals.ParseInt | wheelbarrowpy/wheelbarrow/src/wheelbarrow/albert/__init__.py:64-65 | `int()` gives a value exactly when it accepts the text: surrounding whitespace, an optional sign, and ASCII digits with single `_` between digits. The whitespace is every `str.isspace()` character except U+001C to U+001F (`Numerals.NumberStrip`). |
| Numerals.NumberStrip | wheelbarrowpy/wheelbarrow/src/wheelbarrow/albert/__init__.py:64-65 | The text a number is read from starts and ends with a character other than the whitespace `int()` and `float()` ignore. |
| Numerals.NumberStripIsMiddle | wheelbarrowpy/wheelbarrow/src/wheelbarrow/albert/__init__.py:64-65 | That text is the argument's middle, kept as it is. |
| Numerals.NumberStripCutsSpace | wheelbarrowpy/wheelbarrow/src/wheelbarrow/albert/__init__.py:64-65 | Everything cut before and after the middle is that whitespace, so exactly the leading and trailing number whitespace is removed. |
| Numerals.SeparatorMakesNoInt | wheelbarrowpy/wheelbarrow/src/wheelbarrow/albert/__init__.py:64-65 | A digit followed by one of U+001C to U+001F is no integer, although `str.strip()` would remove the separator. |
| Numerals.SeparatorMakesNoFloat | wheelbarrowpy/wheelbarrow/src/wheelbarrow/albert/__init__.py:84-87 | Nor does `float()` accept it. |
| Numerals.IntToString | wheelbarrowpy/wheelbarrow/src/wheelbarrow/albert/__init__.py:189 | `str(n)` is non-empty and made of ASCII digits, with a leading `-` exactly when `n` is negative. Its digits denote the absolute value of `n`, and there is no leading zero except in `"0"` itself. |
| Numerals.IsFloatText | wheelbarrowpy/wheelbarrow/src/wheelbarrow/albert/__init__.py:78-87 | Every text `int()` accepts is accepted by `float()` too, so trying integers first is what makes `"1"` an int. The special words `inf`, `infinity` and `nan` are accepted in any case, and text that is blank apart from the whitespace `float()` ignores never is. |
| Text.Split | wheelbarrowpy/wheelbarrow/src/wheelbarrow/albert/__init__.py:96 | `key.split(sep)` gives at least one piece, and at least two when the separator occurs. No piece contains the separator, and the pieces join back to the text. |
| Text.SplitJoin | wheelbarrowpy/wheelbarrow/src/wheelbarrow/albert/__init__.py:69 | Splitting a join of separator-free pieces gives the pieces back. |
| Text.StripIsMiddle | wheelbarrowpy/wheelbarrow/src/wheelbarrow/albert/__init__.py:174 | `str.strip()` keeps the middle of the line as it is. |
| Text.StripCutsSpace | wheelbarrowpy/wheelbarrow/src/wheelbarrow/albert/__init__.py:174 | Everything `str.strip()` removes before and after that middle is whitespace. |
| Text.FieldsOfStrip | wheelbarrowpy/wheelbarrow/src/wheelbarrow/albert/__init__.py:175-177 | Stripping a line does not change its whitespace-separated fields. |
| Text.Newlines | wheelbarrowpy/wheelbarrow/src/wheelbarrow/albert/__init__.py:173-174 | Reading in text mode leaves no carriage return, and changes nothing in text that had none. |
| Text.NewlinesAtReturn | wheelbarrowpy/wheelbarrow/src/wheelbarrow/albert/__init__.py:173-174 | Text before the first carriage return is kept. There, `\r\n` becomes one `\n`, and so does a lone `\r` not followed by `\n`. Reading then goes on after them. |
| ConfigTree.SetPath | wheelbarrowpy/wheelbarrow/src/wheelbarrow/albert/__init__.py:94-113 | A successful nested set keeps every top-level key and adds exactly the path's first segment. |
| ConfigTree.SetPathOutcome | wheelbarrowpy/wheelbarrow/src/wheelbarrow/albert/__init__.py:96-112 | A path whose intermediate segment holds a non-dict fails with `NotADict`. Otherwise the set succeeds exactly when converting against the value found at the path (`None` if missing) succeeds, and fails with that conversion's error. |
| ConfigTree.SetPathThenLookup | wheelbarrowpy/wheelbarrow/src/wheelbarrow/albert/__init__.py:106-113 | After a successful set, the path holds the text converted against the value previously there. |
| ConfigTree.SetPathFrame | wheelbarrowpy/wheelbarrow/src/wheelbarrow/albert/__init__.py:94-113 | Every path that is neither a prefix nor an extension of the set path reads the same before and after. |
| ConfigTree.SetPathCreatesIntermediates | wheelbarrowpy/wheelbarrow/src/wheelbarrow/albert/__init__.py:100-103 | Every strict prefix of the path is afterwards a dict. Its keys are the keys it had before (none if it was missing) plus the next segment. |
| ConfigTree.SetTopLevel | wheelbarrowpy/wheelbarrow/src/wheelbarrow/albert/__init__.py:142-147 | An undotted key succeeds exactly when converting the text against its default succeeds, and fails with that conversion's error. On success it adds the key, sets it to the converted value, and leaves every other key alone. |
| Argv.ParseArgv | wheelbarrowpy/wheelbarrow/src/wheelbarrow/albert/__init__.py:115-151 | The outcome is help iff `--help` or `-h` occurs anywhere in the arguments, even in a value position. A parse never removes a key of the defaults. |
| Argv.ParseArgvLoop | wheelbarrowpy/wheelbarrow/src/wheelbarrow/albert/__init__.py:125-149 | The cursor loop, moving by two after a flag with a value and by one otherwise, computes the same outcome as `ParseArgv`. |
| Argv.Scan | wheelbarrowpy/wheelbarrow/src/wheelbarrow/albert/__init__.py:125-149 | The scan reads at most one pair per token from the cursor on. No value it reads starts with `--`. |
| Argv.Apply | wheelbarrowpy/wheelbarrow/src/wheelbarrow/albert/__init__.py:137-147 | A successful overlay of one pair adds at most the first segment of its key at top level. The pair's path then holds the text converted against what the path held before, and that conversion succeeded. |
| Argv.FlagPositions | wheelbarrowpy/wheelbarrow/src/wheelbarrow/albert/__init__.py:126-127 | The positions of the flag tokens at or after a cursor: all flags, strictly increasing, none missed. |
| Argv.ScanReadsEveryFlag | wheelbarrowpy/wheelbarrow/src/wheelbarrow/albert/__init__.py:126-135 | The scan reads exactly one pair per flag token, in order. The key is the text after `--`. The value is the next token when it exists and is not a flag, otherwise `"True"`. A consumed value never hides a flag, and other tokens are ignored. |
| Argv.ApplyIsSetPath | wheelbarrowpy/wheelbarrow/src/wheelbarrow/albert/__init__.py:138-147 | The undotted branch gives the same result as `set_nested_config` with a one-segment path. |
| Argv.ApplyAll | wheelbarrowpy/wheelbarrow/src/wheelbarrow/albert/__init__.py:137-147 | Applying the pairs never removes a key of the dict. |
| Argv.ApplyAllAppend | wheelbarrowpy/wheelbarrow/src/wheelbarrow/albert/__init__.py:125-149 | Applying pairs and then one more pair is applying the last pair to the first result, and an earlier failure stays a failure. |
| Argv.ApplyAllFrame | wheelbarrowpy/wheelbarrow/src/wheelbarrow/albert/__init__.py:137-147 | A successful parse leaves every path that is unrelated to all given keys as it was in the defaults. |
| Argv.ApplyAllLastWins | wheelbarrowpy/wheelbarrow/src/wheelbarrow/albert/__init__.py:137-147 | When a key is given again, the final value at its path is the last text, converted against what the path held just before. |
| Argv.OneTopLevelPair | wheelbarrowpy/wheelbarrow/src/wheelbarrow/albert/__init__.py:137-147 | When the arguments hold a single undotted pair whose text converts against the key's default, the parse gives the defaults with that key replaced by the converted value. |
| Argv.DebugFlagRun | wheelbarrowpy/wheelbarrow/src/wheelbarrow/albert/__init__.py:125-147 | A bare `--debug` against the default `{"debug": False}` gives `{"debug": True}`. |
| Argv.BareFlagRun | wheelbarrowpy/wheelbarrow/src/wheelbarrow/albert/__init__.py:125-147 | A bare `--key` (undotted, not `help`) whose text `"True"` converts against the key's default gives the defaults with that key replaced by the converted value. |
| Argv.KeyValueRun | wheelbarrowpy/wheelbarrow/src/wheelbarrow/albert/__init__.py:125-147 | `--key value`, with an undotted key other than `help` and a value that is neither a flag nor `-h`, gives the defaults with that key replaced by the value converted against its default. |
| Argv.ListFlagRun | wheelbarrowpy/wheelbarrow/src/wheelbarrow/albert/__init__.py:125-147 | `--key text` against a list default gives the text's comma-separated pieces, whatever the default held. With `Argv.ThreePieces`, `--tags x,y,z` against `{"tags": ["a"]}` gives `{"tags": ["x", "y", "z"]}`. |
| Argv.ThreePieces | wheelbarrowpy/wheelbarrow/src/wheelbarrow/albert/__init__.py:68-69 | `"x,y,z"` splits on commas into `x`, `y` and `z`. |
| Argv.FloatAndNestedIntRun | wheelbarrowpy/wheelbarrow/src/wheelbarrow/albert/__init__.py:125-147 | `--a x --b.c y`, with a float default at `a`, an int default at `b.c`, undotted `a`, `b`, `c` with `a` not `help`, and values that are neither flags nor `-h`, gives `a` the float text `x` and `b.c` the integer `int()` reads from `y`. Every other key keeps its default. |
| Argv.LearningRateAndLayersRun | wheelbarrowpy/wheelbarrow/src/wheelbarrow/albert/__init__.py:125-147 | `--lr 0.5 --model.layers 8` over `{"lr": 0.1, "model": {"layers": 4}}` gives `{"lr": 0.5, "model": {"layers": 8}}`. |
| Ledger.AsMapAppend | wheelbarrowpy/wheelbarrow/src/wheelbarrow/albert/__init__.py:174-179 | Reading assigns labels in file order, so a later line for a label overrides an earlier one. |
| Ledger.ReadWrittenLine | wheelbarrowpy/wheelbarrow/src/wheelbarrow/albert/__init__.py:175-179 | A written `label count` line reads back as that entry when the label is non-empty without whitespace. It is ignored when the label splits into zero or several fields. |
| Ledger.RecordsValid | wheelbarrowpy/wheelbarrow/src/wheelbarrow/albert/__init__.py:175-179 | Every label read from a file is non-empty and has no whitespace. |
| Ledger.InsertSetsKey | wheelbarrowpy/wheelbarrow/src/wheelbarrow/albert/__init__.py:184 | Setting a label in a sorted listing changes exactly that label's count in its dict. |
| Ledger.InsertKeepsSorted | wheelbarrowpy/wheelbarrow/src/wheelbarrow/albert/__init__.py:188 | Setting a label keeps the listing in strictly increasing label order. |
| Ledger.CollectLists | wheelbarrowpy/wheelbarrow/src/wheelbarrow/albert/__init__.py:188 | Inserting the read records one by one gives a sorted listing of the dict the records build. |
| Ledger.ListingIsUnique | wheelbarrowpy/wheelbarrow/src/wheelbarrow/albert/__init__.py:188 | A dict has only one strictly sorted listing, so the listing written is `sorted(versions.items())`. |
| Ledger.NextVersion | wheelbarrowpy/wheelbarrow/src/wheelbarrow/albert/__init__.py:181-183 | A known label's version goes up by one, and a new label gets 0. |
| Ledger.Step | wheelbarrowpy/wheelbarrow/src/wheelbarrow/albert/__init__.py:172-191 | The step fails exactly when reading the file fails, with the same error. `Ledger.RecordsFail` says which files those are. |
| Ledger.ReadLine | wheelbarrowpy/wheelbarrow/src/wheelbarrow/albert/__init__.py:175-179 | One line yields at most one record. It fails only with `BadCount` naming that line. |
| Ledger.ReadLineFields | wheelbarrowpy/wheelbarrow/src/wheelbarrow/albert/__init__.py:175-179 | A line with other than two whitespace-separated fields is skipped. A line of two fields gives the record of the first field and the integer `int()` reads from the second, and fails when `int()` rejects the second. |
| Ledger.ReadLinesFails | wheelbarrowpy/wheelbarrow/src/wheelbarrow/albert/__init__.py:174-179 | Reading lines fails exactly when some line has two fields whose second `int()` rejects. The error names the first such line. |
| Ledger.RecordsFail | wheelbarrowpy/wheelbarrow/src/wheelbarrow/albert/__init__.py:172-179 | A ledger file cannot be read exactly when one of its text-mode lines has two fields whose second `int()` rejects. The error names the first such line. |
| Ledger.Serialise | wheelbarrowpy/wheelbarrow/src/wheelbarrow/albert/__init__.py:187-189 | The text written is empty exactly when there are no entries, and otherwise ends with a newline. |
| Ledger.SerialiseLines | wheelbarrowpy/wheelbarrow/src/wheelbarrow/albert/__init__.py:187-189 | For labels without line breaks, splitting the written text at newlines gives one `label count` line per entry, in order, then the empty piece after the last newline. |
| Ledger.Increment | wheelbarrowpy/wheelbarrow/src/wheelbarrow/albert/__init__.py:168-191 | Without a ledger file the key gets version 0, and the file written is that single line. With one, the call succeeds exactly when the file can be read. |
| Ledger.BumpedIsListing | wheelbarrowpy/wheelbarrow/src/wheelbarrow/albert/__init__.py:181-188 | The entries written are the sorted listing of the read dict with the key set to its next version. Every other label keeps its count. |
| Ledger.SerialiseRoundTrip | wheelbarrowpy/wheelbarrow/src/wheelbarrow/albert/__init__.py:172-189 | Writing a listing and reading the text back gives, in order, the entries whose labels are non-empty and free of whitespace. |
| Ledger.ValidRoundTrip | wheelbarrowpy/wheelbarrow/src/wheelbarrow/albert/__init__.py:172-189 | A listing whose labels are all non-empty and free of whitespace reads back exactly. |
| Ledger.StepRoundTrip | wheelbarrowpy/wheelbarrow/src/wheelbarrow/albert/__init__.py:172-191 | For such a key, the file written reads back as the old dict with the key at its next version, one line per label in strictly increasing order. The label returned carries that version. |
| Ledger.StepTwiceOnNewKey | wheelbarrowpy/wheelbarrow/src/wheelbarrow/albert/__init__.py:181-191 | A label not yet in the ledger gets version 0, then version 1. The file then holds it with count 1, and every other label as before. |
| Ledger.StepDropsUnreadableKey | wheelbarrowpy/wheelbarrow/src/wheelbarrow/albert/__init__.py:175-191 | A key that is blank, or holds whitespace between two non-blank parts, gets version 0. The written file reads back as the old dict, so the next bump gives version 0 again. |
| Ledger.VersionLabel | wheelbarrowpy/wheelbarrow/src/wheelbarrow/albert/__init__.py:191 | The label is the key, then `.` exactly when the key ends in a digit and `_v` otherwise, then `str(N)` of the version, which `int()` reads back as the version. |
| Ledger.LabelsDiffer | wheelbarrowpy/wheelbarrow/src/wheelbarrow/albert/__init__.py:191 | Different versions of one key get different labels. |
| Ledger.NewLedger | wheelbarrowpy/wheelbarrow/src/wheelbarrow/albert/__init__.py:168-191 | Without a ledger file the key gets version 0, and the file written is that single line. |

## Left out

- `pickle_memoize` (lines 4-27) is disk I/O and pickling under a process-wide `functools.cache`. `style_matplotlib` (lines 29-39) sets a plotting library's global settings. Neither has logic beyond its effects.
- Reading `sys.argv`, printing the help listing (`print_config_help`, lines 50-58 and 119-121), and `sys.exit`:
  - the arguments are a parameter;
  - help is the `Help` outcome.
- The listing's text depends on Python type names, `str()` of values and dict order.
- Python raises `ValueError`, `TypeError` or `AttributeError` where the model returns `ParseError` with `BadInt`, `BadFloat` or `NotADict`. The model does not say which exception class a non-dict segment raises.
- `parse_argv` mutates the caller's dict in place, so after an exception the caller keeps the overlays made so far. The model returns a new tree or an error and does not describe that partial state.
- Float values. `VFloat` keeps its text. The syntax `float()` accepts is modelled (decimal forms with `_` separators, exponents, `inf`, `infinity`, `nan`), but not the number it yields.
- Unicode digits in `int()`, `float()` and `str.isdigit()`, and Unicode case mapping in `str.lower()`. The model uses ASCII digits and ASCII lower-casing. No non-ASCII character lower-cases into the ASCII words the code compares against, so the bool tests agree.
- `VList` holds strings. A list default's items are never read, only its type, so the model stores the items only for values it produces itself.
- Defaults of types other than `None`, bool, int, float, str, list and dict (tuples, sets, other objects) are not represented. `convert_type` gives them the raw string, as it does for str and dict.
- The ledger file itself:
  - opening, reading and writing it;
  - encoding errors;
  - platform newline translation when writing;
  - concurrent callers racing on it.
- The step is a function of the file's text, with `None` for a missing file.
- Ledger.SerialiseRoundTrip: assumes labels without line breaks, and without whitespace that would make them read as one different field (such as `" x"`). Such a key is written as text that reads back under another label. The step still computes it, but no lemma describes what is read back.
- Ledger.StepDropsUnreadableKey: covers the same keys as Ledger.SerialiseRoundTrip, and not keys containing line breaks.
- ConfigTree.SetPathFrame: the tree is a value. Python's nested dicts can be shared, such as one `base` dict placed under two keys, or even cyclic. There a set through one path shows up under the other, which the lemma does not describe.
- Argv.ApplyAllFrame: the same value view of the tree, so it does not cover shared sub-dicts either. Neither lemma says anything about key insertion order in the returned dict.
- Numerals.ParseInt: CPython refuses to convert texts of more than 4300 digits (`sys.set_int_max_str_digits`). The model accepts them. There an int default would give a `ValueError` the model does not produce, and auto-detection would fall through to `float()`.
- Numerals.IntToString: no 4300-digit limit on `str(n)` either, so a version or int beyond it is written where CPython would raise.
