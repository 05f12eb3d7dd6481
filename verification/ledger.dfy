/** The pure step of `increment_version`: read the ledger text into a dict,
    bump one label, write the dict back sorted by label, and format the
    version label. The file is a string in and a string out. */
module Ledger {
  import opened Results
  import opened Text
  import opened Numerals

  /** One ledger line: a label (`name`) and its last-used version. */
  datatype Entry = Entry(name: string, count: int)

  /** `int(parts[1])` raised `ValueError` on this line. */
  datatype LedgerError = BadCount(line: string)

  /** What one call produces: the new file contents and the returned label. */
  datatype Bumped = Bumped(contents: string, tag: string)

  // ---------------------------------------------------------------------------
  // The dict and its sorted listing
  // ---------------------------------------------------------------------------

  /** The dict built by assigning the entries in order: a later entry for a
      name overrides an earlier one. */
  function AsMap(entries: seq<Entry>): map<string, int>
    decreases |entries|
  {
    if |entries| == 0 then map[]
    else map[entries[0].name := entries[0].count] + AsMap(entries[1..])
  }

  /** Every entry's name comes strictly before `name`'s successors: all are greater. */
  predicate Below(name: string, entries: seq<Entry>) {
    forall i :: 0 <= i < |entries| ==> LexLess(name, entries[i].name)
  }

  /** Labels strictly increasing, so each name appears once. */
  predicate Sorted(entries: seq<Entry>) {
    forall i, j :: 0 <= i < j < |entries| ==> LexLess(entries[i].name, entries[j].name)
  }

  /** `entries` is `sorted(m.items())`. */
  predicate IsListingOf(entries: seq<Entry>, m: map<string, int>) {
    Sorted(entries) && AsMap(entries) == m
  }

  /** Sets `name` to `count` in a sorted listing, keeping it sorted. */
  function Insert(entries: seq<Entry>, name: string, count: int): seq<Entry>
    decreases |entries|
  {
    if |entries| == 0 then [Entry(name, count)]
    else if entries[0].name == name then [Entry(name, count)] + entries[1..]
    else if LexLess(name, entries[0].name) then [Entry(name, count)] + entries
    else [entries[0]] + Insert(entries[1..], name, count)
  }

  /** Inserts the records one after another into `acc`. */
  function Collect(acc: seq<Entry>, records: seq<Entry>): seq<Entry>
    decreases |records|
  {
    if |records| == 0 then acc
    else Collect(Insert(acc, records[0].name, records[0].count), records[1..])
  }

  // ---------------------------------------------------------------------------
  // Reading and writing the file
  // ---------------------------------------------------------------------------

  /** One line: stripped, skipped when blank or not exactly two fields,
      otherwise the name and `int()` of the second field. A line gives at
      most one entry, and an error names the line itself. */
  function ReadLine(line: string): (r: Result<seq<Entry>, LedgerError>)
    ensures r.Ok? ==> |r.value| <= 1
    ensures r.Err? ==> r.error == BadCount(line)
  {
    var stripped := Strip(line);
    if |stripped| == 0 then Ok([])
    else
      var parts := Fields(stripped);
      if |parts| != 2 then Ok([])
      else
        match ParseInt(parts[1])
        case Some(n) => Ok([Entry(parts[0], n)])
        case None => Err(BadCount(line))
  }

  /** A line the reader rejects: two fields, the second not an integer. */
  predicate Malformed(line: string) {
    |Fields(line)| == 2 && !IsIntText(Fields(line)[1])
  }

  /** The lines in order; the first malformed count ends the read. */
  function ReadLines(lines: seq<string>): Result<seq<Entry>, LedgerError>
    decreases |lines|
  {
    if |lines| == 0 then Ok([])
    else
      var first :- ReadLine(lines[0]);
      var rest :- ReadLines(lines[1..]);
      Ok(first + rest)
  }

  /** The records of a ledger file read in text mode, in file order. */
  function Records(contents: string): Result<seq<Entry>, LedgerError> {
    ReadLines(Split(Newlines(contents), '\n'))
  }

  /** A label the reader keeps as it is: non-empty and without whitespace. */
  predicate ValidName(name: string) {
    |name| > 0 && NoSpace(name)
  }

  predicate AllValid(entries: seq<Entry>) {
    forall i :: 0 <= i < |entries| ==> ValidName(entries[i].name)
  }

  /** A label whose line reads back as itself or not at all: no line break,
      and either valid or not exactly one field. */
  predicate Writable(name: string) {
    '\n' !in name && '\r' !in name && (ValidName(name) || |Fields(name)| != 1)
  }

  predicate AllWritable(entries: seq<Entry>) {
    forall i :: 0 <= i < |entries| ==> Writable(entries[i].name)
  }

  /** The entries whose lines the reader keeps. */
  function Kept(entries: seq<Entry>): seq<Entry>
    decreases |entries|
  {
    if |entries| == 0 then []
    else (if ValidName(entries[0].name) then [entries[0]] else []) + Kept(entries[1..])
  }

  /** What `f.write(f"{k} {v}\n")` writes, without the newline. */
  function Line(e: Entry): string {
    e.name + " " + IntToString(e.count)
  }

  /** One `name count` line per entry, each ended by a newline. */
  function Serialise(entries: seq<Entry>): (r: string)
    ensures r == "" <==> |entries| == 0
    ensures r != "" ==> r[|r| - 1] == '\n'
    decreases |entries|
  {
    if |entries| == 0 then ""
    else Line(entries[0]) + "\n" + Serialise(entries[1..])
  }

  // ---------------------------------------------------------------------------
  // The step
  // ---------------------------------------------------------------------------

  predicate EndsWithDigit(key: string) {
    |key| > 0 && IsDigit(key[|key| - 1])
  }

  function Separator(key: string): string {
    if EndsWithDigit(key) then "." else "_v"
  }

  /** The returned label: `key.N` after a trailing digit, `key_vN`
      otherwise. It starts with the key and its separator, the rest is
      `str(N)`, and `int()` reads the version back from it. */
  function VersionLabel(key: string, n: int): (text: string)
    ensures var k := |key| + |Separator(key)|;
            && k <= |text|
            && text[..|key|] == key
            && (text[|key|..k] == "." <==> EndsWithDigit(key))
            && (text[|key|..k] == "_v" <==> !EndsWithDigit(key))
            && text[k..] == IntToString(n)
            && ParseInt(text[k..]) == Some(n)
  {
    var text := key + Separator(key) + IntToString(n);
    var k := |key| + |Separator(key)|;
    assert text[..|key|] == key;
    assert text[|key|..k] == Separator(key);
    assert text[k..] == IntToString(n);
    ParseIntRoundTrip(n);
    text
  }

  /** One more than the stored version, or 0 for a new name. */
  function NextVersion(versions: map<string, int>, key: string): (n: int)
    ensures key in versions ==> n == versions[key] + 1
    ensures key !in versions ==> n == 0
  {
    (if key in versions then versions[key] else -1) + 1
  }

  /** The entries written back: the read dict with `key` bumped, sorted. */
  function BumpedEntries(records: seq<Entry>, key: string): seq<Entry> {
    Insert(Collect([], records), key, NextVersion(AsMap(records), key))
  }

  /** `increment_version(key)` with the file's text as `contents`. It fails
      exactly when reading the file fails. */
  function Step(contents: string, key: string): (r: Result<Bumped, LedgerError>)
    ensures r.Ok? <==> Records(contents).Ok?
    ensures r.Err? ==> r.error == Records(contents).error
  {
    var records :- Records(contents);
    var next := NextVersion(AsMap(records), key);
    Ok(Bumped(Serialise(BumpedEntries(records, key)), VersionLabel(key, next)))
  }

  /** The whole of `increment_version(key)`: `None` when the ledger file
      does not exist, otherwise its text. */
  function Increment(existing: Option<string>, key: string): (r: Result<Bumped, LedgerError>)
    ensures existing.None? ==> r == Ok(Bumped(key + " 0\n", VersionLabel(key, 0)))
    ensures existing.Some? ==> (r.Ok? <==> Records(existing.value).Ok?)
  {
    match existing
    case None =>
      NewLedger(key);
      Step("", key)
    case Some(contents) => Step(contents, key)
  }

  // ===========================================================================
  // Lemmas: the dict
  // ===========================================================================

  /** Assigning the entries in order, as the read loop does. */
  lemma {:induction false} AsMapAppend(entries: seq<Entry>, e: Entry)
    ensures AsMap(entries + [e]) == AsMap(entries)[e.name := e.count]
    decreases |entries|
  {
    if |entries| == 0 {
      assert entries + [e] == [e];
    } else {
      assert (entries + [e])[1..] == entries[1..] + [e];
      AsMapAppend(entries[1..], e);
    }
  }

  lemma {:induction false} AsMapContains(entries: seq<Entry>, i: nat)
    requires i < |entries|
    ensures entries[i].name in AsMap(entries)
    decreases i
  {
    if i > 0 {
      AsMapContains(entries[1..], i - 1);
    }
  }

  lemma {:induction false} BelowNotIn(name: string, entries: seq<Entry>)
    requires Below(name, entries)
    ensures name !in AsMap(entries)
    decreases |entries|
  {
    if |entries| > 0 {
      LexLessIrreflexive(name);
      BelowNotIn(name, entries[1..]);
    }
  }

  lemma SortedTail(entries: seq<Entry>)
    requires Sorted(entries) && |entries| > 0
    ensures Sorted(entries[1..])
    ensures Below(entries[0].name, entries[1..])
  {
  }

  lemma SortedCons(e: Entry, entries: seq<Entry>)
    requires Sorted(entries) && Below(e.name, entries)
    ensures Sorted([e] + entries)
  {
  }

  lemma {:induction false} BelowTransitive(a: string, b: string, entries: seq<Entry>)
    requires LexLess(a, b) && Below(b, entries)
    ensures Below(a, entries)
  {
    forall i | 0 <= i < |entries|
      ensures LexLess(a, entries[i].name)
    {
      LexLessTransitive(a, b, entries[i].name);
    }
  }

  /** The first name of a sorted listing is the least key of its dict. */
  lemma {:induction false} LeastLabel(entries: seq<Entry>, k: string)
    requires Sorted(entries) && |entries| > 0
    requires k in AsMap(entries)
    ensures entries[0].name == k || LexLess(entries[0].name, k)
    decreases |entries|
  {
    if k != entries[0].name {
      SortedTail(entries);
      LeastLabel(entries[1..], k);
      if entries[1].name != k {
        LexLessTransitive(entries[0].name, entries[1].name, k);
      }
    }
  }

  lemma {:induction false} InsertBelow(b: string, entries: seq<Entry>, name: string, count: int)
    requires Below(b, entries) && LexLess(b, name)
    ensures Below(b, Insert(entries, name, count))
    decreases |entries|
  {
    if |entries| > 0 && entries[0].name != name && !LexLess(name, entries[0].name) {
      InsertBelow(b, entries[1..], name, count);
    }
  }

  lemma {:induction false} InsertKeepsSorted(entries: seq<Entry>, name: string, count: int)
    requires Sorted(entries)
    ensures Sorted(Insert(entries, name, count))
    decreases |entries|
  {
    if |entries| > 0 {
      var h := entries[0];
      var rest := entries[1..];
      SortedTail(entries);
      if h.name == name {
        SortedCons(Entry(name, count), rest);
      } else if LexLess(name, h.name) {
        BelowTransitive(name, h.name, rest);
        assert entries == [h] + rest;
        SortedCons(Entry(name, count), entries);
      } else {
        LexLessTotal(name, h.name);
        InsertKeepsSorted(rest, name, count);
        InsertBelow(h.name, rest, name, count);
        SortedCons(h, Insert(rest, name, count));
      }
    }
  }

  lemma OverrideAbsent(k: string, v: int, m: map<string, int>)
    requires k !in m
    ensures map[k := v] + m == m[k := v]
  {
  }

  lemma OverrideOther(k: string, v: int, m: map<string, int>, k': string, v': int)
    requires k != k'
    ensures map[k := v] + m[k' := v'] == (map[k := v] + m)[k' := v']
  {
  }

  /** Insertion into a sorted listing sets exactly one key of its dict. */
  lemma {:induction false} InsertSetsKey(entries: seq<Entry>, name: string, count: int)
    requires Sorted(entries)
    ensures AsMap(Insert(entries, name, count)) == AsMap(entries)[name := count]
    decreases |entries|
  {
    if |entries| > 0 {
      var h := entries[0];
      var rest := entries[1..];
      var r := Insert(entries, name, count);
      SortedTail(entries);
      if h.name == name {
        BelowNotIn(h.name, rest);
        assert r[1..] == rest;
        calc {
          AsMap(r);
          map[name := count] + AsMap(rest);
          { OverrideAbsent(name, count, AsMap(rest)); OverrideAbsent(name, h.count, AsMap(rest)); }
          (map[name := h.count] + AsMap(rest))[name := count];
        }
      } else if LexLess(name, h.name) {
        BelowTransitive(name, h.name, rest);
        assert entries == [h] + rest;
        BelowNotIn(name, entries);
        assert r[1..] == entries;
        OverrideAbsent(name, count, AsMap(entries));
      } else {
        InsertSetsKey(rest, name, count);
        assert r[1..] == Insert(rest, name, count);
        OverrideOther(h.name, h.count, AsMap(rest), name, count);
      }
    }
  }

  lemma InsertLists(entries: seq<Entry>, name: string, count: int)
    requires Sorted(entries)
    ensures IsListingOf(Insert(entries, name, count), AsMap(entries)[name := count])
  {
    InsertKeepsSorted(entries, name, count);
    InsertSetsKey(entries, name, count);
  }

  /** Inserting the records in turn lists the dict that assigning them in
      order builds. */
  lemma {:induction false} CollectLists(acc: seq<Entry>, records: seq<Entry>)
    requires Sorted(acc)
    ensures IsListingOf(Collect(acc, records), AsMap(acc) + AsMap(records))
    decreases |records|
  {
    if |records| > 0 {
      var r := records[0];
      InsertLists(acc, r.name, r.count);
      CollectLists(Insert(acc, r.name, r.count), records[1..]);
      UpdateThenUnion(AsMap(acc), r.name, r.count, AsMap(records[1..]));
    }
  }

  lemma UpdateThenUnion(m: map<string, int>, k: string, v: int, n: map<string, int>)
    ensures m[k := v] + n == m + (map[k := v] + n)
  {
  }

  lemma {:induction false} AsMapEmpty(entries: seq<Entry>)
    ensures AsMap(entries) == map[] <==> |entries| == 0
  {
    if |entries| > 0 {
      AsMapContains(entries, 0);
    }
  }

  /** A dict has one sorted listing: two sorted listings of the same dict are equal. */
  lemma {:induction false} ListingIsUnique(a: seq<Entry>, b: seq<Entry>)
    requires Sorted(a) && Sorted(b) && AsMap(a) == AsMap(b)
    ensures a == b
    decreases |a|
  {
    AsMapEmpty(a);
    AsMapEmpty(b);
    if |a| > 0 {
      AsMapContains(a, 0);
      AsMapContains(b, 0);
      {
        LeastLabel(a, b[0].name);
        LeastLabel(b, a[0].name);
        LexLessAsymmetric(a[0].name, b[0].name);
        var k := a[0].name;
        SortedTail(a);
        SortedTail(b);
        BelowNotIn(k, a[1..]);
        BelowNotIn(k, b[1..]);
        assert AsMap(a) == map[k := a[0].count] + AsMap(a[1..]);
        assert AsMap(b) == map[k := b[0].count] + AsMap(b[1..]);
        assert AsMap(a[1..]) == AsMap(a) - {k};
        assert AsMap(b[1..]) == AsMap(b) - {k};
        ListingIsUnique(a[1..], b[1..]);
        assert a == [a[0]] + a[1..] && b == [b[0]] + b[1..];
      }
    }
  }

  // ===========================================================================
  // Lemmas: writing then reading
  // ===========================================================================

  lemma CountIsWord(n: int)
    ensures |IntToString(n)| > 0 && NoSpace(IntToString(n))
    ensures '\n' !in IntToString(n) && '\r' !in IntToString(n)
  {
  }

  /** One written line reads back as its entry, or as nothing when the
      label is not valid. */
  lemma ReadWrittenLine(e: Entry)
    requires Writable(e.name)
    ensures ReadLine(Line(e)) == Ok(if ValidName(e.name) then [e] else [])
  {
    LineFields(e);
    ReadLineFields(Line(e));
    if ValidName(e.name) {
      FieldsOfWord(e.name);
      ParseIntRoundTrip(e.count);
    }
  }

  /** The fields of a written line are the name's fields and then the count. */
  lemma LineFields(e: Entry)
    ensures Fields(Line(e)) == Fields(e.name) + [IntToString(e.count)]
  {
    var num := IntToString(e.count);
    CountIsWord(e.count);
    assert Line(e) == e.name + [' '] + num;
    FieldsSplitAtSpace(e.name, ' ', num);
    FieldsOfWord(num);
  }

  lemma ReadLinesCons(first: string, rest: seq<string>, a: seq<Entry>, b: seq<Entry>)
    requires ReadLine(first) == Ok(a) && ReadLines(rest) == Ok(b)
    ensures ReadLines([first] + rest) == Ok(a + b)
  {
    assert ([first] + rest)[0] == first && ([first] + rest)[1..] == rest;
  }

  lemma ReadBlankLine(line: string)
    requires |line| == 0
    ensures ReadLine(line) == Ok([])
  {
    assert |Strip(line)| == 0;
  }

  lemma ReadEmptyFile()
    ensures ReadLines(Split("", '\n')) == Ok([])
  {
    SplitWithoutSeparator("", '\n');
    ReadBlankLine("");
    var none: seq<Entry> := [];
    ReadLinesCons("", [], none, none);
    assert [""] + [] == [""];
    assert none + none == none;
  }

  lemma SplitSerialised(entries: seq<Entry>)
    requires |entries| > 0 && '\n' !in entries[0].name
    ensures Split(Serialise(entries), '\n') == [Line(entries[0])] + Split(Serialise(entries[1..]), '\n')
  {
    var e := entries[0];
    CountIsWord(e.count);
    assert Serialise(entries) == Line(e) + ['\n'] + Serialise(entries[1..]);
    SplitAtSeparator(Line(e), Serialise(entries[1..]), '\n');
  }

  lemma {:induction false} ReadSerialised(entries: seq<Entry>)
    requires AllWritable(entries)
    ensures ReadLines(Split(Serialise(entries), '\n')) == Ok(Kept(entries))
    decreases |entries|
  {
    if |entries| == 0 {
      ReadEmptyFile();
    } else {
      var e := entries[0];
      SplitSerialised(entries);
      ReadWrittenLine(e);
      ReadSerialised(entries[1..]);
      ReadLinesCons(Line(e), Split(Serialise(entries[1..]), '\n'),
        if ValidName(e.name) then [e] else [], Kept(entries[1..]));
    }
  }

  lemma {:induction false} SerialiseHasNoCarriageReturn(entries: seq<Entry>)
    requires AllWritable(entries)
    ensures '\r' !in Serialise(entries)
    decreases |entries|
  {
    if |entries| > 0 {
      CountIsWord(entries[0].count);
      SerialiseHasNoCarriageReturn(entries[1..]);
      assert Serialise(entries) == entries[0].name + " " + IntToString(entries[0].count) + "\n" + Serialise(entries[1..]);
    }
  }

  /** Writing a listing and reading it back gives the entries whose labels
      are valid, in the same order. */
  lemma SerialiseRoundTrip(entries: seq<Entry>)
    requires AllWritable(entries)
    ensures Records(Serialise(entries)) == Ok(Kept(entries))
  {
    SerialiseHasNoCarriageReturn(entries);
    ReadSerialised(entries);
  }

  lemma {:induction false} KeptAllValid(entries: seq<Entry>)
    requires AllValid(entries)
    ensures Kept(entries) == entries
    decreases |entries|
  {
    if |entries| > 0 {
      KeptAllValid(entries[1..]);
    }
  }

  lemma ValidIsWritable(entries: seq<Entry>)
    requires AllValid(entries)
    ensures AllWritable(entries)
  {
    forall i | 0 <= i < |entries|
      ensures Writable(entries[i].name)
    {
      FieldsOfWord(entries[i].name);
    }
  }

  /** A file of valid labels reads back exactly. */
  lemma ValidRoundTrip(entries: seq<Entry>)
    requires AllValid(entries)
    ensures Records(Serialise(entries)) == Ok(entries)
  {
    ValidIsWritable(entries);
    SerialiseRoundTrip(entries);
    KeptAllValid(entries);
  }

  // ===========================================================================
  // Lemmas: reading gives valid labels
  // ===========================================================================

  lemma {:induction false} ReadLinesValid(lines: seq<string>)
    ensures ReadLines(lines).Ok? ==> AllValid(ReadLines(lines).value)
    decreases |lines|
  {
    if |lines| > 0 && ReadLines(lines).Ok? {
      ReadLinesOk(lines);
      ReadLineValid(lines[0]);
      ReadLinesValid(lines[1..]);
      AllValidAppend(ReadLine(lines[0]).value, ReadLines(lines[1..]).value);
    }
  }

  /** A successful read is the first line's records and then the rest's. */
  lemma ReadLinesOk(lines: seq<string>)
    requires |lines| > 0 && ReadLines(lines).Ok?
    ensures ReadLine(lines[0]).Ok? && ReadLines(lines[1..]).Ok?
    ensures ReadLines(lines).value == ReadLine(lines[0]).value + ReadLines(lines[1..]).value
  {
  }

  /** A record read from one line is named by a single non-blank word. */
  lemma ReadLineValid(line: string)
    ensures ReadLine(line).Ok? ==> AllValid(ReadLine(line).value)
  {
  }

  lemma AllValidAppend(a: seq<Entry>, b: seq<Entry>)
    requires AllValid(a) && AllValid(b)
    ensures AllValid(a + b)
  {
    forall i | 0 <= i < |a + b|
      ensures ValidName((a + b)[i].name)
    {
      if i >= |a| {
        assert (a + b)[i] == b[i - |a|];
      }
    }
  }

  lemma RecordsValid(contents: string)
    requires Records(contents).Ok?
    ensures AllValid(Records(contents).value)
  {
    ReadLinesValid(Split(Newlines(contents), '\n'));
  }

  lemma {:induction false} AsMapKeysValid(entries: seq<Entry>, k: string)
    requires AllValid(entries) && k in AsMap(entries)
    ensures ValidName(k)
    decreases |entries|
  {
    if k != entries[0].name {
      AsMapKeysValid(entries[1..], k);
    }
  }

  lemma {:induction false} InsertValid(entries: seq<Entry>, name: string, count: int)
    requires AllValid(entries) && ValidName(name)
    ensures AllValid(Insert(entries, name, count))
    decreases |entries|
  {
    if |entries| > 0 && entries[0].name != name && !LexLess(name, entries[0].name) {
      InsertValid(entries[1..], name, count);
    }
  }

  lemma {:induction false} CollectValid(acc: seq<Entry>, records: seq<Entry>)
    requires AllValid(acc) && AllValid(records)
    ensures AllValid(Collect(acc, records))
    decreases |records|
  {
    if |records| > 0 {
      InsertValid(acc, records[0].name, records[0].count);
      CollectValid(Insert(acc, records[0].name, records[0].count), records[1..]);
    }
  }

  /** An unreadable label inserted among valid ones is dropped on reading. */
  lemma {:induction false} KeptDropsInvalid(entries: seq<Entry>, name: string, count: int)
    requires AllValid(entries) && !ValidName(name)
    ensures Kept(Insert(entries, name, count)) == entries
    decreases |entries|
  {
    KeptAllValid(entries);
    if |entries| > 0 && entries[0].name != name && !LexLess(name, entries[0].name) {
      KeptDropsInvalid(entries[1..], name, count);
      assert entries == [entries[0]] + entries[1..];
    }
  }

  // ===========================================================================
  // Lemmas: the step
  // ===========================================================================

  /** The entries written are `sorted(versions.items())` of the read dict
      with `key` set to its next version. */
  lemma BumpedIsListing(records: seq<Entry>, key: string)
    ensures IsListingOf(BumpedEntries(records, key), AsMap(records)[key := NextVersion(AsMap(records), key)])
  {
    CollectLists([], records);
    assert map[] + AsMap(records) == AsMap(records);
    InsertLists(Collect([], records), key, NextVersion(AsMap(records), key));
  }

  /** For a valid key, the file written reads back as the bumped dict, one
      line per label in increasing order, and the label carries the new
      version. */
  lemma {:induction false} StepRoundTrip(contents: string, key: string)
    requires Records(contents).Ok? && ValidName(key)
    ensures Step(contents, key).Ok?
    ensures var m := AsMap(Records(contents).value);
            var n := NextVersion(m, key);
            var out := Step(contents, key).value;
            && Records(out.contents).Ok?
            && IsListingOf(Records(out.contents).value, m[key := n])
            && out.tag == VersionLabel(key, n)
  {
    var records := Records(contents).value;
    RecordsValid(contents);
    CollectValid([], records);
    InsertValid(Collect([], records), key, NextVersion(AsMap(records), key));
    ValidRoundTrip(BumpedEntries(records, key));
    BumpedIsListing(records, key);
  }

  /** A label not yet in the ledger gets version 0, then version 1, and the
      file then holds it once with count 1. */
  lemma {:induction false} StepTwiceOnNewKey(contents: string, key: string)
    requires Records(contents).Ok? && ValidName(key)
    requires key !in AsMap(Records(contents).value)
    ensures Step(contents, key).Ok?
    ensures Step(contents, key).value.tag == VersionLabel(key, 0)
    ensures var second := Step(Step(contents, key).value.contents, key);
            && second.Ok?
            && second.value.tag == VersionLabel(key, 1)
            && Records(second.value.contents).Ok?
            && AsMap(Records(second.value.contents).value) == AsMap(Records(contents).value)[key := 1]
  {
    var m := AsMap(Records(contents).value);
    StepRoundTrip(contents, key);
    var first := Step(contents, key).value;
    var m1 := AsMap(Records(first.contents).value);
    assert m1 == m[key := 0];
    StepRoundTrip(first.contents, key);
    assert NextVersion(m1, key) == 1;
    MapUpdateTwice(m, key, 0, 1);
  }

  lemma MapUpdateTwice(m: map<string, int>, k: string, a: int, b: int)
    ensures m[k := a][k := b] == m[k := b]
  {
  }

  /** A blank label, or one holding whitespace between two non-blank parts,
      is written but never read back: the file reads as before and the
      version stays 0. */
  lemma {:induction false} StepDropsUnreadableKey(contents: string, key: string)
    requires Records(contents).Ok? && Writable(key) && !ValidName(key)
    ensures Step(contents, key).Ok?
    ensures Step(contents, key).value.tag == VersionLabel(key, 0)
    ensures var out := Step(contents, key).value.contents;
            && Records(out).Ok?
            && IsListingOf(Records(out).value, AsMap(Records(contents).value))
            && Step(out, key).Ok?
            && Step(out, key).value.tag == VersionLabel(key, 0)
  {
    var records := Records(contents).value;
    RecordsValid(contents);
    if key in AsMap(records) {
      AsMapKeysValid(records, key);
    }
    CollectValid([], records);
    CollectLists([], records);
    assert map[] + AsMap(records) == AsMap(records);
    var listing := Collect([], records);
    var bumped := BumpedEntries(records, key);
    BumpedWritable(records, key);
    SerialiseRoundTrip(bumped);
    KeptDropsInvalid(listing, key, 0);
    RecordsValid(Serialise(bumped));
    if key in AsMap(listing) {
      AsMapKeysValid(listing, key);
    }
  }

  /** With a writable key added, every name in the bumped listing can be
      written. */
  lemma BumpedWritable(records: seq<Entry>, key: string)
    requires AllValid(records) && Writable(key)
    ensures forall i | 0 <= i < |BumpedEntries(records, key)| :: Writable(BumpedEntries(records, key)[i].name)
  {
    CollectValid([], records);
    var listing := Collect([], records);
    var bumped := BumpedEntries(records, key);
    forall i | 0 <= i < |bumped|
      ensures Writable(bumped[i].name)
    {
      InsertNames(listing, key, NextVersion(AsMap(records), key), i);
      if bumped[i].name != key {
        FieldsOfWord(bumped[i].name);
      }
    }
  }

  lemma {:induction false} InsertNames(entries: seq<Entry>, name: string, count: int, i: nat)
    requires AllValid(entries)
    requires i < |Insert(entries, name, count)|
    ensures Insert(entries, name, count)[i].name == name || ValidName(Insert(entries, name, count)[i].name)
    decreases |entries|
  {
    if |entries| > 0 && entries[0].name != name && !LexLess(name, entries[0].name) && i > 0 {
      InsertNames(entries[1..], name, count, i - 1);
    }
  }

  // ===========================================================================
  // Lemmas: reading any file
  // ===========================================================================

  /** Any line, in terms of its whitespace-separated fields: anything but
      two fields is ignored, and two fields give an entry or, when `int()`
      rejects the second, the error. */
  lemma ReadLineFields(line: string)
    ensures |Fields(line)| != 2 ==> ReadLine(line) == Ok([])
    ensures |Fields(line)| == 2 && IsIntText(Fields(line)[1]) ==>
              ReadLine(line) == Ok([Entry(Fields(line)[0], ParseInt(Fields(line)[1]).value)])
    ensures |Fields(line)| == 2 && !IsIntText(Fields(line)[1]) ==> ReadLine(line) == Err(BadCount(line))
  {
    FieldsOfStrip(line);
  }

  /** Reading fails exactly when some line is malformed, and the error names
      the first malformed line. */
  lemma ReadLinesFails(lines: seq<string>)
    ensures ReadLines(lines).Err? <==> exists i :: 0 <= i < |lines| && Malformed(lines[i])
    ensures ReadLines(lines).Err? ==>
              exists i :: 0 <= i < |lines| && Malformed(lines[i]) && ReadLines(lines).error == BadCount(lines[i])
                          && forall j :: 0 <= j < i ==> !Malformed(lines[j])
  {
    ReadLinesFailIff(lines);
    ReadLinesFirstError(lines);
  }

  lemma {:induction false} ReadLinesFailIff(lines: seq<string>)
    ensures ReadLines(lines).Err? <==> exists i :: 0 <= i < |lines| && Malformed(lines[i])
    decreases |lines|
  {
    if |lines| > 0 {
      ReadLinesFailIff(lines[1..]);
      ReadLineFields(lines[0]);
      if Malformed(lines[0]) {
        assert ReadLine(lines[0]).Err?;
      } else {
        ReadLinesSkip(lines);
        ExistsAfterFirst(lines, Malformed);
      }
    }
  }

  /** A first line that reads leaves the outcome to the rest. */
  lemma ReadLinesSkip(lines: seq<string>)
    requires |lines| > 0 && ReadLine(lines[0]).Ok?
    ensures ReadLines(lines).Err? <==> ReadLines(lines[1..]).Err?
    ensures ReadLines(lines).Err? ==> ReadLines(lines).error == ReadLines(lines[1..]).error
  {
  }

  /** Some line satisfies `p` exactly when one after the first does, if the
      first does not. */
  lemma ExistsAfterFirst(lines: seq<string>, p: string -> bool)
    requires |lines| > 0 && !p(lines[0])
    ensures (exists i :: 0 <= i < |lines| && p(lines[i])) <==>
            (exists i :: 0 <= i < |lines[1..]| && p(lines[1..][i]))
  {
    if exists i :: 0 <= i < |lines| && p(lines[i]) {
      var i :| 0 <= i < |lines| && p(lines[i]);
      assert lines[1..][i - 1] == lines[i];
    }
    if exists i :: 0 <= i < |lines[1..]| && p(lines[1..][i]) {
      var i :| 0 <= i < |lines[1..]| && p(lines[1..][i]);
      assert lines[i + 1] == lines[1..][i];
    }
  }

  lemma {:induction false} ReadLinesFirstError(lines: seq<string>)
    ensures ReadLines(lines).Err? ==>
              exists i :: 0 <= i < |lines| && Malformed(lines[i]) && ReadLines(lines).error == BadCount(lines[i])
                          && forall j :: 0 <= j < i ==> !Malformed(lines[j])
    decreases |lines|
  {
    if |lines| > 0 && ReadLines(lines).Err? {
      var rest := lines[1..];
      ReadLineFields(lines[0]);
      if Malformed(lines[0]) {
        assert ReadLine(lines[0]) == Err(BadCount(lines[0]));
      } else {
        ReadLinesFirstError(rest);
        ReadLinesSkip(lines);
        var i :| 0 <= i < |rest| && Malformed(rest[i]) && ReadLines(rest).error == BadCount(rest[i])
                 && forall j :: 0 <= j < i ==> !Malformed(rest[j]);
        FirstAfterFirst(lines, Malformed, i);
      }
    }
  }

  /** The first line of the tail satisfying `p` is the first of the whole
      sequence, one position on, when the head does not satisfy it. */
  lemma FirstAfterFirst(lines: seq<string>, p: string -> bool, i: nat)
    requires |lines| > 0 && !p(lines[0])
    requires i < |lines| - 1 && p(lines[1..][i]) && forall j :: 0 <= j < i ==> !p(lines[1..][j])
    ensures lines[i + 1] == lines[1..][i] && p(lines[i + 1])
    ensures forall j :: 0 <= j < i + 1 ==> !p(lines[j])
  {
    forall j | 0 <= j < i + 1
      ensures !p(lines[j])
    {
      if j > 0 {
        assert lines[j] == lines[1..][j - 1];
      }
    }
  }

  /** A ledger file cannot be read exactly when one of its lines has two
      fields whose second `int()` rejects; the error names the first. */
  lemma RecordsFail(contents: string)
    ensures var lines := Split(Newlines(contents), '\n');
            && (Records(contents).Err? <==> exists i :: 0 <= i < |lines| && Malformed(lines[i]))
            && (Records(contents).Err? ==>
                 exists i :: 0 <= i < |lines| && Malformed(lines[i]) && Records(contents).error == BadCount(lines[i])
                             && forall j :: 0 <= j < i ==> !Malformed(lines[j]))
  {
    ReadLinesFails(Split(Newlines(contents), '\n'));
  }

  /** The lines of the written text, for labels without a newline. */
  function Lines(entries: seq<Entry>): seq<string>
    decreases |entries|
  {
    if |entries| == 0 then [] else [Line(entries[0])] + Lines(entries[1..])
  }

  /** The written text is one line per entry, each ended by a newline. */
  lemma {:induction false} SerialiseLines(entries: seq<Entry>)
    requires forall i :: 0 <= i < |entries| ==> '\n' !in entries[i].name
    ensures Split(Serialise(entries), '\n') == Lines(entries) + [""]
    decreases |entries|
  {
    if |entries| == 0 {
      SplitWithoutSeparator("", '\n');
    } else {
      SplitSerialised(entries);
      SerialiseLines(entries[1..]);
      assert [Line(entries[0])] + (Lines(entries[1..]) + [""]) == Lines(entries) + [""];
    }
  }

  // ===========================================================================
  // Lemmas: the label
  // ===========================================================================

  /** Different versions of one key get different labels. */
  lemma LabelsDiffer(key: string, n: int, m: int)
    requires n != m
    ensures VersionLabel(key, n) != VersionLabel(key, m)
  {
    var a, b := VersionLabel(key, n), VersionLabel(key, m);
  }

  // ===========================================================================
  // Lemmas: a missing ledger
  // ===========================================================================

  /** Without a ledger file the key starts at version 0 and the file written
      holds that one line. */
  lemma NewLedger(key: string)
    ensures Step("", key) == Ok(Bumped(key + " 0\n", VersionLabel(key, 0)))
  {
    ReadEmptyFile();
    assert Newlines("") == "";
    assert Records("") == Ok([]);
    assert BumpedEntries([], key) == [Entry(key, 0)];
    assert IntToString(0) == "0";
    assert Serialise([Entry(key, 0)]) == key + " 0\n";
  }
}
