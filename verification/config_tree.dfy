/** The configuration dict and `set_nested_config`: walking a dotted key
    path, creating missing intermediate dicts, and assigning the converted
    value to the last segment. */
module ConfigTree {
  import opened Results
  import opened Values

  /** A configuration dict; nested dicts are `VDict` values. */
  type Tree = map<string, Value>

  /** `dict.get(key)`: the stored value, or `None` when the key is missing. */
  function Get(t: Tree, key: string): Value {
    if key in t then t[key] else VNone
  }

  /** The value at a key path, when every segment before the last names a dict. */
  function Lookup(t: Tree, path: seq<string>): Option<Value>
    requires |path| >= 1
    decreases |path|
  {
    if path[0] !in t then None
    else if |path| == 1 then Some(t[path[0]])
    else
      match t[path[0]]
      case VDict(sub) => Lookup(sub, path[1..])
      case _ => None
  }

  /** What `current.get(final_key)` reads at the end of the walk. */
  function ValueAt(t: Tree, path: seq<string>): Value
    requires |path| >= 1
  {
    match Lookup(t, path)
    case Some(v) => v
    case None => VNone
  }

  predicate DictOrMissing(node: Option<Value>) {
    node.None? || node.value.VDict?
  }

  /** No strict prefix of the path names a value other than a dict. */
  predicate Walkable(t: Tree, path: seq<string>)
    requires |path| >= 1
  {
    forall k :: 1 <= k < |path| ==> DictOrMissing(Lookup(t, path[..k]))
  }

  /** The keys of the dict at a path; none when there is no dict there. */
  function KeysAt(t: Tree, path: seq<string>): set<string>
    requires |path| >= 1
  {
    match Lookup(t, path)
    case Some(VDict(m)) => m.Keys
    case _ => {}
  }

  /** `set_nested_config(cfg, key, value_str)` with `path == key.split('.')`. */
  function SetPath(t: Tree, path: seq<string>, text: string): (r: Result<Tree, Failure>)
    requires |path| >= 1
    ensures r.Ok? ==> r.value.Keys == t.Keys + {path[0]}
    decreases |path|
  {
    if |path| == 1 then
      match Coerce(Get(t, path[0]), text)
      case Ok(v) => Ok(t[path[0] := v])
      case Err(e) => Err(e)
    else
      var child := if path[0] in t then t[path[0]] else VDict(map[]);
      match child
      case VDict(sub) =>
        (match SetPath(sub, path[1..], text)
         case Ok(sub') => Ok(t[path[0] := VDict(sub')])
         case Err(e) => Err(e))
      case _ => Err(NotADict(path[0]))
  }

  /** The branch of `parse_argv` for a key without a dot: only that key
      changes, to the text converted against its old value. */
  function SetTopLevel(t: Tree, key: string, text: string): (r: Result<Tree, Failure>)
    ensures r.Ok? <==> Coerce(Get(t, key), text).Ok?
    ensures r.Err? ==> r.error == Coerce(Get(t, key), text).error
    ensures r.Ok? ==> r.value.Keys == t.Keys + {key} && r.value[key] == Coerce(Get(t, key), text).value
    ensures r.Ok? ==> forall k :: k in t && k != key ==> r.value[k] == t[k]
  {
    match Coerce(Get(t, key), text)
    case Ok(v) => Ok(t[key := v])
    case Err(e) => Err(e)
  }

  /** A two-segment path into an existing sub-dict sets the key inside it. */
  lemma SetTwoSegments(t: Tree, b: string, c: string, y: string, m: Tree, v: Value)
    requires b in t && t[b] == VDict(m) && Coerce(Get(m, c), y) == Ok(v)
    ensures SetPath(t, [b, c], y) == Ok(t[b := VDict(m[c := v])])
  {
    var path := [b, c];
    assert path[0] == b && path[1..] == [c];
    SetOneSegment(m, c, y, v);
    SetPathDescends(t, path, y, m);
  }

  /** A path of two or more segments whose head is a sub-dict recurses into it. */
  lemma SetPathDescends(t: Tree, path: seq<string>, text: string, m: Tree)
    requires |path| >= 2 && path[0] in t && t[path[0]] == VDict(m)
    ensures SetPath(m, path[1..], text).Ok? ==>
      SetPath(t, path, text) == Ok(t[path[0] := VDict(SetPath(m, path[1..], text).value)])
  {
  }

  lemma SetOneSegment(m: Tree, c: string, y: string, v: Value)
    requires Coerce(Get(m, c), y) == Ok(v)
    ensures SetPath(m, [c], y) == Ok(m[c := v])
  {
  }

  // ---------------------------------------------------------------------------
  // Walking one segment down
  // ---------------------------------------------------------------------------

  lemma LookupBelowMissing(t: Tree, path: seq<string>)
    requires |path| >= 1 && path[0] !in t
    ensures Lookup(t, path) == None
  {
  }

  lemma LookupEmpty(path: seq<string>)
    requires |path| >= 1
    ensures Lookup(map[], path) == None
  {
  }

  lemma LookupPrefixBelow(t: Tree, path: seq<string>, sub: Tree, k: nat)
    requires 2 <= k <= |path|
    requires path[0] in t && t[path[0]] == VDict(sub)
    ensures Lookup(t, path[..k]) == Lookup(sub, path[1..][..k - 1])
  {
    assert path[..k][1..] == path[1..][..k - 1];
  }

  lemma WalkableBelow(t: Tree, path: seq<string>, sub: Tree)
    requires |path| >= 2
    requires path[0] in t && t[path[0]] == VDict(sub)
    ensures Walkable(t, path) <==> Walkable(sub, path[1..])
  {
    if Walkable(t, path) {
      forall k | 1 <= k < |path| - 1
        ensures DictOrMissing(Lookup(sub, path[1..][..k]))
      {
        LookupPrefixBelow(t, path, sub, k + 1);
      }
    }
    if Walkable(sub, path[1..]) {
      forall k | 1 <= k < |path|
        ensures DictOrMissing(Lookup(t, path[..k]))
      {
        if k >= 2 {
          LookupPrefixBelow(t, path, sub, k);
        }
      }
    }
  }

  lemma WalkableBelowMissing(t: Tree, path: seq<string>)
    requires |path| >= 1 && path[0] !in t
    ensures Walkable(t, path) && Walkable(map[], path)
  {
    forall k | 1 <= k < |path|
      ensures Lookup(t, path[..k]) == None && Lookup(map[], path[..k]) == None
    {
      LookupBelowMissing(t, path[..k]);
    }
  }

  // ---------------------------------------------------------------------------
  // What `set_nested_config` does
  // ---------------------------------------------------------------------------

  /** A prefix of the path that holds a value other than a dict makes the
      walk fail; otherwise the outcome is the conversion's outcome against
      the value found at the full path (`None` when it is missing). */
  lemma {:induction false} SetPathOutcome(t: Tree, path: seq<string>, text: string)
    requires |path| >= 1
    ensures !Walkable(t, path) ==> SetPath(t, path, text).Err? && SetPath(t, path, text).error.NotADict?
    ensures Walkable(t, path) ==> (SetPath(t, path, text).Ok? <==> Coerce(ValueAt(t, path), text).Ok?)
    ensures Walkable(t, path) && SetPath(t, path, text).Err? ==>
              SetPath(t, path, text).error == Coerce(ValueAt(t, path), text).error
    decreases |path|
  {
    if |path| > 1 {
      if path[0] !in t {
        WalkableBelowMissing(t, path);
        WalkableBelowMissing(map[], path[1..]);
        LookupBelowMissing(t, path);
        LookupEmpty(path[1..]);
        SetPathOutcome(map[], path[1..], text);
      } else if t[path[0]].VDict? {
        var sub := t[path[0]].entries;
        WalkableBelow(t, path, sub);
        SetPathOutcome(sub, path[1..], text);
      } else {
        assert path[..1] == [path[0]];
        assert !DictOrMissing(Lookup(t, path[..1]));
      }
    }
  }

  /** After a successful set, the path holds the converted value. */
  lemma {:induction false} SetPathThenLookup(t: Tree, path: seq<string>, text: string)
    requires |path| >= 1
    requires SetPath(t, path, text).Ok?
    ensures Coerce(ValueAt(t, path), text).Ok?
    ensures Lookup(SetPath(t, path, text).value, path) == Some(Coerce(ValueAt(t, path), text).value)
    decreases |path|
  {
    if |path| > 1 {
      if path[0] !in t {
        LookupBelowMissing(t, path);
        LookupEmpty(path[1..]);
        SetPathThenLookup(map[], path[1..], text);
      } else {
        SetPathThenLookup(t[path[0]].entries, path[1..], text);
      }
    }
  }

  /** Neither a prefix nor an extension of the other. */
  predicate Unrelated(p: seq<string>, q: seq<string>) {
    !(p <= q) && !(q <= p)
  }

  lemma UnrelatedBelowSameHead(p: seq<string>, q: seq<string>)
    requires |p| >= 1 && |q| >= 1 && p[0] == q[0]
    requires Unrelated(p, q)
    ensures |p| >= 2 && |q| >= 2
    ensures Unrelated(p[1..], q[1..])
  {
    assert p == [p[0]] + p[1..] && q == [q[0]] + q[1..];
  }

  /** A successful set changes nothing at any path that is neither a prefix
      nor an extension of the path that was set. */
  lemma {:induction false} SetPathFrame(t: Tree, path: seq<string>, text: string, q: seq<string>)
    requires |path| >= 1 && |q| >= 1
    requires SetPath(t, path, text).Ok?
    requires Unrelated(path, q)
    ensures Lookup(SetPath(t, path, text).value, q) == Lookup(t, q)
    decreases |path|
  {
    var r := SetPath(t, path, text).value;
    if q[0] != path[0] {
      assert (q[0] in r <==> q[0] in t) && (q[0] in t ==> r[q[0]] == t[q[0]]);
    } else {
      UnrelatedBelowSameHead(path, q);
      if path[0] in t {
        SetPathFrame(t[path[0]].entries, path[1..], text, q[1..]);
      } else {
        SetPathFrame(map[], path[1..], text, q[1..]);
        LookupEmpty(q[1..]);
      }
    }
  }

  /** Each dict along the walk keeps its keys and gains only the next
      segment; a missing intermediate therefore appears as a dict holding
      just that segment. */
  lemma {:induction false} SetPathCreatesIntermediates(t: Tree, path: seq<string>, text: string, k: nat)
    requires 1 <= k < |path|
    requires SetPath(t, path, text).Ok?
    ensures Lookup(SetPath(t, path, text).value, path[..k]).Some?
    ensures Lookup(SetPath(t, path, text).value, path[..k]).value.VDict?
    ensures Lookup(SetPath(t, path, text).value, path[..k]).value.entries.Keys == KeysAt(t, path[..k]) + {path[k]}
    decreases |path|
  {
    var r := SetPath(t, path, text).value;
    var sub := if path[0] in t then t[path[0]].entries else map[];
    var sub' := SetPath(sub, path[1..], text).value;
    assert r[path[0]] == VDict(sub');
    if k == 1 {
      assert path[..1] == [path[0]];
    } else {
      LookupPrefixBelow(r, path, sub', k);
      SetPathCreatesIntermediates(sub, path[1..], text, k - 1);
      if path[0] in t {
        LookupPrefixBelow(t, path, sub, k);
      } else {
        LookupBelowMissing(t, path[..k]);
        LookupEmpty(path[1..][..k - 1]);
      }
    }
  }
}
