/** The edit loop of `apply_edits`: it changes the configuration in memory and records, for each
    edit that changed the value read back, one edit for the file on disk. */
module EditLog {
  import opened Wrappers
  import opened Values
  import opened ConfigTree
  import KeyPath

  datatype Edit = Edit(path: seq<string>, value: Value, strategy: Strategy)

  /** The recorded edits: `CoreConfigEdit.set_path` and `CoreConfigEdit.clear_path`. */
  datatype LogEntry = Set(path: seq<string>, value: Value) | Clear(path: seq<string>)

  datatype EditError = BadPath(error: KeyPath.PathError) | LegacyProfile | BadStrategy
  datatype Outcome = Applied(config: Dict, log: seq<LogEntry>) | Rejected(error: EditError)

  /** A key path, a value and the name of a strategy. */
  type KeyedEdit = (string, Value, string)

  /** `MergeStrategy.parse` */
  function ParseStrategy(name: string): Option<Strategy>
  {
    if name == "replace" then Some(Replace) else if name == "upsert" then Some(Upsert) else None
  }

  // ---------------------------------------------------------------- one edit

  function After(d: Dict, e: Edit): Dict
    requires e.path != []
  {
    ApplyMerge(d, e.path, e.value, e.strategy).0
  }

  /** What the loop records for one edit. */
  function Recorded(d: Dict, e: Edit, toInt: IntParser): seq<LogEntry>
    requires e.path != []
  {
    var original := ValueAt(Table(d), e.path, toInt);
    var updated := ValueAt(Table(After(d, e)), e.path, toInt);
    if Equal(original, updated) then []
    else if updated == Null then [Clear(e.path)]
    else [Set(e.path, updated)]
  }

  /** `_reject_legacy_profile_write` */
  predicate LegacyProfileWrite(path: seq<string>, value: Value)
  {
    value != Null && (path == ["profile"] || (path != [] && path[0] == "profiles"))
  }

  function ApplyEdits(d: Dict, log: seq<LogEntry>, edits: seq<KeyedEdit>, toInt: IntParser): Outcome
    decreases |edits|
  {
    if edits == [] then Applied(d, log)
    else match KeyPath.Parse(edits[0].0)
      case Err(e) => Rejected(BadPath(e))
      case Ok(path) =>
        if LegacyProfileWrite(path, edits[0].1) then Rejected(LegacyProfile)
        else if ParseStrategy(edits[0].2) == None then Rejected(BadStrategy)
        else
          KeyPath.ParsedIsProper(edits[0].0);
          var e := Edit(path, edits[0].1, ParseStrategy(edits[0].2).value);
          ApplyEdits(After(d, e), log + Recorded(d, e, toInt), edits[1..], toInt)
  }

  /** The edit loop of `apply_edits`. */
  method ApplyEditsLoop(config: Dict, edits: seq<KeyedEdit>, toInt: IntParser) returns (r: Outcome)
    ensures r == ApplyEdits(config, [], edits, toInt)
  {
    var userConfig := config;
    var configEdits: seq<LogEntry> := [];
    for i := 0 to |edits|
      invariant ApplyEdits(userConfig, configEdits, edits[i..], toInt) == ApplyEdits(config, [], edits, toInt)
    {
      var (keyPath, value, name) := edits[i];
      assert edits[i..][1..] == edits[i + 1..];
      var parsed := KeyPath.ParseKeyPath(keyPath);
      if parsed.Err? {
        return Rejected(BadPath(parsed.error));
      }
      var segments := parsed.segments;
      if LegacyProfileWrite(segments, value) {
        return Rejected(LegacyProfile);
      }
      var parsedStrategy := ParseStrategy(name);
      if parsedStrategy == None {
        return Rejected(BadStrategy);
      }
      var strategy := parsedStrategy.value;
      KeyPath.ParsedIsProper(keyPath);
      var original := ValueAt(Table(userConfig), segments, toInt);
      ghost var e, before := Edit(segments, value, strategy), userConfig;
      userConfig := ApplyMerge(userConfig, segments, value, strategy).0;
      var updated := ValueAt(Table(userConfig), segments, toInt);
      ghost var logged := configEdits;
      if !Equal(original, updated) {
        if updated == Null {
          configEdits := configEdits + [Clear(segments)];
        } else {
          configEdits := configEdits + [Set(segments, updated)];
        }
      }
      assert logged + [] == logged;
      assert configEdits == logged + Recorded(before, e, toInt);
    }
    r := Applied(userConfig, configEdits);
  }

  /** What becomes of the first edit: a path that is none, a write to the old profiles and a strategy that is neither
      `replace` nor `upsert` end the loop, in this order; otherwise the edit is applied and recorded. */
  lemma FirstEdit(d: Dict, log: seq<LogEntry>, keyPath: string, value: Value, name: string, rest: seq<KeyedEdit>,
      toInt: IntParser)
    ensures var r := ApplyEdits(d, log, [(keyPath, value, name)] + rest, toInt);
      match KeyPath.Parse(keyPath)
      case Err(e) => r == Rejected(BadPath(e))
      case Ok(path) =>
        && path != []
        && var old_ := value != Null && (path == ["profile"] || path[0] == "profiles");
           && (old_ ==> r == Rejected(LegacyProfile))
           && (!old_ && name != "replace" && name != "upsert" ==> r == Rejected(BadStrategy))
           && (!old_ && (name == "replace" || name == "upsert") ==>
                var e := Edit(path, value, if name == "replace" then Replace else Upsert);
                r == ApplyEdits(After(d, e), log + Recorded(d, e, toInt), rest, toInt))
  {
    if KeyPath.Parse(keyPath).Ok? { KeyPath.ParsedIsProper(keyPath); }
    assert ([(keyPath, value, name)] + rest)[1..] == rest;
  }

  // ---------------------------------------------------------------- replay

  predicate ProperLog(log: seq<LogEntry>)
  {
    forall i | 0 <= i < |log| :: log[i].path != []
  }

  /** The recorded edits applied to a configuration with the file's own set and clear. */
  function Replay(d: Dict, log: seq<LogEntry>): Dict
    requires ProperLog(log)
    decreases |log|
  {
    if log == [] then d
    else
      var prior := Replay(d, log[..|log| - 1]);
      match log[|log| - 1]
      case Set(path, value) => SetPath(prior, path, value)
      case Clear(path) => ClearPath(prior, path).0
  }

  // ---------------------------------------------------------------- when the log is faithful

  /** An edit the log reproduces. A set fails when the value read at the path equals the new one without
      being it (a boolean and a number), or when it is read inside a list that stands on the way; a clear
      fails when it removes a key whose value is None. */
  predicate Reproducible(d: Dict, e: Edit, toInt: IntParser)
    requires e.path != []
  {
    var original := ValueAt(Table(d), e.path, toInt);
    if e.value == Null then !(Present(d, e.path) && TableValue(d, e.path) == Null)
    else !Equal(original, NewValue(d, e)) || (original == NewValue(d, e) && !ThroughList(d, e.path))
  }

  /** What a set stores. */
  function NewValue(d: Dict, e: Edit): Value
    requires e.path != []
  {
    Combined(TableValue(d, e.path), e.value, e.strategy)
  }

  lemma {:induction false} PresentNotThroughList(d: Dict, path: seq<string>)
    requires path != [] && Present(d, path)
    ensures !ThroughList(d, path)
    decreases |path|
  {
    if |path| > 1 { PresentNotThroughList(d[path[0]].entries, path[1..]); }
  }

  /** One edit is reproduced by what is recorded for it, exactly if it is Reproducible. */
  lemma OneEdit(d: Dict, e: Edit, toInt: IntParser)
    requires e.path != []
    ensures Replay(d, Recorded(d, e, toInt)) == After(d, e) <==> Reproducible(d, e, toInt)
  {
    var log := Recorded(d, e, toInt);
    assert |log| == 1 ==> log[..0] == [] && Replay(d, log[..0]) == d;
    if e.value == Null {
      OneClear(d, e, toInt);
    } else {
      OneSet(d, e, toInt);
    }
  }

  lemma OneSet(d: Dict, e: Edit, toInt: IntParser)
    requires e.path != [] && e.value != Null
    ensures Replay(d, Recorded(d, e, toInt)) == After(d, e) <==> Reproducible(d, e, toInt)
  {
    var w := Combined(TableValue(d, e.path), e.value, e.strategy);
    SetThenGet(d, e.path, w, toInt);
    SetLeavesTables(d, e.path, w);
    var log := Recorded(d, e, toInt);
    OnlyNullEqualsNull(w);
    if log == [] {
      if !ThroughList(d, e.path) {
        ValueAwayFromLists(d, e.path, toInt);
        SetSame(d, e.path);
      }
    } else {
      assert log == [Set(e.path, w)] && log[..0] == [];
    }
  }

  lemma OneClear(d: Dict, e: Edit, toInt: IntParser)
    requires e.path != [] && e.value == Null
    ensures Replay(d, Recorded(d, e, toInt)) == After(d, e) <==> Reproducible(d, e, toInt)
  {
    ClearThenGet(d, e.path, toInt);
    OnlyNullEqualsNull(ValueAt(Table(d), e.path, toInt));
    var log := Recorded(d, e, toInt);
    if Present(d, e.path) {
      PresentNotThroughList(d, e.path);
      ValueAwayFromLists(d, e.path, toInt);
      ClearPresent(d, e.path);
      if TableValue(d, e.path) != Null {
        assert log == [Clear(e.path)] && log[..0] == [];
      }
    } else {
      ClearNothing(d, e.path);
      assert log == [];
    }
  }

  // ---------------------------------------------------------------- whole sequences

  predicate ProperEdits(edits: seq<Edit>)
  {
    forall i | 0 <= i < |edits| :: edits[i].path != []
  }

  /** The configuration after all edits. */
  function Final(d: Dict, edits: seq<Edit>): Dict
    requires ProperEdits(edits)
    decreases |edits|
  {
    if edits == [] then d else After(Final(d, edits[..|edits| - 1]), edits[|edits| - 1])
  }

  /** The log after all edits. */
  function Log(d: Dict, edits: seq<Edit>, toInt: IntParser): (log: seq<LogEntry>)
    requires ProperEdits(edits)
    ensures ProperLog(log)
    decreases |edits|
  {
    if edits == [] then []
    else
      var init := edits[..|edits| - 1];
      Log(d, init, toInt) + Recorded(Final(d, init), edits[|edits| - 1], toInt)
  }

  lemma {:induction false} ReplayConcat(d: Dict, a: seq<LogEntry>, b: seq<LogEntry>)
    requires ProperLog(a) && ProperLog(b)
    ensures Replay(d, a + b) == Replay(Replay(d, a), b)
    decreases |b|
  {
    if b == [] {
      assert a + b == a;
    } else {
      assert (a + b)[..|a + b| - 1] == a + b[..|b| - 1];
      ReplayConcat(d, a, b[..|b| - 1]);
    }
  }

  ghost predicate ReproducesPrefix(d: Dict, edits: seq<Edit>, n: nat, toInt: IntParser)
    requires ProperEdits(edits) && n <= |edits|
  {
    Replay(d, Log(d, edits[..n], toInt)) == Final(d, edits[..n])
  }

  ghost predicate ReproducibleAt(d: Dict, edits: seq<Edit>, n: nat, toInt: IntParser)
    requires ProperEdits(edits) && n < |edits|
  {
    Reproducible(Final(d, edits[..n]), edits[n], toInt)
  }

  lemma PrefixStep(d: Dict, edits: seq<Edit>, n: nat, toInt: IntParser)
    requires ProperEdits(edits) && n < |edits| && ReproducesPrefix(d, edits, n, toInt)
    ensures ReproducesPrefix(d, edits, n + 1, toInt) <==> ReproducibleAt(d, edits, n, toInt)
  {
    var init := edits[..n];
    assert edits[..n + 1][..n] == init;
    var before := Final(d, init);
    ReplayConcat(d, Log(d, init, toInt), Recorded(before, edits[n], toInt));
    OneEdit(before, edits[n], toInt);
  }

  /** A property that holds at 0, and passes from one index to the next exactly where q does, holds up to n exactly if
      q holds below n. */
  lemma {:induction false} Chain(p: nat -> bool, q: nat -> bool, n: nat)
    requires p(0) && forall i: nat | i < n && p(i) :: p(i + 1) <==> q(i)
    ensures (forall i: nat | i <= n :: p(i)) <==> (forall i: nat | i < n :: q(i))
  {
    if n > 0 {
      Chain(p, q, n - 1);
      assert p(n - 1) ==> (p(n) <==> q(n - 1));
    }
  }

  /** The log follows the configuration through a whole run exactly if every edit is reproducible
      in the configuration it meets. */
  lemma RunReproducedIff(d: Dict, edits: seq<Edit>, toInt: IntParser, n: nat)
    requires ProperEdits(edits) && n <= |edits|
    ensures (forall i: nat | i <= n :: ReproducesPrefix(d, edits, i, toInt))
       <==> (forall i: nat | i < n :: ReproducibleAt(d, edits, i, toInt))
  {
    ghost var p := (i: nat) => i <= |edits| && ReproducesPrefix(d, edits, i, toInt);
    ghost var q := (i: nat) => i < |edits| && ReproducibleAt(d, edits, i, toInt);
    assert p(0) by { assert edits[..0] == []; }
    forall i: nat | i < n && p(i) ensures p(i + 1) <==> q(i) {
      PrefixStep(d, edits, i, toInt);
    }
    Chain(p, q, n);
    assert forall i: nat | i <= n :: p(i) == ReproducesPrefix(d, edits, i, toInt);
    assert forall i: nat | i < n :: q(i) == ReproducibleAt(d, edits, i, toInt);
  }

  /** Replaying the log of a reproducible run on the original configuration gives the one in memory. */
  lemma ReplayGivesFinal(d: Dict, edits: seq<Edit>, toInt: IntParser)
    requires ProperEdits(edits)
    requires forall i: nat | i < |edits| :: ReproducibleAt(d, edits, i, toInt)
    ensures Replay(d, Log(d, edits, toInt)) == Final(d, edits)
  {
    RunReproducedIff(d, edits, toInt, |edits|);
    assert ReproducesPrefix(d, edits, |edits|, toInt);
    assert edits[..|edits|] == edits;
  }

  // ---------------------------------------------------------------- configurations without None

  /** No None anywhere inside, as in every configuration read from a TOML file. */
  predicate NullFree(v: Value)
  {
    match v
    case Null => false
    case List(items) => forall i | 0 <= i < |items| :: NullFree(items[i])
    case Table(d) => forall k | k in d :: NullFree(d[k])
    case _ => true
  }

  lemma {:induction false} MergeNullFree(b: Dict, o: Dict)
    requires NullFree(Table(b)) && NullFree(Table(o))
    ensures NullFree(Table(Merge(b, o)))
    decreases Table(o)
  {
    forall k | k in Merge(b, o) ensures NullFree(Merge(b, o)[k]) {
      if k in b { assert NullFree(b[k]); }
      if k in o { assert NullFree(o[k]); }
      if k in o && k in b && b[k].Table? && o[k].Table? {
        assert b[k] == Table(b[k].entries) && o[k] == Table(o[k].entries);
        MergeNullFree(b[k].entries, o[k].entries);
      }
    }
  }

  lemma ChildNullFree(d: Dict, key: string)
    requires NullFree(Table(d))
    ensures NullFree(Table(Child(d, key)))
  {
    if key in d {
      assert NullFree(d[key]);
      if d[key].Table? { assert d[key] == Table(d[key].entries); }
    }
  }

  lemma {:induction false} TableValueNullFree(d: Dict, path: seq<string>)
    requires path != [] && NullFree(Table(d))
    ensures TableValue(d, path) == Null || NullFree(TableValue(d, path))
    ensures Present(d, path) ==> TableValue(d, path) != Null
    decreases |path|
  {
    if |path| > 1 {
      ChildNullFree(d, path[0]);
      TableValueNullFree(Child(d, path[0]), path[1..]);
    } else if path[0] in d {
      assert NullFree(d[path[0]]);
    }
  }

  lemma {:induction false} SetNullFree(d: Dict, path: seq<string>, v: Value)
    requires path != [] && NullFree(Table(d)) && NullFree(v)
    ensures NullFree(Table(SetPath(d, path, v)))
    decreases |path|
  {
    if |path| > 1 {
      ChildNullFree(d, path[0]);
      SetNullFree(Child(d, path[0]), path[1..], v);
    }
  }

  lemma {:induction false} ClearNullFree(d: Dict, path: seq<string>)
    requires path != [] && NullFree(Table(d))
    ensures NullFree(Table(ClearPath(d, path).0))
    decreases |path|
  {
    var k := path[0];
    if |path| > 1 && k in d && d[k].Table? {
      ChildNullFree(d, k);
      ClearNullFree(d[k].entries, path[1..]);
    }
  }

  /** One edit with a value free of None keeps the configuration free of None. */
  lemma AfterNullFree(d: Dict, e: Edit)
    requires e.path != [] && NullFree(Table(d)) && (e.value == Null || NullFree(e.value))
    ensures NullFree(Table(After(d, e)))
  {
    if e.value == Null {
      ClearNullFree(d, e.path);
    } else {
      var old_ := TableValue(d, e.path);
      TableValueNullFree(d, e.path);
      if e.strategy == Upsert && old_.Table? && e.value.Table? {
        assert old_ == Table(old_.entries) && e.value == Table(e.value.entries);
        MergeNullFree(old_.entries, e.value.entries);
      }
      SetNullFree(d, e.path, Combined(old_, e.value, e.strategy));
    }
  }

  lemma {:induction false} FinalNullFree(d: Dict, edits: seq<Edit>)
    requires ProperEdits(edits) && NullFree(Table(d))
    requires forall i | 0 <= i < |edits| :: edits[i].value == Null || NullFree(edits[i].value)
    ensures NullFree(Table(Final(d, edits)))
    decreases |edits|
  {
    if edits != [] {
      FinalNullFree(d, edits[..|edits| - 1]);
      AfterNullFree(Final(d, edits[..|edits| - 1]), edits[|edits| - 1]);
    }
  }

  /** Equality does not take the value at the path for another one that the edit stores. */
  predicate NotMistaken(d: Dict, e: Edit)
    requires e.path != []
  {
    Equal(TableValue(d, e.path), NewValue(d, e)) ==> TableValue(d, e.path) == NewValue(d, e)
  }

  /** For configurations and values free of None, no list on the way to an edited path and no boolean
      replaced by an equal number or the reverse, the log reproduces the configuration for every sequence
      mixing replace, upsert and clear. */
  lemma ReplayWithoutNullsAndLists(d: Dict, edits: seq<Edit>, toInt: IntParser)
    requires ProperEdits(edits) && NullFree(Table(d))
    requires forall i | 0 <= i < |edits| :: edits[i].value == Null || NullFree(edits[i].value)
    requires forall i: nat | i < |edits| :: !ThroughList(Final(d, edits[..i]), edits[i].path)
    requires forall i: nat | i < |edits| :: edits[i].value == Null || NotMistaken(Final(d, edits[..i]), edits[i])
    ensures Replay(d, Log(d, edits, toInt)) == Final(d, edits)
  {
    forall i: nat | i < |edits| ensures ReproducibleAt(d, edits, i, toInt) {
      FinalNullFree(d, edits[..i]);
      TableValueNullFree(Final(d, edits[..i]), edits[i].path);
      ValueAwayFromLists(Final(d, edits[..i]), edits[i].path, toInt);
    }
    ReplayGivesFinal(d, edits, toInt);
  }

  // ---------------------------------------------------------------- what the loop returns

  function ToEdit(k: KeyedEdit): (e: Edit)
    requires Parses(k)
    ensures e.path != []
  {
    KeyPath.ParsedIsProper(k.0);
    Edit(KeyPath.Parse(k.0).segments, k.1, ParseStrategy(k.2).value)
  }

  predicate Parses(k: KeyedEdit)
  {
    KeyPath.Parse(k.0).Ok? && ParseStrategy(k.2).Some?
  }

  predicate AllParse(edits: seq<KeyedEdit>)
  {
    forall i | 0 <= i < |edits| :: Parses(edits[i])
  }

  function Parsed(edits: seq<KeyedEdit>): (r: seq<Edit>)
    requires AllParse(edits)
    ensures |r| == |edits| && ProperEdits(r)
  {
    seq(|edits|, i requires 0 <= i < |edits| => ToEdit(edits[i]))
  }

  lemma ParsedFirst(edits: seq<KeyedEdit>, past: seq<Edit>)
    requires edits != [] && Parses(edits[0]) && AllParse(edits[1..])
    ensures AllParse(edits) && (past + [ToEdit(edits[0])]) + Parsed(edits[1..]) == past + Parsed(edits)
  {
    forall i | 0 <= i < |edits| ensures Parses(edits[i]) {
      if i > 0 { assert edits[i] == edits[1..][i - 1]; }
    }
    assert Parsed(edits) == [ToEdit(edits[0])] + Parsed(edits[1..]);
  }

  lemma ExtendRun(d: Dict, past: seq<Edit>, e: Edit, toInt: IntParser)
    requires ProperEdits(past) && e.path != []
    ensures ProperEdits(past + [e])
    ensures Final(d, past + [e]) == After(Final(d, past), e)
    ensures Log(d, past + [e], toInt) == Log(d, past, toInt) + Recorded(Final(d, past), e, toInt)
  {
    assert (past + [e])[..|past|] == past;
  }

  /** From the configuration and log reached after `past`, the loop ends in the final ones. */
  lemma {:induction false} LoopFollowsRun(d: Dict, past: seq<Edit>, edits: seq<KeyedEdit>, toInt: IntParser)
    requires ProperEdits(past)
    requires ApplyEdits(Final(d, past), Log(d, past, toInt), edits, toInt).Applied?
    ensures AllParse(edits)
    ensures ApplyEdits(Final(d, past), Log(d, past, toInt), edits, toInt)
         == Applied(Final(d, past + Parsed(edits)), Log(d, past + Parsed(edits), toInt))
    decreases |edits|
  {
    if edits == [] {
      assert past + Parsed(edits) == past;
    } else {
      var e := ToEdit(edits[0]);
      ExtendRun(d, past, e, toInt);
      LoopFollowsRun(d, past + [e], edits[1..], toInt);
      ParsedFirst(edits, past);
    }
  }

  /** When no edit is rejected, the loop returns the final configuration and the log of the run. */
  lemma LoopReturnsRun(d: Dict, edits: seq<KeyedEdit>, toInt: IntParser)
    requires ApplyEdits(d, [], edits, toInt).Applied?
    ensures AllParse(edits)
    ensures ApplyEdits(d, [], edits, toInt) == Applied(Final(d, Parsed(edits)), Log(d, Parsed(edits), toInt))
  {
    LoopFollowsRun(d, [], edits, toInt);
    assert [] + Parsed(edits) == Parsed(edits);
  }

  // ---------------------------------------------------------------- the three ways to fail

  /** Setting `a.0` over a list that already holds the value there is not recorded. */
  lemma ListElementSetIsLost(toInt: IntParser)
    requires toInt("0") == Some(0)
    ensures var d: Dict := map["a" := List([Text("x")])];
            var e := Edit(["a", "0"], Text("x"), Replace);
            Recorded(d, e, toInt) == [] && After(d, e) != d
  {
    var d: Dict := map["a" := List([Text("x")])];
    var e := Edit(["a", "0"], Text("x"), Replace);
    var p := e.path;
    assert p[1..] == ["0"] && p[1..][1..] == [];
    SetThenGet(d, p, Text("x"), toInt);
    assert ValueAt(d["a"], p[1..], toInt) == ValueAt(Text("x"), [], toInt);
    assert After(d, e)["a"].Table?;
  }

  /** Clearing a key whose value is None is not recorded. */
  lemma NullClearIsLost(toInt: IntParser)
    ensures var d: Dict := map["a" := Table(map["b" := Null])];
            var e := Edit(["a", "b"], Null, Replace);
            Recorded(d, e, toInt) == [] && After(d, e) != d
  {
    var d: Dict := map["a" := Table(map["b" := Null])];
    var e := Edit(["a", "b"], Null, Replace);
    var p := e.path;
    assert p[1..] == ["b"] && p[1..][1..] == [];
    assert !ThroughList(d, p) && Present(d, p);
    assert TableValue(d, p) == Null;
    ValueAwayFromLists(d, p, toInt);
    ClearThenGet(d, p, toInt);
    ClearPresent(d, p);
  }

  /** Setting 1 where the value is true is not recorded: the two are equal. */
  lemma EqualNumberIsLost(toInt: IntParser)
    ensures var d: Dict := map["a" := Bool(true)];
            var e := Edit(["a"], Int(1), Replace);
            Recorded(d, e, toInt) == [] && After(d, e) != d
  {
    var d: Dict := map["a" := Bool(true)];
    var e := Edit(["a"], Int(1), Replace);
    SetThenGet(d, e.path, Int(1), toInt);
    ValueAwayFromLists(d, e.path, toInt);
  }
}
