/** Comparing a candidate's trace of semantic events with a reference trace. */
module TraceCompare {
  import opened Wrappers
  import opened Values

  datatype Event = Event(category: string, name: string, payload: map<string, Value>, state: string, tool: string,
    outcomeRef: string)

  datatype Trace = Trace(contract: string, events: seq<Event>, executable: bool)

  datatype Coordinate = At(index: int) | Named(text: string) | Nowhere

  datatype Finding = Finding(code: string, severity: string, coordinate: Coordinate)

  datatype Verdict = Verified | Failed | Inconclusive

  /** The record of a comparison that was made. */
  datatype Evidence = Evidence(id: string, status: string, strategy: string, referenceEvents: nat, candidateEvents: nat)

  datatype Error = UnknownStrategy | ContractMismatch

  datatype Result = Raised(error: Error) | Layer(contract: string, verdict: Verdict, findings: seq<Finding>,
    evidence: Option<Evidence>)

  const NON_SEMANTIC_KEYS: set<string> := {"timestamp", "elapsed_ms", "session_id", "thread_id", "turn_id",
    "request_id", "uuid"}

  /** `normalize_value`; `text` is what it does to one string. */
  function Normalize(v: Value, text: string -> string): Value
  {
    match v
    case Table(entries) => Table(map name | name in entries && name !in NON_SEMANTIC_KEYS ::
      Normalize(entries[name], text))
    case List(items) => List(seq(|items|, k requires 0 <= k < |items| => Normalize(items[k], text)))
    case Text(s) => Text(text(s))
    case _ => v
  }

  function NormalizeEvent(e: Event, text: string -> string): Event
  {
    e.(payload := Normalize(Table(e.payload), text).entries)
  }

  function NormalizeEvents(es: seq<Event>, text: string -> string): seq<Event>
  {
    seq(|es|, i requires 0 <= i < |es| => NormalizeEvent(es[i], text))
  }

  /** One representative of the events equal to `e`. */
  function PlainEvent(e: Event): Event
  {
    e.(payload := Plain(Table(e.payload)).entries)
  }

  /** `left == right` on events */
  predicate Same(left: Event, right: Event)
  {
    PlainEvent(left) == PlainEvent(right)
  }

  /** Equal traces, event by event. */
  predicate SameEvents(expected: seq<Event>, actual: seq<Event>)
  {
    |expected| == |actual| && forall i | 0 <= i < |expected| :: Same(expected[i], actual[i])
  }

  // The strategies.

  predicate Mismatch(expected: seq<Event>, actual: seq<Event>, i: nat)
  {
    if i < |expected| && i < |actual| then !Same(expected[i], actual[i]) else i < |expected| || i < |actual|
  }

  function Max(a: int, b: int): int
  {
    if a < b then b else a
  }

  /** Findings of `_exact` below `limit`, one for each index where the traces differ. */
  function Mismatches(expected: seq<Event>, actual: seq<Event>, limit: nat): seq<Finding>
  {
    if limit == 0 then []
    else
      Mismatches(expected, actual, limit - 1)
      + (if Mismatch(expected, actual, limit - 1) then [Finding("DYN001", "error", At(limit - 1))] else [])
  }

  method Exact(expected: seq<Event>, actual: seq<Event>, findings: seq<Finding>) returns (r: seq<Finding>)
    ensures r == findings + Mismatches(expected, actual, Max(|expected|, |actual|))
  {
    r := findings;
    var limit := Max(|expected|, |actual|);
    for index := 0 to limit
      invariant r == findings + Mismatches(expected, actual, index)
    {
      if Mismatch(expected, actual, index) {
        r := r + [Finding("DYN001", "error", At(index))];
      }
    }
  }

  /** `expected` can be found in `actual` in order, at the positions `at`. */
  predicate EmbedsAt(expected: seq<Event>, actual: seq<Event>, at: seq<nat>)
  {
    && |at| == |expected|
    && (forall i | 0 <= i < |at| :: at[i] < |actual| && Same(actual[at[i]], expected[i]))
    && (forall i, j | 0 <= i < j < |at| :: at[i] < at[j])
  }

  ghost predicate Embeds(expected: seq<Event>, actual: seq<Event>)
  {
    exists at :: EmbedsAt(expected, actual, at)
  }

  /** The scan keeps the leftmost embedding: any embedding ends no earlier. */
  ghost predicate Leftmost(expected: seq<Event>, actual: seq<Event>, at: seq<nat>, cursor: nat)
  {
    && EmbedsAt(expected, actual, at) && cursor <= |actual|
    && (at == [] ==> cursor == 0) && (at != [] ==> cursor == at[|at| - 1] + 1)
    && (forall other | EmbedsAt(expected, actual, other) && other != [] :: cursor <= other[|other| - 1] + 1)
  }

  lemma EmbedsPrefix(expected: seq<Event>, actual: seq<Event>, at: seq<nat>, i: nat)
    requires EmbedsAt(expected, actual, at) && i <= |expected|
    ensures EmbedsAt(expected[..i], actual, at[..i])
  {
  }

  /** The events before the next match are too early for any embedding that has one more event. */
  lemma NextIsLeftmost(expected: seq<Event>, actual: seq<Event>, at: seq<nat>, cursor: nat, i: nat, next: nat,
      other: seq<nat>)
    requires i < |expected| && Leftmost(expected[..i], actual, at, cursor)
    requires cursor <= next <= |actual| && forall k | cursor <= k < next :: !Same(actual[k], expected[i])
    requires EmbedsAt(expected[..i + 1], actual, other)
    ensures next <= other[i]
  {
    EmbedsPrefix(expected[..i + 1], actual, other, i);
    assert expected[..i + 1][..i] == expected[..i];
    assert Same(actual[other[i]], expected[i]);
    if i > 0 {
      assert other[..i][i - 1] == other[i - 1] < other[i];
    }
  }

  /** A match further on extends an embedding. */
  lemma ExtendEmbedding(expected: seq<Event>, actual: seq<Event>, at: seq<nat>, i: nat, next: nat)
    requires i < |expected| && EmbedsAt(expected[..i], actual, at) && next < |actual| && Same(actual[next], expected[i])
    requires at != [] ==> at[|at| - 1] < next
    ensures EmbedsAt(expected[..i + 1], actual, at + [next])
  {
    forall k | 0 <= k < |at| ensures at[k] < next {
      assert k < |at| - 1 ==> at[k] < at[|at| - 1];
    }
  }

  lemma ExtendLeftmost(expected: seq<Event>, actual: seq<Event>, at: seq<nat>, cursor: nat, i: nat, next: nat)
    requires i < |expected| && Leftmost(expected[..i], actual, at, cursor)
    requires cursor <= next < |actual| && forall k | cursor <= k < next :: !Same(actual[k], expected[i])
    requires Same(actual[next], expected[i])
    ensures Leftmost(expected[..i + 1], actual, at + [next], next + 1)
  {
    ExtendEmbedding(expected, actual, at, i, next);
    forall other | EmbedsAt(expected[..i + 1], actual, other) ensures next <= other[i] {
      NextIsLeftmost(expected, actual, at, cursor, i, next, other);
    }
  }

  lemma NoNext(expected: seq<Event>, actual: seq<Event>, at: seq<nat>, cursor: nat, i: nat)
    requires i < |expected| && Leftmost(expected[..i], actual, at, cursor)
    requires forall k | cursor <= k < |actual| :: !Same(actual[k], expected[i])
    ensures !Embeds(expected, actual)
  {
    if other :| EmbedsAt(expected, actual, other) {
      EmbedsPrefix(expected, actual, other, i + 1);
      NextIsLeftmost(expected, actual, at, cursor, i, |actual|, other[..i + 1]);
    }
  }

  ghost function SubsequenceFindings(expected: seq<Event>, actual: seq<Event>): seq<Finding>
  {
    if Embeds(expected, actual) then [] else [Finding("DYN002", "error", At(|actual|))]
  }

  /** The scan for one event has passed the positions from `from` to `cursor`. */
  predicate Passed(actual: seq<Event>, event: Event, from: nat, cursor: nat)
  {
    from <= cursor <= |actual| && forall k | from <= k < cursor :: !Same(actual[k], event)
  }

  /** The first i events can be found, and the leftmost embedding of them ends just before `cursor`. */
  ghost predicate Scanned(expected: seq<Event>, actual: seq<Event>, i: nat, cursor: nat)
    requires i <= |expected|
  {
    exists at :: Leftmost(expected[..i], actual, at, cursor)
  }

  lemma ScanStarts(expected: seq<Event>, actual: seq<Event>)
    ensures Scanned(expected, actual, 0, 0)
  {
    var none: seq<nat> := [];
    assert Leftmost(expected[..0], actual, none, 0);
  }

  lemma ScanFinds(expected: seq<Event>, actual: seq<Event>, i: nat, from: nat, cursor: nat)
    requires i < |expected| && Scanned(expected, actual, i, from) && Passed(actual, expected[i], from, cursor)
    requires cursor < |actual| && Same(actual[cursor], expected[i])
    ensures Scanned(expected, actual, i + 1, cursor + 1)
  {
    var at :| Leftmost(expected[..i], actual, at, from);
    ExtendLeftmost(expected, actual, at, from, i, cursor);
  }

  lemma ScanFails(expected: seq<Event>, actual: seq<Event>, i: nat, from: nat)
    requires i < |expected| && Scanned(expected, actual, i, from) && Passed(actual, expected[i], from, |actual|)
    ensures !Embeds(expected, actual)
  {
    var at :| Leftmost(expected[..i], actual, at, from);
    NoNext(expected, actual, at, from, i);
  }

  lemma ScanEnds(expected: seq<Event>, actual: seq<Event>, cursor: nat)
    requires Scanned(expected, actual, |expected|, cursor)
    ensures Embeds(expected, actual)
  {
    assert expected[..|expected|] == expected;
    var at :| Leftmost(expected[..|expected|], actual, at, cursor);
  }

  method Subsequence(expected: seq<Event>, actual: seq<Event>, findings: seq<Finding>) returns (r: seq<Finding>)
    ensures r == findings + SubsequenceFindings(expected, actual)
  {
    var cursor := 0;
    ScanStarts(expected, actual);
    for i := 0 to |expected|
      invariant Scanned(expected, actual, i, cursor)
    {
      var event := expected[i];
      ghost var from := cursor;
      while cursor < |actual| && !Same(actual[cursor], event)
        invariant Passed(actual, event, from, cursor)
      {
        cursor := cursor + 1;
      }
      if cursor == |actual| {
        ScanFails(expected, actual, i, from);
        return findings + [Finding("DYN002", "error", At(cursor))];
      }
      ScanFinds(expected, actual, i, from, cursor);
      cursor := cursor + 1;
    }
    ScanEnds(expected, actual, cursor);
    assert findings + [] == findings;
    r := findings;
  }

  /** `event.key()` of each event; `key` is the canonical JSON text of an event. */
  function Keys(es: seq<Event>, key: Event -> string): seq<string>
  {
    seq(|es|, i requires 0 <= i < |es| => key(es[i]))
  }

  /** The keys of a counter, in the order of their first occurrence. */
  function Distinct(keys: seq<string>): (r: seq<string>)
    ensures forall k :: k in r <==> k in keys
  {
    if keys == [] then []
    else
      var init, last := Distinct(keys[..|keys| - 1]), keys[|keys| - 1];
      assert keys == keys[..|keys| - 1] + [last];
      if last in init then init else init + [last]
  }

  function Surplus(keys: seq<string>, expected: multiset<string>, actual: multiset<string>): seq<Finding>
  {
    if keys == [] then []
    else
      var key := keys[|keys| - 1];
      Surplus(keys[..|keys| - 1], expected, actual)
      + (if actual[key] > expected[key] then [Finding("DYN003", "error", Named(key))] else [])
  }

  method Duplicates(expected: seq<Event>, actual: seq<Event>, key: Event -> string, findings: seq<Finding>)
      returns (r: seq<Finding>)
    ensures var e, a := Keys(expected, key), Keys(actual, key);
      r == findings + Surplus(Distinct(a), multiset(e), multiset(a))
  {
    var expectedCounts, actualCounts := multiset(Keys(expected, key)), multiset(Keys(actual, key));
    var keys := Distinct(Keys(actual, key));
    r := findings;
    for i := 0 to |keys|
      invariant r == findings + Surplus(keys[..i], expectedCounts, actualCounts)
    {
      assert keys[..i + 1][..i] == keys[..i] && keys[..i + 1][i] == keys[i];
      if actualCounts[keys[i]] > expectedCounts[keys[i]] {
        r := r + [Finding("DYN003", "error", Named(keys[i]))];
      }
    }
    assert keys[..|keys|] == keys;
  }

  function States(es: seq<Event>): seq<string>
  {
    if es == [] then [] else (if es[0].category == "state" then [es[0].state] else []) + States(es[1..])
  }

  function StateFindings(expected: seq<Event>, actual: seq<Event>): seq<Finding>
  {
    if States(expected) != States(actual) then [Finding("DYN004", "error", Nowhere)] else []
  }

  function Links(es: seq<Event>): set<string>
  {
    set e | e in es && e.outcomeRef != "" :: e.outcomeRef
  }

  function LinkFindings(expected: seq<Event>, actual: seq<Event>): seq<Finding>
  {
    if Links(expected) != Links(actual) then [Finding("DYN005", "error", Nowhere)] else []
  }

  const STRATEGIES: set<string> := {"exact", "ordered-subsequence", "state-invariant", "outcome-linked"}

  ghost function FindingsBy(strategy: string, expected: seq<Event>, actual: seq<Event>,
      key: Event -> string): seq<Finding>
  {
    if strategy == "exact" then Mismatches(expected, actual, Max(|expected|, |actual|))
    else if strategy == "ordered-subsequence" then
      var e, a := Keys(expected, key), Keys(actual, key);
      SubsequenceFindings(expected, actual) + Surplus(Distinct(a), multiset(e), multiset(a))
    else if strategy == "state-invariant" then StateFindings(expected, actual)
    else SubsequenceFindings(expected, actual) + LinkFindings(expected, actual)
  }

  /** The result of a comparison that was made. */
  function Compared(contract: string, strategy: string, findings: seq<Finding>, expected: nat, actual: nat): Result
  {
    Layer(contract, if findings != [] then Failed else Verified, findings,
      Some(Evidence(contract + ".dynamic", if findings == [] then "verified"
        else "implemented", strategy, expected, actual)))
  }

  ghost function Outcome(reference: Trace, candidate: Trace, strategy: string, text: string -> string,
      key: Event -> string): Result
  {
    if strategy !in STRATEGIES then Raised(UnknownStrategy)
    else if reference.contract != candidate.contract then Raised(ContractMismatch)
    else if !reference.executable then
      Layer(reference.contract, Inconclusive, [Finding("DYN000", "warning", Named(reference.contract))], None)
    else
      var findings := FindingsBy(strategy, NormalizeEvents(reference.events, text),
        NormalizeEvents(candidate.events, text), key);
      Compared(reference.contract, strategy, findings, |reference.events|, |candidate.events|)
  }

  method Compare(reference: Trace, candidate: Trace, strategy: string, text: string -> string, key: Event -> string)
      returns (r: Result)
    ensures r == Outcome(reference, candidate, strategy, text, key)
  {
    if strategy !in STRATEGIES {
      return Raised(UnknownStrategy);
    }
    if reference.contract != candidate.contract {
      return Raised(ContractMismatch);
    }
    if !reference.executable {
      return Layer(reference.contract, Inconclusive, [Finding("DYN000", "warning", Named(reference.contract))], None);
    }
    var expected, actual := NormalizeEvents(reference.events, text), NormalizeEvents(candidate.events, text);
    var findings := RunStrategy(strategy, expected, actual, key);
    r := Compared(reference.contract, strategy, findings, |expected|, |actual|);
  }

  method RunStrategy(strategy: string, expected: seq<Event>, actual: seq<Event>, key: Event -> string)
      returns (findings: seq<Finding>)
    ensures findings == FindingsBy(strategy, expected, actual, key)
  {
    findings := [];
    if strategy == "exact" {
      findings := Exact(expected, actual, findings);
      ByExact(expected, actual, key);
    } else if strategy == "ordered-subsequence" {
      findings := Subsequence(expected, actual, findings);
      findings := Duplicates(expected, actual, key, findings);
      ByOrder(expected, actual, key);
    } else if strategy == "state-invariant" {
      findings := findings + StateFindings(expected, actual);
      ByStates(expected, actual, key);
    } else {
      findings := Subsequence(expected, actual, findings);
      findings := findings + LinkFindings(expected, actual);
      ByOutcome(strategy, expected, actual, key);
    }
  }

  lemma ByExact(expected: seq<Event>, actual: seq<Event>, key: Event -> string)
    ensures FindingsBy("exact", expected, actual, key) == [] + Mismatches(expected, actual, Max(|expected|, |actual|))
  {
  }

  lemma ByOrder(expected: seq<Event>, actual: seq<Event>, key: Event -> string)
    ensures var e, a := Keys(expected, key), Keys(actual, key);
      FindingsBy("ordered-subsequence", expected, actual, key) ==
        [] + SubsequenceFindings(expected, actual) + Surplus(Distinct(a), multiset(e), multiset(a))
  {
  }

  lemma ByStates(expected: seq<Event>, actual: seq<Event>, key: Event -> string)
    ensures FindingsBy("state-invariant", expected, actual, key) == [] + StateFindings(expected, actual)
  {
  }

  lemma ByOutcome(strategy: string, expected: seq<Event>, actual: seq<Event>, key: Event -> string)
    requires strategy !in {"exact", "ordered-subsequence", "state-invariant"}
    ensures FindingsBy(strategy, expected, actual, key) ==
      [] + SubsequenceFindings(expected, actual) + LinkFindings(expected, actual)
  {
  }

  // How the strategies compare.

  ghost predicate VerifiedBy(strategy: string, reference: Trace, candidate: Trace, text: string -> string,
      key: Event -> string)
  {
    var r := Outcome(reference, candidate, strategy, text, key);
    r.Layer? && r.verdict == Verified
  }

  lemma {:induction false} MismatchesAreExact(expected: seq<Event>, actual: seq<Event>, limit: nat)
    ensures Mismatches(expected, actual, limit) == [] <==> forall i | 0 <= i < limit :: !Mismatch(expected, actual, i)
  {
    if limit > 0 {
      MismatchesAreExact(expected, actual, limit - 1);
    }
  }

  /** The exact strategy finds nothing exactly of equal traces. */
  lemma ExactMeansSame(expected: seq<Event>, actual: seq<Event>)
    ensures Mismatches(expected, actual, Max(|expected|, |actual|)) == [] <==> SameEvents(expected, actual)
  {
    var limit := Max(|expected|, |actual|);
    MismatchesAreExact(expected, actual, limit);
    if forall i | 0 <= i < limit :: !Mismatch(expected, actual, i) {
      assert limit > 0 ==> !Mismatch(expected, actual, limit - 1);
      assert forall i | 0 <= i < limit :: Mismatch(expected, actual, i) == !Same(expected[i], actual[i]);
    }
    if SameEvents(expected, actual) {
      assert forall i | 0 <= i < limit :: !Mismatch(expected, actual, i);
    }
  }

  lemma {:induction false} SurplusMeansMore(keys: seq<string>, expected: multiset<string>, actual: multiset<string>)
    ensures Surplus(keys, expected, actual) == [] <==> forall k | k in keys :: actual[k] <= expected[k]
  {
    if keys != [] {
      SurplusMeansMore(keys[..|keys| - 1], expected, actual);
      assert keys == keys[..|keys| - 1] + [keys[|keys| - 1]];
    }
  }

  lemma NoSurplus(e: seq<string>, a: seq<string>)
    ensures Surplus(Distinct(a), multiset(e), multiset(a)) == [] <==> multiset(a) <= multiset(e)
  {
    SurplusMeansMore(Distinct(a), multiset(e), multiset(a));
    if forall k | k in Distinct(a) :: multiset(a)[k] <= multiset(e)[k] {
      forall k ensures multiset(a)[k] <= multiset(e)[k] {
        assert k in a || multiset(a)[k] == 0;
      }
    }
  }

  // Increasing positions lie at least as far as their number.

  lemma {:induction false} FromLeft(at: seq<nat>, i: nat)
    requires i < |at| && forall i, j | 0 <= i < j < |at| :: at[i] < at[j]
    ensures at[i] >= i
  {
    if i > 0 { FromLeft(at, i - 1); }
  }

  lemma {:induction false} FromRight(at: seq<nat>, i: nat, bound: nat)
    requires i < |at| && forall i, j | 0 <= i < j < |at| :: at[i] < at[j]
    requires forall j | 0 <= j < |at| :: at[j] < bound
    ensures at[i] <= bound - |at| + i
    decreases |at| - i
  {
    if i < |at| - 1 { FromRight(at, i + 1, bound); }
  }

  /** An embedding is no longer than its target, and one into a target of its own length is the identity. */
  lemma EmbedsInSameLength(expected: seq<Event>, actual: seq<Event>)
    requires Embeds(expected, actual)
    ensures |expected| <= |actual|
    ensures |expected| == |actual| ==> SameEvents(expected, actual)
  {
    var at :| EmbedsAt(expected, actual, at);
    Squeezed(at, |actual|);
  }

  lemma Squeezed(at: seq<nat>, bound: nat)
    requires forall i, j | 0 <= i < j < |at| :: at[i] < at[j]
    requires forall j | 0 <= j < |at| :: at[j] < bound
    ensures |at| <= bound
    ensures |at| == bound ==> forall i | 0 <= i < bound :: at[i] == i
  {
    forall i | 0 <= i < |at| ensures i <= at[i] <= bound - |at| + i {
      FromLeft(at, i);
      FromRight(at, i, bound);
    }
    if |at| > 0 { FromLeft(at, |at| - 1); }
  }

  lemma SameEmbeds(expected: seq<Event>, actual: seq<Event>)
    requires SameEvents(expected, actual)
    ensures Embeds(expected, actual)
  {
    var at: seq<nat> := seq(|expected|, i requires 0 <= i < |expected| => i);
    assert EmbedsAt(expected, actual, at);
  }

  lemma SubMultiset(a: multiset<string>, b: multiset<string>)
    requires a <= b && |a| >= |b|
    ensures a == b
  {
    assert b == a + (b - a);
  }

  /** The required order and the bound on counts together leave only equal traces. */
  lemma OrderedMeansSame(expected: seq<Event>, actual: seq<Event>, key: Event -> string)
    ensures FindingsBy("ordered-subsequence", expected, actual, key) == [] <==>
      SameEvents(expected, actual) && multiset(Keys(expected, key)) == multiset(Keys(actual, key))
  {
    var e, a := Keys(expected, key), Keys(actual, key);
    NoSurplus(e, a);
    assert |multiset(e)| == |expected| && |multiset(a)| == |actual|;
    if Embeds(expected, actual) && multiset(a) <= multiset(e) {
      EmbedsInSameLength(expected, actual);
      assert multiset(e) == multiset(a) + (multiset(e) - multiset(a));
      SubMultiset(multiset(a), multiset(e));
    }
    if SameEvents(expected, actual) {
      SameEmbeds(expected, actual);
    }
  }

  /** `ordered-subsequence` verifies a pair exactly when `exact` does and the events have the same keys. */
  lemma OrderedIffExact(reference: Trace, candidate: Trace, text: string -> string, key: Event -> string)
    requires reference.executable
    ensures VerifiedBy("ordered-subsequence", reference, candidate, text, key) <==>
      && VerifiedBy("exact", reference, candidate, text, key)
      && multiset(Keys(NormalizeEvents(reference.events, text), key))
        == multiset(Keys(NormalizeEvents(candidate.events, text), key))
  {
    var expected, actual := NormalizeEvents(reference.events, text), NormalizeEvents(candidate.events, text);
    OrderedMeansSame(expected, actual, key);
    ExactMeansSame(expected, actual);
  }

  lemma SameKeys(expected: seq<Event>, actual: seq<Event>, key: Event -> string)
    requires SameEvents(expected, actual)
    requires forall e, f | e in expected && f in actual && Same(e, f) :: key(e) == key(f)
    ensures Keys(expected, key) == Keys(actual, key)
  {
    forall i | 0 <= i < |expected| ensures key(expected[i]) == key(actual[i]) {
      assert expected[i] in expected && actual[i] in actual && Same(expected[i], actual[i]);
    }
  }

  /** Where equal events have one key, the two strategies verify the same pairs. */
  lemma OrderedIsExact(reference: Trace, candidate: Trace, text: string -> string, key: Event -> string)
    requires reference.executable
    requires forall e, f | e in NormalizeEvents(reference.events, text)
      && f in NormalizeEvents(candidate.events, text) && Same(e, f) :: key(e) == key(f)
    ensures VerifiedBy("ordered-subsequence", reference, candidate, text, key)
      <==> VerifiedBy("exact", reference, candidate, text, key)
  {
    var expected, actual := NormalizeEvents(reference.events, text), NormalizeEvents(candidate.events, text);
    OrderedIffExact(reference, candidate, text, key);
    ExactMeansSame(expected, actual);
    if SameEvents(expected, actual) {
      SameKeys(expected, actual, key);
    }
  }

  const YES: Event := Event("state", "n", map["ok" := Bool(true)], "", "", "")
  const ONE: Event := Event("state", "n", map["ok" := Int(1)], "", "", "")

  /** `true` equals `1`: where their JSON texts differ, such a pair passes `exact` and fails `ordered-subsequence`. */
  lemma ExactButNotOrdered(text: string -> string, key: Event -> string)
    requires key(YES) != key(ONE)
    ensures var reference, candidate := Trace("c", [YES], true), Trace("c", [ONE], true);
      && VerifiedBy("exact", reference, candidate, text, key)
      && !VerifiedBy("ordered-subsequence", reference, candidate, text, key)
  {
    var yes, one := YES, ONE;
    var reference, candidate := Trace("c", [yes], true), Trace("c", [one], true);
    var expected, actual := NormalizeEvents([yes], text), NormalizeEvents([one], text);
    PlainScalarStays(yes, text, Bool(true));
    PlainScalarStays(one, text, Int(1));
    assert expected == [yes] && actual == [one];
    assert PlainEvent(yes) == PlainEvent(one);
    ExactMeansSame(expected, actual);
    OrderedIffExact(reference, candidate, text, key);
    DifferentKeys(key, yes, one);
  }

  lemma PlainScalarStays(e: Event, text: string -> string, v: Value)
    requires v.Bool? || v.Int?
    requires e.payload == map["ok" := v]
    ensures NormalizeEvent(e, text) == e
  {
    assert "ok" !in NON_SEMANTIC_KEYS;
    assert Normalize(Table(e.payload), text).entries == e.payload;
  }

  lemma DifferentKeys(key: Event -> string, e: Event, f: Event)
    requires key(e) != key(f)
    ensures multiset(Keys([e], key)) != multiset(Keys([f], key))
  {
    assert Keys([e], key) == [key(e)] && Keys([f], key) == [key(f)];
    assert key(e) in multiset([key(e)]);
  }

  lemma {:induction false} SameStatesAndLinks(expected: seq<Event>, actual: seq<Event>)
    requires SameEvents(expected, actual)
    ensures States(expected) == States(actual) && Links(expected) <= Links(actual)
  {
    if expected != [] {
      var e, a := expected[1..], actual[1..];
      assert forall i | 0 <= i < |e| :: e[i] == expected[i + 1] && a[i] == actual[i + 1];
      SameStatesAndLinks(e, a);
      assert Same(expected[0], actual[0]);
      forall x | x in expected && x.outcomeRef != "" ensures x.outcomeRef in Links(actual) {
        var i :| 0 <= i < |expected| && expected[i] == x;
        assert Same(x, actual[i]) && actual[i] in actual;
      }
    }
  }

  lemma SameIsSymmetric(expected: seq<Event>, actual: seq<Event>)
    requires SameEvents(expected, actual)
    ensures SameEvents(actual, expected)
  {
  }

  lemma SameStates(expected: seq<Event>, actual: seq<Event>)
    requires SameEvents(expected, actual)
    ensures StateFindings(expected, actual) == []
  {
    SameStatesAndLinks(expected, actual);
  }

  lemma SameLinks(expected: seq<Event>, actual: seq<Event>)
    requires SameEvents(expected, actual)
    ensures LinkFindings(expected, actual) == []
  {
    SameIsSymmetric(expected, actual);
    SameStatesAndLinks(expected, actual);
    SameStatesAndLinks(actual, expected);
  }

  lemma VerifiedBySame(reference: Trace, candidate: Trace, text: string -> string, key: Event -> string)
    requires VerifiedBy("exact", reference, candidate, text, key)
    ensures SameEvents(NormalizeEvents(reference.events, text), NormalizeEvents(candidate.events, text))
  {
    ExactMeansSame(NormalizeEvents(reference.events, text), NormalizeEvents(candidate.events, text));
  }

  /** A pair verified by `exact` is verified by the two weaker strategies. */
  lemma ExactImpliesWeaker(reference: Trace, candidate: Trace, text: string -> string, key: Event -> string)
    requires VerifiedBy("exact", reference, candidate, text, key)
    ensures VerifiedBy("state-invariant", reference, candidate, text, key)
    ensures VerifiedBy("outcome-linked", reference, candidate, text, key)
  {
    VerifiedBySame(reference, candidate, text, key);
    var expected, actual := NormalizeEvents(reference.events, text), NormalizeEvents(candidate.events, text);
    SameStates(expected, actual);
    SameLinks(expected, actual);
    SameEmbeds(expected, actual);
  }

  // What each strategy asks of the events.

  /** The positions of the events of a trace that hold a state. */
  ghost predicate ListsStates(es: seq<Event>, at: seq<nat>)
  {
    && (forall i, j | 0 <= i < j < |at| :: at[i] < at[j])
    && (forall i | 0 <= i < |at| :: at[i] < |es| && es[at[i]].category == "state")
    && forall p: nat | p < |es| && es[p].category == "state" :: p in at
  }

  /** The states of the listed events. */
  function StatesOf(es: seq<Event>, at: seq<nat>): seq<string>
    requires forall i | 0 <= i < |at| :: at[i] < |es|
  {
    seq(|at|, i requires 0 <= i < |at| => es[at[i]].state)
  }

  lemma StatesOfCons(es: seq<Event>, at: seq<nat>, rest: seq<nat>)
    requires ListsStates(es, at) && es != [] && (es[0].category == "state" <==> at != [] && at[0] == 0)
    requires rest == if es[0].category == "state" then at[1..] else at
    ensures StatesOf(es, at) == (if es[0].category == "state" then [es[0].state] else []) + StatesOf(es, rest)
  {
  }

  function Lessened(rest: seq<nat>): (less: seq<nat>)
    ensures |less| == |rest| && forall i | 0 <= i < |rest| :: less[i] == Less(rest[i])
  {
    seq(|rest|, i requires 0 <= i < |rest| => Less(rest[i]))
  }

  lemma {:induction false} StatesAt(es: seq<Event>, at: seq<nat>)
    requires ListsStates(es, at)
    ensures States(es) == StatesOf(es, at)
    decreases |es|
  {
    ghost var start := if at == [] then 0 else at[0];
    if es != [] {
      FirstState(es, at);
      var rest := if es[0].category == "state" then at[1..] else at;
      RestListed(es, at, rest, Lessened(rest));
      StatesAt(es[1..], Lessened(rest));
      ShiftedStates(es, rest, Lessened(rest));
      StatesOfCons(es, at, rest);
    }
  }

  function Less(n: nat): nat
  {
    if n == 0 then 0 else n - 1
  }

  lemma ShiftedStates(es: seq<Event>, rest: seq<nat>, less: seq<nat>)
    requires es != [] && |less| == |rest| && forall i | 0 <= i < |rest| :: 0 < rest[i] < |es| && less[i] == rest[i] - 1
    ensures StatesOf(es[1..], less) == StatesOf(es, rest)
  {
    forall i | 0 <= i < |rest| ensures es[1..][less[i]] == es[rest[i]] {}
  }

  lemma FirstState(es: seq<Event>, at: seq<nat>)
    requires ListsStates(es, at) && es != []
    ensures es[0].category == "state" <==> at != [] && at[0] == 0
    ensures forall i | 0 < i < |at| :: at[i] > 0
  {
    if es[0].category == "state" {
      assert 0 in at;
      var i :| 0 <= i < |at| && at[i] == 0;
      ghost var start := at[0];
    }
  }

  lemma RestPositive(es: seq<Event>, at: seq<nat>, rest: seq<nat>)
    requires ListsStates(es, at) && es != [] && (es[0].category == "state" <==> at != [] && at[0] == 0)
    requires rest == if es[0].category == "state" then at[1..] else at
    ensures forall i | 0 <= i < |rest| :: 0 < rest[i] < |es| && es[rest[i]].category == "state"
  {
    forall i | 0 <= i < |rest| ensures 0 < rest[i] < |es| && es[rest[i]].category == "state" {
      var j := if es[0].category == "state" then i + 1 else i;
      assert rest[i] == at[j] && (j > 0 ==> at[0] < at[j]);
    }
  }

  lemma RestComplete(es: seq<Event>, at: seq<nat>, rest: seq<nat>, p: nat)
    requires ListsStates(es, at) && es != [] && (es[0].category == "state" <==> at != [] && at[0] == 0)
    requires rest == if es[0].category == "state" then at[1..] else at
    requires 0 < p < |es| && es[p].category == "state"
    ensures p in rest
  {
    assert p in at;
    if es[0].category == "state" { assert at == [at[0]] + rest; }
  }

  lemma LessListed(es: seq<Event>, rest: seq<nat>, less: seq<nat>)
    requires es != [] && |less| == |rest| && forall i | 0 <= i < |rest| :: less[i] == Less(rest[i])
    requires forall i, j | 0 <= i < j < |rest| :: rest[i] < rest[j]
    requires forall i | 0 <= i < |rest| :: 0 < rest[i] < |es| && es[rest[i]].category == "state"
    requires forall p: nat | 0 < p < |es| && es[p].category == "state" :: p in rest
    ensures ListsStates(es[1..], less)
  {
    forall p: nat | p < |es[1..]| && es[1..][p].category == "state" ensures p in less {
      assert es[p + 1].category == "state";
      var j :| 0 <= j < |rest| && rest[j] == p + 1;
      assert less[j] == p;
    }
  }

  lemma RestListed(es: seq<Event>, at: seq<nat>, rest: seq<nat>, less: seq<nat>)
    requires ListsStates(es, at) && es != [] && (es[0].category == "state" <==> at != [] && at[0] == 0)
    requires rest == if es[0].category == "state" then at[1..] else at
    requires |less| == |rest| && forall i | 0 <= i < |rest| :: less[i] == Less(rest[i])
    ensures ListsStates(es[1..], less)
    ensures forall i | 0 <= i < |rest| :: 0 < rest[i] < |es|
  {
    RestPositive(es, at, rest);
    forall p: nat | 0 < p < |es| && es[p].category == "state" ensures p in rest {
      RestComplete(es, at, rest, p);
    }
    LessListed(es, rest, less);
  }

  lemma NormalizedStates(es: seq<Event>, at: seq<nat>, text: string -> string)
    requires ListsStates(es, at)
    ensures ListsStates(NormalizeEvents(es, text), at)
  {
    assert forall p: nat | p < |es| :: NormalizeEvents(es, text)[p].category == es[p].category;
  }

  /** Both traces are there to compare. */
  predicate Comparable(reference: Trace, candidate: Trace)
  {
    reference.executable && reference.contract == candidate.contract
  }

  /** `exact`: the normalised events are equal one by one. */
  lemma ExactIff(reference: Trace, candidate: Trace, text: string -> string, key: Event -> string)
    ensures VerifiedBy("exact", reference, candidate, text, key) <==>
      && Comparable(reference, candidate)
      && SameEvents(NormalizeEvents(reference.events, text), NormalizeEvents(candidate.events, text))
  {
    ExactMeansSame(NormalizeEvents(reference.events, text), NormalizeEvents(candidate.events, text));
  }

  lemma SameStatesOf(es: seq<Event>, p: seq<nat>, fs: seq<Event>, q: seq<nat>)
    requires (forall i | 0 <= i < |p| :: p[i] < |es|) && (forall i | 0 <= i < |q| :: q[i] < |fs|)
    ensures StatesOf(es, p) == StatesOf(fs, q) <==>
      |p| == |q| && forall i | 0 <= i < |p| :: es[p[i]].state == fs[q[i]].state
  {
    var a, b := StatesOf(es, p), StatesOf(fs, q);
    if a == b {
      forall i | 0 <= i < |p| ensures es[p[i]].state == fs[q[i]].state { assert a[i] == b[i]; }
    }
  }

  /** `state-invariant`: the events that hold a state are as many in both, with the same states in turn. */
  lemma StateInvariantIff(reference: Trace, candidate: Trace, text: string -> string, key: Event -> string,
      p: seq<nat>, q: seq<nat>)
    requires ListsStates(reference.events, p) && ListsStates(candidate.events, q)
    ensures VerifiedBy("state-invariant", reference, candidate, text, key) <==>
      && Comparable(reference, candidate)
      && |p| == |q| && forall i | 0 <= i < |p| :: reference.events[p[i]].state == candidate.events[q[i]].state
  {
    var expected, actual := NormalizeEvents(reference.events, text), NormalizeEvents(candidate.events, text);
    NormalizedStates(reference.events, p, text);
    NormalizedStates(candidate.events, q, text);
    StatesAt(expected, p);
    StatesAt(actual, q);
    ByStates(expected, actual, key);
    SameStatesOf(expected, p, actual, q);
  }

  /** Some event refers to the outcome. */
  ghost predicate RefersTo(es: seq<Event>, ref: string)
  {
    exists i | 0 <= i < |es| :: es[i].outcomeRef == ref
  }

  lemma LinksAre(es: seq<Event>, text: string -> string, ref: string)
    requires ref != ""
    ensures ref in Links(NormalizeEvents(es, text)) <==> RefersTo(es, ref)
  {
    var ns := NormalizeEvents(es, text);
    if RefersTo(es, ref) {
      var i :| 0 <= i < |es| && es[i].outcomeRef == ref;
      assert ns[i] in ns && ns[i].outcomeRef == ref;
    }
    if ref in Links(ns) {
      var e :| e in ns && e.outcomeRef == ref;
      var i :| 0 <= i < |ns| && ns[i] == e;
      assert es[i].outcomeRef == ref;
    }
  }

  /** `outcome-linked`: the normalised reference events are found in order among the candidate's, and both refer to the
      same outcomes. */
  lemma OutcomeLinkedIff(reference: Trace, candidate: Trace, text: string -> string, key: Event -> string)
    ensures VerifiedBy("outcome-linked", reference, candidate, text, key) <==>
      && Comparable(reference, candidate)
      && Embeds(NormalizeEvents(reference.events, text), NormalizeEvents(candidate.events, text))
      && forall ref | ref != "" :: RefersTo(reference.events, ref) <==> RefersTo(candidate.events, ref)
  {
    var expected, actual := NormalizeEvents(reference.events, text), NormalizeEvents(candidate.events, text);
    ByOutcome("outcome-linked", expected, actual, key);
    forall ref | ref != ""
      ensures ref in Links(expected) <==> RefersTo(reference.events, ref)
      ensures ref in Links(actual) <==> RefersTo(candidate.events, ref) {
      LinksAre(reference.events, text, ref);
      LinksAre(candidate.events, text, ref);
    }
    assert Links(expected) == Links(actual) <==>
      forall ref | ref != "" :: ref in Links(expected) <==> ref in Links(actual);
  }

  /** The surplus findings name exactly the keys that occur more often than expected. */
  lemma {:induction false} SurplusNames(keys: seq<string>, expected: multiset<string>, actual: multiset<string>,
      f: Finding)
    ensures f in Surplus(keys, expected, actual) <==>
      exists k | k in keys :: f == Finding("DYN003", "error", Named(k)) && actual[k] > expected[k]
  {
    if keys != [] {
      var init, k := keys[..|keys| - 1], keys[|keys| - 1];
      SurplusNames(init, expected, actual, f);
      assert keys == init + [k];
    }
  }

  /** Each key once, the keys in the order in which they first occur. */
  lemma {:induction false} DistinctInOrder(keys: seq<string>, i: nat, j: nat)
    requires i < j < |Distinct(keys)|
    ensures exists p: nat | p < |keys| :: keys[p] == Distinct(keys)[i] && Distinct(keys)[j] !in keys[..p + 1]
    decreases |keys|
  {
    var init, last := keys[..|keys| - 1], keys[|keys| - 1];
    assert keys == init + [last];
    if j < |Distinct(init)| {
      DistinctInOrder(init, i, j);
      var p: nat :| p < |init| && init[p] == Distinct(init)[i] && Distinct(init)[j] !in init[..p + 1];
      assert keys[p] == init[p] && keys[..p + 1] == init[..p + 1];
    } else {
      assert Distinct(keys)[j] == last && last !in Distinct(init) && last !in init;
      var first := Distinct(init)[i];
      assert first in init;
      var p: nat :| p < |init| && init[p] == first;
      assert keys[..p + 1] == init[..p + 1];
    }
  }

  /** Normalising twice is normalising once, if it is so for single strings. */
  lemma {:induction false} NormalizeTwice(v: Value, text: string -> string)
    requires forall s :: text(text(s)) == text(s)
    ensures Normalize(Normalize(v, text), text) == Normalize(v, text)
  {
    match v
    case Table(entries) =>
      forall name | name in entries { NormalizeTwice(entries[name], text); }
      assert Normalize(Normalize(v, text), text).entries == Normalize(v, text).entries;
    case List(items) =>
      forall k | 0 <= k < |items| { NormalizeTwice(items[k], text); }
    case _ =>
  }

  /** The value without the non-semantic keys of its tables, at every depth. */
  function Quiet(v: Value): Value
  {
    match v
    case Table(entries) => Table(map name | name in entries && name !in NON_SEMANTIC_KEYS :: Quiet(entries[name]))
    case List(items) => List(seq(|items|, k requires 0 <= k < |items| => Quiet(items[k])))
    case _ => v
  }

  function QuietEvent(e: Event): Event
  {
    e.(payload := Quiet(Table(e.payload)).entries)
  }

  function QuietTrace(t: Trace): Trace
  {
    t.(events := seq(|t.events|, i requires 0 <= i < |t.events| => QuietEvent(t.events[i])))
  }

  lemma {:induction false} NormalizeOfQuiet(v: Value, text: string -> string)
    ensures Normalize(Quiet(v), text) == Normalize(v, text)
  {
    match v
    case Table(entries) =>
      forall name | name in entries { NormalizeOfQuiet(entries[name], text); }
      assert Normalize(Quiet(v), text).entries == Normalize(v, text).entries;
    case List(items) =>
      forall k | 0 <= k < |items| { NormalizeOfQuiet(items[k], text); }
    case _ =>
  }

  lemma NormalizeOfQuietTrace(t: Trace, text: string -> string)
    ensures NormalizeEvents(QuietTrace(t).events, text) == NormalizeEvents(t.events, text)
  {
    forall i | 0 <= i < |t.events| ensures NormalizeEvent(QuietEvent(t.events[i]), text)
      == NormalizeEvent(t.events[i], text) {
      NormalizeOfQuiet(Table(t.events[i].payload), text);
    }
  }

  lemma QuietOutcome(reference: Trace, candidate: Trace, strategy: string, text: string -> string, key: Event -> string)
    ensures Outcome(reference, candidate, strategy, text, key)
      == Outcome(QuietTrace(reference), QuietTrace(candidate), strategy, text, key)
  {
    NormalizeOfQuietTrace(reference, text);
    NormalizeOfQuietTrace(candidate, text);
  }

  /** Traces that differ only in non-semantic keys, at whatever depth, have the same comparisons. */
  lemma NoiseIsIgnored(reference: Trace, candidate: Trace, reference': Trace, candidate': Trace, strategy: string,
      text: string -> string, key: Event -> string)
    requires QuietTrace(reference) == QuietTrace(reference') && QuietTrace(candidate) == QuietTrace(candidate')
    ensures Outcome(reference, candidate, strategy, text, key) == Outcome(reference', candidate', strategy, text, key)
  {
    QuietOutcome(reference, candidate, strategy, text, key);
    QuietOutcome(reference', candidate', strategy, text, key);
  }
}
