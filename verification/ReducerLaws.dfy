/** Conservation laws over every run of the reducer. */
module ReducerLaws {
  import opened Wrappers
  import opened Reducer
  import opened ReducerHistory
  import DiffScan

  function If(b: bool): nat
  {
    if b then 1 else 0
  }

  /** The size of a set after one element was taken out, if it was there, and one put in, if `put`. */
  lemma Replaced<T>(a: set<T>, b: set<T>, x: T, put: bool)
    requires b == a - {x} + (if put then {x} else {})
    ensures |b| + If(x in a) == |a| + If(put)
  {
    if x in a { assert a == (a - {x}) + {x}; } else { assert a - {x} == a; }
  }

  // ---------------------------------------------------------------- which fact touches what

  lemma SummariesFrame(s: State, f: Fact, lib: DiffScan.Library)
    requires !f.ItemCompleted? && !f.RequestAborted? && !f.ReviewResponse? && !f.GuardianCompleted?
    ensures Step(s, f, lib).state.summaries == s.summaries
  {
  }

  // ---------------------------------------------------------------- steers

  function PendingSteers(s: State): set<(int, string)>
  {
    set k | k in s.requests && s.requests[k].PendingSteer?
  }

  function CountSteers(events: seq<Event>): nat
  {
    if events == [] then 0 else (if events[0].SteerEvent? then 1 else 0) + CountSteers(events[1..])
  }

  function SteersTracked(facts: seq<Fact>): nat
  {
    if facts == [] then 0
      else SteersTracked(facts[..|facts| - 1]) + (if facts[|facts| - 1].TrackTurnSteer? then 1 else 0)
  }

  function SteersEmitted(facts: seq<Fact>, lib: DiffScan.Library): nat
  {
    if facts == [] then 0
    else SteersEmitted(facts[..|facts| - 1],
      lib) + CountSteers(Step(StateAfter(facts[..|facts| - 1], lib), facts[|facts| - 1], lib).events)
  }

  lemma {:induction false} NoSteers(events: seq<Event>)
    requires forall e | e in events :: !e.SteerEvent?
    ensures CountSteers(events) == 0
  {
    if events != [] { NoSteers(events[1..]); }
  }

  /** The fact ends a pending steer without an answer to it: another request takes its key, or a start is answered under
      its key. */
  predicate LosesSteer(before: seq<Fact>, f: Fact)
  {
    && (f.TrackTurnStart? || f.TrackTurnSteer? || f.TurnStartError? || f.TurnStartResponse?)
    && SteerPending(before, f.conn, f.req)
  }

  function SteersLost(facts: seq<Fact>): nat
  {
    if facts == [] then 0
    else
      var before := facts[..|facts| - 1];
      SteersLost(before) + If(LosesSteer(before, facts[|facts| - 1]))
  }

  lemma PendingSteersStep(s: State, f: Fact, lib: DiffScan.Library)
    requires AboutRequests(f)
    ensures PendingSteers(Step(s, f, lib).state)
      == PendingSteers(s) - {(f.conn, f.req)} + (if f.TrackTurnSteer? then {(f.conn, f.req)} else {})
  {
    RequestsNext(s, f, lib);
  }

  lemma AnswerCount(before: seq<Fact>, f: Fact, lib: DiffScan.Library)
    ensures CountSteers(Step(StateAfter(before, lib), f, lib).events)
      == If(AnswersSteer(f) && SteerPending(before, f.conn, f.req))
  {
    var events := Step(StateAfter(before, lib), f, lib).events;
    SteerEventIff(before, f, lib);
    if AnswersSteer(f) {
      if events != [] { assert events[1..] == []; }
    } else {
      NoSteers(events);
    }
  }

  lemma SteerPendingIs(before: seq<Fact>, conn: int, req: string, lib: DiffScan.Library)
    ensures SteerPending(before, conn, req) <==> (conn, req) in PendingSteers(StateAfter(before, lib))
  {
    RequestsAre(before, conn, req, lib);
  }

  lemma SteerStep(before: seq<Fact>, f: Fact, lib: DiffScan.Library)
    ensures var s := StateAfter(before, lib); var r := Step(s, f, lib);
      CountSteers(r.events) + |PendingSteers(r.state)| + If(LosesSteer(before, f))
        == |PendingSteers(s)| + If(f.TrackTurnSteer?)
  {
    var s := StateAfter(before, lib);
    var r := Step(s, f, lib);
    AnswerCount(before, f, lib);
    if AboutRequests(f) {
      SteerPendingIs(before, f.conn, f.req, lib);
      PendingSteersStep(s, f, lib);
      Replaced(PendingSteers(s), PendingSteers(r.state), (f.conn, f.req), f.TrackTurnSteer?);
    } else {
      OtherRequests(s, f, lib);
    }
  }

  /** Every steer tracked was answered by an event, is still pending, or was lost to another fact under its key. */
  lemma {:induction false} SteerConservation(facts: seq<Fact>, lib: DiffScan.Library)
    ensures SteersEmitted(facts, lib) + |PendingSteers(StateAfter(facts, lib))| + SteersLost(facts)
      == SteersTracked(facts)
    decreases |facts|
  {
    if facts == [] {
      assert PendingSteers(INITIAL) == {};
    } else {
      var before := facts[..|facts| - 1];
      SteerConservation(before, lib);
      SteerStep(before, facts[|facts| - 1], lib);
    }
  }

  // ---------------------------------------------------------------- tool items

  function CountTools(events: seq<Event>): nat
  {
    if events == [] then 0 else (if events[0].ToolEvent? then 1 else 0) + CountTools(events[1..])
  }

  function ItemsStarted(facts: seq<Fact>): nat
  {
    if facts == [] then 0
    else
      var f := facts[|facts| - 1];
      ItemsStarted(facts[..|facts| - 1]) + If(f.ItemStarted? && KeyOf(f).Some? && f.ms >= 0)
  }

  function ToolsEmitted(facts: seq<Fact>, lib: DiffScan.Library): nat
  {
    if facts == [] then 0
    else ToolsEmitted(facts[..|facts| - 1],
      lib) + CountTools(Step(StateAfter(facts[..|facts| - 1], lib), facts[|facts| - 1], lib).events)
  }

  lemma NoTools(events: seq<Event>)
    requires forall i | 0 <= i < |events| :: !events[i].ToolEvent?
    ensures CountTools(events) == 0
  {
  }

  lemma OnlyCompletionsAreTools(s: State, f: Fact, lib: DiffScan.Library)
    requires !f.ItemCompleted?
    ensures CountTools(Step(s, f, lib).events) == 0
  {
    NoTools(Step(s, f, lib).events);
  }

  /** The item of a start or of a completion. */
  function KeyOf(f: Fact): Option<ItemKey>
    requires f.ItemStarted? || f.ItemCompleted?
  {
    if f.item.kind != Untracked && f.item.id.Some? then Some(ItemKey(f.thread, f.turn, f.item.id.value)) else None
  }

  /** The completion of an open start is in order and of a terminal item. */
  predicate Reportable(f: Fact)
    requires f.ItemCompleted?
  {
    f.ms >= 0 && f.contextKnown && (f.item.terminal || f.item.kind == WebSearch || f.item.kind == ImageGeneration)
  }

  /** The fact is a start that counts, or a completion that takes a start out. */
  predicate TouchesStarts(s: State, f: Fact)
  {
    || (f.ItemStarted? && KeyOf(f).Some? && f.ms >= 0)
    || (f.ItemCompleted? && KeyOf(f).Some? && f.turn in s.turns)
  }

  /** The fact ends an open start without a tool event: another start of the item, or a completion that is out of order,
      of an unknown thread or not of a terminal item. */
  predicate LosesStart(s: State, f: Fact)
  {
    TouchesStarts(s, f) && KeyOf(f).value in s.itemsStartedAt && (f.ItemCompleted? ==> !Reportable(f))
  }

  function StartsLost(facts: seq<Fact>, lib: DiffScan.Library): nat
  {
    if facts == [] then 0
    else
      var before := facts[..|facts| - 1];
      StartsLost(before, lib) + If(LosesStart(StateAfter(before, lib), facts[|facts| - 1]))
  }

  lemma KeysNext(s: State, f: Fact, lib: DiffScan.Library)
    requires TouchesStarts(s, f)
    ensures var key := KeyOf(f).value;
      Step(s, f, lib).state.itemsStartedAt.Keys
        == s.itemsStartedAt.Keys - {key} + (if f.ItemStarted? then {key} else {})
  {
    if f.ItemStarted? {
      var key := KeyOf(f).value;
      assert s.itemsStartedAt.Keys - {key} + {key} == s.itemsStartedAt.Keys + {key};
    }
  }

  lemma KeysStay(s: State, f: Fact, lib: DiffScan.Library)
    requires !TouchesStarts(s, f)
    ensures Step(s, f, lib).state.itemsStartedAt == s.itemsStartedAt
  {
    if !f.ItemStarted? && !f.ItemCompleted? { StartsFrame(s, f, lib); }
  }

  lemma ToolsOf(s: State, f: Fact, lib: DiffScan.Library)
    ensures CountTools(Step(s, f, lib).events)
      == If(f.ItemCompleted? && TouchesStarts(s, f) && KeyOf(f).value in s.itemsStartedAt && Reportable(f))
  {
    if f.ItemCompleted? {
      var events := Step(s, f, lib).events;
      if events != [] { assert events[1..] == []; }
    } else {
      OnlyCompletionsAreTools(s, f, lib);
    }
  }

  lemma ToolStep(s: State, f: Fact, lib: DiffScan.Library)
    ensures var r := Step(s, f, lib);
      CountTools(r.events) + |r.state.itemsStartedAt.Keys| + If(LosesStart(s, f))
        == |s.itemsStartedAt.Keys| + If(f.ItemStarted? && KeyOf(f).Some? && f.ms >= 0)
  {
    var r := Step(s, f, lib);
    ToolsOf(s, f, lib);
    if TouchesStarts(s, f) {
      KeysNext(s, f, lib);
      Replaced(s.itemsStartedAt.Keys, r.state.itemsStartedAt.Keys, KeyOf(f).value, f.ItemStarted?);
    } else {
      KeysStay(s, f, lib);
    }
  }

  /** Every item start made a tool event, is still open, or was lost. */
  lemma {:induction false} ToolConservation(facts: seq<Fact>, lib: DiffScan.Library)
    ensures ToolsEmitted(facts, lib) + |StateAfter(facts, lib).itemsStartedAt.Keys| + StartsLost(facts, lib)
      == ItemsStarted(facts)
    decreases |facts|
  {
    if facts != [] {
      var before := facts[..|facts| - 1];
      ToolConservation(before, lib);
      ToolStep(StateAfter(before, lib), facts[|facts| - 1], lib);
    }
  }

  // ---------------------------------------------------------------- reviews

  function ReviewsTracked(facts: seq<Fact>): nat
  {
    if facts == [] then 0 else ReviewsTracked(facts[..|facts| - 1]) + (if facts[|facts| - 1].TrackReview? then 1 else 0)
  }

  /** Review events from responses and aborts, not from completed guardian reviews. */
  function AnswersEmitted(facts: seq<Fact>, lib: DiffScan.Library): nat
  {
    if facts == [] then 0
    else
      var f := facts[|facts| - 1];
      AnswersEmitted(facts[..|facts| - 1], lib)
      + (if f.RequestAborted? || f.ReviewResponse? then |Step(StateAfter(facts[..|facts| - 1], lib), f, lib).events|
        else 0)
  }

  /** The fact ends a pending review without an event: another review takes its id, or someone unknown answers for an
      item. */
  predicate LosesReview(before: seq<Fact>, f: Fact)
  {
    && (f.TrackReview? || f.ReviewResponse?) && ReviewAsked(before, f.req).Some?
    && (f.ReviewResponse? ==> f.reviewer.Unknown? && OnSomeItem(ReviewAsked(before, f.req).value))
  }

  function ReviewsLost(facts: seq<Fact>): nat
  {
    if facts == [] then 0
    else
      var before := facts[..|facts| - 1];
      ReviewsLost(before) + If(LosesReview(before, facts[|facts| - 1]))
  }

  predicate Answers(f: Fact)
  {
    f.RequestAborted? || f.ReviewResponse?
  }

  lemma PendingNext(s: State, f: Fact, lib: DiffScan.Library)
    requires Answers(f) || f.TrackReview?
    ensures Step(s, f, lib).state.pendingReviews.Keys
      == s.pendingReviews.Keys - {f.req} + (if f.TrackReview? then {f.req} else {})
  {
    if f.TrackReview? {
      assert s.pendingReviews.Keys - {f.req} + {f.req} == s.pendingReviews.Keys + {f.req};
    } else {
      AnsweredPending(s, f, lib);
    }
  }

  lemma AnswersOf(before: seq<Fact>, f: Fact, lib: DiffScan.Library)
    requires Answers(f)
    ensures |Step(StateAfter(before, lib), f, lib).events|
      == If(ReviewAsked(before, f.req).Some? && !LosesReview(before, f))
  {
    ReviewEventIff(before, f, lib);
  }

  lemma AskedIs(before: seq<Fact>, req: string, lib: DiffScan.Library)
    ensures ReviewAsked(before, req).Some? <==> req in StateAfter(before, lib).pendingReviews.Keys
  {
    ReviewsAre(before, req, lib);
  }

  lemma ReviewStep(before: seq<Fact>, f: Fact, lib: DiffScan.Library)
    ensures var s := StateAfter(before, lib); var r := Step(s, f, lib);
      (if Answers(f) then |r.events| else 0) + |r.state.pendingReviews.Keys| + If(LosesReview(before, f))
        == |s.pendingReviews.Keys| + If(f.TrackReview?)
  {
    var s := StateAfter(before, lib);
    if Answers(f) || f.TrackReview? {
      if Answers(f) { AnswersOf(before, f, lib); }
      AskedIs(before, f.req, lib);
      PendingNext(s, f, lib);
      Replaced(s.pendingReviews.Keys, Step(s, f, lib).state.pendingReviews.Keys, f.req, f.TrackReview?);
    } else {
      OtherPending(s, f, lib);
    }
  }

  /** Every pending review tracked was answered by an event, is still pending, or was lost. */
  lemma {:induction false} ReviewConservation(facts: seq<Fact>, lib: DiffScan.Library)
    ensures AnswersEmitted(facts, lib) + |StateAfter(facts, lib).pendingReviews.Keys| + ReviewsLost(facts)
      == ReviewsTracked(facts)
    decreases |facts|
  {
    if facts != [] {
      var before := facts[..|facts| - 1];
      ReviewConservation(before, lib);
      ReviewStep(before, facts[|facts| - 1], lib);
    }
  }

  // ---------------------------------------------------------------- tool counts of live turns

  /** The completions of tracked items of one kind since the turn's state was created. */
  function CompletionsSince(facts: seq<Fact>, turn: string, kind: ItemKind, lib: DiffScan.Library): nat
  {
    if facts == [] then 0
    else
      var before, f := facts[..|facts| - 1], facts[|facts| - 1];
      if turn !in StateAfter(before, lib).turns then 0
      else CompletionsSince(before, turn, kind, lib)
           + (if f.ItemCompleted? && f.turn == turn && f.item.kind == kind && TrackedId(f.item).Some? then 1 else 0)
  }

  predicate Balanced(c: ToolCounts)
  {
    c.total == c.shell + c.file + c.mcp + c.dynamic + c.subagent + c.search + c.image
  }

  lemma RecordEffect(c: ToolCounts, recorded: ItemKind, kind: ItemKind)
    requires kind != Untracked
    ensures c.Record(recorded).Of(kind) == c.Of(kind) + (if recorded == kind then 1 else 0)
    ensures Balanced(c) ==> Balanced(c.Record(recorded))
  {
  }

  /** What a completed item records in the counts of a turn. */
  function Tallied(c: ToolCounts, f: Fact, turn: string): ToolCounts
  {
    if f.ItemCompleted? && f.turn == turn && TrackedId(f.item).Some? then c.Record(f.item.kind) else c
  }

  lemma TalliedEffect(c: ToolCounts, f: Fact, turn: string, kind: ItemKind)
    requires kind != Untracked && Balanced(c)
    ensures var d := Tallied(c, f, turn);
      Balanced(d)
        && d.Of(kind)
          == c.Of(kind) + (if f.ItemCompleted? && f.turn == turn && f.item.kind == kind && TrackedId(f.item).Some?
            then 1 else 0)
  {
    if f.ItemCompleted? { RecordEffect(c, f.item.kind, kind); }
  }

  lemma NoCounts(kind: ItemKind)
    ensures Balanced(NO_COUNTS) && NO_COUNTS.Of(kind) == 0
  {
  }

  /** What one fact does to the counts of one turn that stays live. */
  lemma CountsStep(s: State, f: Fact, turn: string, lib: DiffScan.Library)
    requires turn in Step(s, f, lib).state.turns
    ensures Step(s, f, lib).state.turns[turn].counts
         == if turn !in s.turns then NO_COUNTS else Tallied(s.turns[turn].counts, f, turn)
  {
    if f.TurnSteerResponse? {
      SteerCounts(s, f.conn, f.req, Some(f.turn), turn);
    } else if f.TurnSteerError? {
      SteerCounts(s, f.conn, f.req, None, turn);
    } else if f.ItemCompleted? {
      ItemCounts(s, f, turn, lib);
    } else if f.TurnStartResponse? || f.ResolvedConfig? || f.TurnCompleted? || f.TurnStarted? || f.DiffUpdated? {
      TurnFactCounts(s, f, turn, lib);
    } else {
      TurnsFrame(s, f, lib);
    }
  }

  lemma ItemCounts(s: State, f: Fact, turn: string, lib: DiffScan.Library)
    requires f.ItemCompleted? && turn in Step(s, f, lib).state.turns
    ensures turn in s.turns && Step(s, f, lib).state.turns[turn].counts == Tallied(s.turns[turn].counts, f, turn)
  {
  }

  lemma TurnFactCounts(s: State, f: Fact, turn: string, lib: DiffScan.Library)
    requires f.TurnStartResponse? || f.ResolvedConfig? || f.TurnCompleted? || f.TurnStarted? || f.DiffUpdated?
    requires turn in Step(s, f, lib).state.turns
    ensures Step(s, f, lib).state.turns[turn].counts == if turn !in s.turns then NO_COUNTS else s.turns[turn].counts
  {
  }

  lemma SteerCounts(s: State, conn: int, req: string, accepted: Option<string>, turn: string)
    ensures var t := SteerResponse(s, conn, req, accepted).state.turns;
            (turn in t <==> turn in s.turns) && (turn in t ==> t[turn].counts == s.turns[turn].counts)
  {
  }

  /** Each live turn's total is the sum of its seven counters, and each counter is the number of
      tracked completions of its kind since the turn's state was created. */
  lemma {:induction false} CountsAreCompletions(facts: seq<Fact>, turn: string, kind: ItemKind, lib: DiffScan.Library)
    requires turn in StateAfter(facts, lib).turns && kind != Untracked
    ensures var counts := StateAfter(facts, lib).turns[turn].counts;
            Balanced(counts) && counts.Of(kind) == CompletionsSince(facts, turn, kind, lib)
    decreases |facts|
  {
    if facts != [] {
      var before, f := facts[..|facts| - 1], facts[|facts| - 1];
      var s := StateAfter(before, lib);
      CountsStep(s, f, turn, lib);
      if turn in s.turns {
        CountsAreCompletions(before, turn, kind, lib);
        TalliedEffect(s.turns[turn].counts, f, turn, kind);
      } else {
        NoCounts(kind);
      }
    }
  }

  // ---------------------------------------------------------------- review summaries

  /** The reviews one fact records for an item: 1 or 0, for all reviewers or for one. */
  function Recorded(s: State, f: Fact, key: ItemKey, who: Option<Reviewer>): nat
  {
    match f
    case RequestAborted(req, _) =>
      if req in s.pendingReviews && OnItem(s.pendingReviews[req], key)
        && (who == None || who == Some(User)) then 1 else 0
    case ReviewResponse(req, reviewer, _, _, _) =>
      if req in s.pendingReviews && OnItem(s.pendingReviews[req], key)
        && (who == None || who == Some(reviewer)) then 1 else 0
    case GuardianCompleted(review, verdict, started, ms) =>
      if verdict.Concluded? && verdict.actionKnown && started >= 0 && ms >= 0 && OnItem(review, key)
        && (who == None || who == Some(Guardian)) then 1 else 0
    case _ => 0
  }

  /** The fact closes the item: its summary is reported (or dropped) and forgotten. */
  predicate Closes(s: State, f: Fact, key: ItemKey)
  {
    && Completes(f, key) && f.turn in s.turns && key in s.itemsStartedAt && f.ms >= 0 && f.contextKnown
  }

  /** The reviews recorded for an item since it was last closed. */
  function ReviewsSince(facts: seq<Fact>, key: ItemKey, who: Option<Reviewer>, lib: DiffScan.Library): nat
  {
    if facts == [] then 0
    else
      var before, f := facts[..|facts| - 1], facts[|facts| - 1];
      var s := StateAfter(before, lib);
      if Closes(s, f, key) then 0 else ReviewsSince(before, key, who, lib) + Recorded(s, f, key, who)
  }

  lemma SummaryStep(s: State, f: Fact, key: ItemKey, lib: DiffScan.Library)
    ensures var old_, new_ := SummaryOf(s, key), SummaryOf(Step(s, f, lib).state, key);
            if Closes(s, f, key) then new_ == NO_REVIEWS
            else && new_.reviews == old_.reviews + Recorded(s, f, key, None)
                 && new_.guardian == old_.guardian + Recorded(s, f, key, Some(Guardian))
                 && new_.user == old_.user + Recorded(s, f, key, Some(User))
  {
    if f.ItemCompleted? {
      CompletionSummary(s, f, key, lib);
    } else if f.RequestAborted? {
      AnswerSummary(s, f.req, User, Aborted, NoResolution, f.ms, key);
    } else if f.ReviewResponse? {
      AnswerSummary(s, f.req, f.reviewer, f.status, f.resolution, f.ms, key);
    } else if f.GuardianCompleted? {
      GuardianSummary(s, f, key, lib);
    } else {
      SummariesFrame(s, f, lib);
    }
  }

  lemma CompletionSummary(s: State, f: Fact, key: ItemKey, lib: DiffScan.Library)
    requires f.ItemCompleted?
    ensures SummaryOf(Step(s, f, lib).state, key) == if Closes(s, f, key) then NO_REVIEWS else SummaryOf(s, key)
  {
  }

  lemma GuardianSummary(s: State, f: Fact, key: ItemKey, lib: DiffScan.Library)
    requires f.GuardianCompleted?
    ensures var old_, new_ := SummaryOf(s, key), SummaryOf(Step(s, f, lib).state, key);
      && new_.reviews == old_.reviews + Recorded(s, f, key, None)
      && new_.guardian == old_.guardian + Recorded(s, f, key, Some(Guardian))
      && new_.user == old_.user + Recorded(s, f, key, Some(User))
  {
    if f.verdict.Concluded? && f.started >= 0 {
      RecordEffectOn(s, f.review.(startedAt := f.started), Guardian, f.verdict.status, NoResolution, key);
    }
  }

  lemma AnswerSummary(s: State, req: string, reviewer: Reviewer, status: ReviewStatus, resolution: Resolution,
      ms: int, key: ItemKey)
    ensures var old_, new_ := SummaryOf(s, key),
      SummaryOf(AnsweredReview(s, req, reviewer, status, resolution, ms).state, key);
            var n := if req in s.pendingReviews && OnItem(s.pendingReviews[req], key) then 1 else 0;
            && new_.reviews == old_.reviews + n
            && new_.guardian == old_.guardian + (if reviewer == Guardian then n else 0)
            && new_.user == old_.user + (if reviewer == User then n else 0)
  {
    if req in s.pendingReviews {
      RecordEffectOn(s.(pendingReviews := s.pendingReviews - {req}), s.pendingReviews[req], reviewer, status,
        resolution, key);
    }
  }

  lemma RecordEffectOn(s: State, r: Review, reviewer: Reviewer, status: ReviewStatus, resolution: Resolution,
      key: ItemKey)
    ensures var old_, new_ := SummaryOf(s, key), SummaryOf(RecordReview(s, r, reviewer, status, resolution).0, key);
            if OnItem(r, key)
            then && new_.reviews == old_.reviews + 1
                 && new_.guardian == old_.guardian + (if reviewer == Guardian then 1 else 0)
                 && new_.user == old_.user + (if reviewer == User then 1 else 0)
            else new_ == old_
  {
  }

  /** The summary of an item counts the reviews recorded for it since it was last closed, in all and by reviewer. */
  lemma {:induction false} SummaryCountsReviews(facts: seq<Fact>, key: ItemKey, lib: DiffScan.Library)
    ensures var m := SummaryOf(StateAfter(facts, lib), key);
            && m.reviews == ReviewsSince(facts, key, None, lib)
            && m.guardian == ReviewsSince(facts, key, Some(Guardian), lib)
            && m.user == ReviewsSince(facts, key, Some(User), lib)
    decreases |facts|
  {
    if facts != [] {
      var before := facts[..|facts| - 1];
      SummaryCountsReviews(before, key, lib);
      SummaryStep(StateAfter(before, lib), facts[|facts| - 1], key, lib);
    }
  }

  /** Whether the fact records a review for the item by an unknown reviewer, which is counted before the error is
      raised. */
  predicate RecordsUnknown(s: State, f: Fact, key: ItemKey)
  {
    f.ReviewResponse? && f.reviewer.Unknown? && f.req in s.pendingReviews
      && OnItem(s.pendingReviews[f.req], key)
  }

  /** The reviews by unknown reviewers recorded for an item since it was last closed. */
  function UnknownSince(facts: seq<Fact>, key: ItemKey, lib: DiffScan.Library): nat
  {
    if facts == [] then 0
    else
      var before, f := facts[..|facts| - 1], facts[|facts| - 1];
      var s := StateAfter(before, lib);
      if Closes(s, f, key) then 0 else UnknownSince(before, key, lib) + (if RecordsUnknown(s, f, key) then 1 else 0)
  }

  lemma RecordedSplits(s: State, f: Fact, key: ItemKey)
    ensures Recorded(s, f, key, None)
         == Recorded(s, f, key, Some(Guardian)) + Recorded(s, f, key, Some(User)) + (if RecordsUnknown(s, f, key)
           then 1 else 0)
  {
  }

  lemma {:induction false} ReviewsSplit(facts: seq<Fact>, key: ItemKey, lib: DiffScan.Library)
    ensures ReviewsSince(facts, key, None, lib)
         == ReviewsSince(facts, key, Some(Guardian), lib) + ReviewsSince(facts, key, Some(User),
           lib) + UnknownSince(facts, key, lib)
    decreases |facts|
  {
    if facts != [] {
      var before, f := facts[..|facts| - 1], facts[|facts| - 1];
      ReviewsSplit(before, key, lib);
      RecordedSplits(StateAfter(before, lib), f, key);
    }
  }

  /** After every run the review count of an item is the guardian count plus the user count plus the reviews by unknown
      reviewers since the item was last closed; so it splits if and only if there are none of these. */
  lemma ReviewCountSplits(facts: seq<Fact>, key: ItemKey, lib: DiffScan.Library)
    ensures var m := SummaryOf(StateAfter(facts, lib), key);
      && m.reviews == m.guardian + m.user + UnknownSince(facts, key, lib)
      && (m.reviews == m.guardian + m.user <==> UnknownSince(facts, key, lib) == 0)
  {
    SummaryCountsReviews(facts, key, lib);
    ReviewsSplit(facts, key, lib);
  }

  lemma RunOfTwo(f: Fact, g: Fact, lib: DiffScan.Library)
    ensures StateAfter([f, g], lib) == Step(Step(INITIAL, f, lib).state, g, lib).state
  {
    assert [f, g][..1] == [f] && [f][..0] == [];
    assert StateAfter([f], lib) == Step(StateAfter([], lib), f, lib).state;
  }

  /** A run in which the count does not split: one tracked review, answered by someone unknown. */
  lemma UnknownReviewerBreaksTheSplit(req: string, review: Review, key: ItemKey, name: string, lib: DiffScan.Library)
    requires OnItem(review, key)
    ensures var facts := [TrackReview(req, review), ReviewResponse(req, Unknown(name), Approved, NoResolution, 0)];
      var m := SummaryOf(StateAfter(facts, lib), key);
      m.reviews == 1 && m.guardian == 0 && m.user == 0
  {
    var track, answer := TrackReview(req, review), ReviewResponse(req, Unknown(name), Approved, NoResolution, 0);
    RunOfTwo(track, answer, lib);
    var s := Step(INITIAL, track, lib).state;
    AnswerSummary(s, req, Unknown(name), Approved, NoResolution, 0, key);
  }

  /** A tool event reports the reviews recorded for its item since the item was last closed. */
  lemma ToolEventReportsReviews(facts: seq<Fact>, f: Fact, e: Event, lib: DiffScan.Library)
    requires e.ToolEvent? && Step(StateAfter(facts, lib), f, lib).events == [e]
    ensures e.summary.reviews == ReviewsSince(facts, e.key, None, lib)
    ensures e.summary.guardian == ReviewsSince(facts, e.key, Some(Guardian), lib)
    ensures e.summary.user == ReviewsSince(facts, e.key, Some(User), lib)
    ensures Closes(StateAfter(facts, lib), f, e.key) && e.startedMs == StateAfter(facts, lib).itemsStartedAt[e.key]
  {
    SummaryCountsReviews(facts, e.key, lib);
    ToolEventShape(StateAfter(facts, lib), f, e, lib);
  }

  lemma ToolEventShape(s: State, f: Fact, e: Event, lib: DiffScan.Library)
    requires e.ToolEvent? && Step(s, f, lib).events == [e]
    ensures Closes(s, f, e.key) && e.startedMs == s.itemsStartedAt[e.key] && e.summary == Reported(SummaryOf(s, e.key))
  {
    assert CountTools([e]) == 1;
    if !f.ItemCompleted? { OnlyCompletionsAreTools(s, f, lib); }
  }
}
