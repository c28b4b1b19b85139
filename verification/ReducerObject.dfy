/** `AnalyticsReducer` with its fields updated in place. Every method extends the history of facts by one, and what is
    proved about histories is stated of the object. */
module ReducerObject {
  import opened Wrappers
  import opened Reducer
  import opened ReducerHistory
  import opened TurnJoin
  import opened ReducerLaws
  import DiffScan

  class AnalyticsReducer {
    var requests: map<(int, string), PendingRequest>
    var turns: map<string, TurnState>
    var toolItemsStartedAtMs: map<ItemKey, nat>
    var itemReviewSummaries: map<ItemKey, ReviewSummary>
    var pendingReviews: map<string, Review>
    const lib: DiffScan.Library
    ghost var history: seq<Fact>

    ghost function St(): State
      reads this
    {
      State(requests, turns, toolItemsStartedAtMs, itemReviewSummaries, pendingReviews)
    }

    /** The object is where its history leads. */
    ghost predicate Valid()
      reads this
    {
      St() == StateAfter(history, lib)
    }

    constructor (lib: DiffScan.Library)
      ensures Valid() && history == [] && this.lib == lib
    {
      this.lib := lib;
      requests := map[];
      turns := map[];
      toolItemsStartedAtMs := map[];
      itemReviewSummaries := map[];
      pendingReviews := map[];
      history := [];
    }

    /** Whenever no method runs, everything asked has been answered by an event, is pending, or was lost to a later
        fact. */
    lemma Conservation()
      requires Valid()
      ensures SteersEmitted(history, lib) + |PendingSteers(St())| + SteersLost(history) == SteersTracked(history)
      ensures ToolsEmitted(history, lib) + |toolItemsStartedAtMs.Keys| + StartsLost(history, lib)
        == ItemsStarted(history)
      ensures AnswersEmitted(history, lib) + |pendingReviews.Keys| + ReviewsLost(history) == ReviewsTracked(history)
    {
      SteerConservation(history, lib);
      ToolConservation(history, lib);
      ReviewConservation(history, lib);
    }

    /** The counts of a live turn balance, and the reviews of an item split by reviewer. */
    lemma Counts(turn: string, kind: ItemKind, key: ItemKey)
      requires Valid()
      ensures turn in turns && kind != Untracked ==>
        Balanced(turns[turn].counts) && turns[turn].counts.Of(kind) == CompletionsSince(history, turn, kind, lib)
      ensures key in itemReviewSummaries ==>
        var m := itemReviewSummaries[key]; m.reviews == m.guardian + m.user + UnknownSince(history, key, lib)
    {
      if turn in turns && kind != Untracked {
        CountsAreCompletions(history, turn, kind, lib);
      }
      ReviewCountSplits(history, key, lib);
      assert SummaryOf(St(), key) == SummaryOf(StateAfter(history, lib), key);
    }

    ghost method Record(f: Fact)
      requires St() == Step(StateAfter(history, lib), f, lib).state
      modifies `history
      ensures Valid() && history == old(history) + [f]
    {
      var before := history;
      history := history + [f];
      assert history[..|history| - 1] == before;
    }

    /** The turn events one fact makes, by the history before it. */
    ghost predicate JoinLaw(was: seq<Fact>, f: Fact, turn: string, events: seq<Event>)
    {
      var p := Contribution(StateAfter(was, lib), f, turn);
      |TurnEvents(events, turn)| == if p != NoPart && SeenSince(was, |was|, turn, lib).With(p).All() then 1 else 0
    }

    lemma JoinLawHolds(f: Fact, turn: string)
      requires Valid()
      ensures JoinLaw(history, f, turn, Step(St(), f, lib).events)
    {
      assert history[..|history|] == history;
      StateShows(history, |history|, turn, lib);
      StepShows(St(), f, turn, SeenSince(history, |history|, turn, lib), lib);
    }

    /** `self.turns.setdefault(turn, TurnState())` */
    method SetDefaultTurn(turn: string) returns (ts: TurnState)
      modifies `turns
      ensures ts == old(TurnOf(St(), turn)) && turns == old(turns)[turn := ts]
    {
      if turn !in turns {
        turns := turns[turn := NEW_TURN];
      }
      ts := turns[turn];
      assert turns == turns[turn := ts];
    }

    method TrackTurnStartRequest(conn: int, req: string, thread: string, images: nat)
      requires Valid()
      modifies this
      ensures Valid() && history == old(history) + [TrackTurnStart(conn, req, thread, images)]
    {
      requests := requests[(conn, req) := PendingStart(thread, images)];
      Record(TrackTurnStart(conn, req, thread, images));
    }

    method TrackTurnSteerRequest(conn: int, req: string, thread: string, expectedTurn: string, images: nat)
      requires Valid()
      modifies this
      ensures Valid() && history == old(history) + [TrackTurnSteer(conn, req, thread, expectedTurn, images)]
    {
      requests := requests[(conn, req) := PendingSteer(thread, expectedTurn, images)];
      Record(TrackTurnSteer(conn, req, thread, expectedTurn, images));
    }

    /** `self.requests.pop(key, None)` */
    method PopRequest(conn: int, req: string) returns (pending: Option<PendingRequest>)
      modifies `requests
      ensures requests == old(requests) - {(conn, req)}
      ensures pending == if (conn, req) in old(requests) then Some(old(requests)[(conn, req)]) else None
      ensures pending == None ==> requests == old(requests)
    {
      pending := if (conn, req) in requests then Some(requests[(conn, req)]) else None;
      requests := requests - {(conn, req)};
    }

    method IngestTurnStartErrorResponse(conn: int, req: string)
      requires Valid()
      modifies this
      ensures Valid() && history == old(history) + [TurnStartError(conn, req)]
    {
      var _ := PopRequest(conn, req);
      Record(TurnStartError(conn, req));
    }

    method IngestTurnSteerErrorResponse(conn: int, req: string) returns (events: seq<Event>)
      requires Valid()
      modifies this
      ensures Valid() && history == old(history) + [TurnSteerError(conn, req)]
      ensures events == EventsAt(history, |old(history)|, lib)
      ensures events == if SteerPending(old(history), conn, req)
        then [SteerEvent(LastTracked(old(history), conn, req).value, None)] else []
    {
      ghost var before := St();
      SteerEventIff(history, TurnSteerError(conn, req), lib);
      events := [];
      var pending := PopRequest(conn, req);
      if pending.Some? && pending.value.PendingSteer? {
        events := [SteerEvent(pending.value, None)];
      }
      assert Result(St(), events, false) == SteerResponse(before, conn, req, None);
      Record(TurnSteerError(conn, req));
      LastEvents(before, TurnSteerError(conn, req));
    }

    /** The events of the fact recorded last. */
    lemma LastEvents(before: State, f: Fact)
      requires history != [] && history[|history| - 1] == f && before == StateAfter(history[..|history| - 1], lib)
      ensures EventsAt(history, |history| - 1, lib) == Step(before, f, lib).events
    {
    }

    method IngestTurnStartResponse(conn: int, req: string, turn: string) returns (events: seq<Event>)
      requires Valid()
      modifies this
      ensures Valid() && history == old(history) + [TurnStartResponse(conn, req, turn)]
      ensures events == EventsAt(history, |old(history)|, lib)
      ensures JoinLaw(old(history), TurnStartResponse(conn, req, turn), turn, events)
    {
      ghost var f, before := TurnStartResponse(conn, req, turn), St();
      JoinLawHolds(f, turn);
      events := [];
      var pending := PopRequest(conn, req);
      if pending.Some? && pending.value.PendingStart? {
        events := JoinStart(conn, pending.value, turn);
      }
      assert Result(St(), events, false) == StartResponse(before, conn, req, turn, lib);
      Record(f);
      LastEvents(before, f);
    }

    method JoinStart(conn: int, pending: PendingRequest, turn: string) returns (events: seq<Event>)
      requires pending.PendingStart?
      modifies `turns
      ensures turns
        == old(turns)[turn := old(TurnOf(St(), turn)).(connection := Some(conn), thread := Some(pending.thread),
          images := Some(pending.images))]
      ensures events == MaybeEmit(turns, turn, lib)
    {
      var ts := SetDefaultTurn(turn);
      ts := ts.(connection := Some(conn));
      ts := ts.(thread := Some(pending.thread));
      ts := ts.(images := Some(pending.images));
      turns := turns[turn := ts];
      events := MaybeEmitTurnEvent(turn);
    }

    method IngestTurnSteerResponse(conn: int, req: string, acceptedTurn: string) returns (events: seq<Event>)
      requires Valid()
      modifies this
      ensures Valid() && history == old(history) + [TurnSteerResponse(conn, req, acceptedTurn)]
      ensures events == EventsAt(history, |old(history)|, lib)
      ensures events == if SteerPending(old(history), conn, req)
        then [SteerEvent(LastTracked(old(history), conn, req).value, Some(acceptedTurn))] else []
    {
      SteerEventIff(history, TurnSteerResponse(conn, req, acceptedTurn), lib);
      ghost var f, before := TurnSteerResponse(conn, req, acceptedTurn), St();
      events := [];
      var pending := PopRequest(conn, req);
      if pending.Some? && pending.value.PendingSteer? {
        if acceptedTurn in turns {
          turns := turns[acceptedTurn := turns[acceptedTurn].(steers := turns[acceptedTurn].steers + 1)];
        }
        events := [SteerEvent(pending.value, Some(acceptedTurn))];
      }
      assert Result(St(), events, false) == SteerResponse(before, conn, req, Some(acceptedTurn));
      Record(f);
      LastEvents(before, f);
    }

    method IngestTurnResolvedConfig(c: Config) returns (events: seq<Event>)
      requires Valid()
      modifies this
      ensures Valid() && history == old(history) + [ResolvedConfig(c)]
      ensures events == EventsAt(history, |old(history)|, lib)
      ensures JoinLaw(old(history), ResolvedConfig(c), c.turn, events)
    {
      ghost var f, before := ResolvedConfig(c), St();
      JoinLawHolds(f, c.turn);
      events := JoinConfig(c);
      assert Result(St(), events, false) == ConfigResolved(before, c, lib);
      Record(f);
      LastEvents(before, f);
    }

    method JoinConfig(c: Config) returns (events: seq<Event>)
      modifies `turns
      ensures Result(St(), events, false) == ConfigResolved(old(St()), c, lib)
    {
      var ts := SetDefaultTurn(c.turn);
      ts := ts.(thread := Some(c.thread));
      ts := ts.(images := Some(c.images));
      ts := ts.(resolved := Some(c));
      turns := turns[c.turn := ts];
      events := MaybeEmitTurnEvent(c.turn);
    }

    method IngestTurnStarted(turn: string, at: Option<int>)
      requires Valid()
      modifies this
      ensures Valid() && history == old(history) + [TurnStarted(turn, at)]
    {
      var ts := SetDefaultTurn(turn);
      turns := turns[turn := ts.(startedAt := if at.Some? then NonNegative(at.value) else None)];
      Record(TurnStarted(turn, at));
    }

    method IngestTurnDiffUpdated(thread: string, turn: string, diff: string)
      requires Valid()
      modifies this
      ensures Valid() && history == old(history) + [DiffUpdated(thread, turn, diff)]
    {
      var ts := SetDefaultTurn(turn);
      ts := ts.(thread := Some(thread));
      ts := ts.(latestDiff := Some(diff));
      turns := turns[turn := ts];
      Record(DiffUpdated(thread, turn, diff));
    }

    method IngestTurnCompleted(turn: string, done: Completed) returns (events: seq<Event>)
      requires Valid()
      modifies this
      ensures Valid() && history == old(history) + [TurnCompleted(turn, done)]
      ensures events == EventsAt(history, |old(history)|, lib)
      ensures JoinLaw(old(history), TurnCompleted(turn, done), turn, events)
    {
      ghost var f, before := TurnCompleted(turn, done), St();
      JoinLawHolds(f, turn);
      events := JoinCompletion(turn, done);
      assert Result(St(), events, false) == CompletedTurn(before, turn, done, lib);
      Record(f);
      LastEvents(before, f);
    }

    method JoinCompletion(turn: string, done: Completed) returns (events: seq<Event>)
      modifies `turns
      ensures Result(St(), events, false) == CompletedTurn(old(St()), turn, done, lib)
    {
      ghost var before := St();
      var ts := SetDefaultTurn(turn);
      turns := turns[turn := ts.(completed := Some(done))];
      assert turns == before.turns[turn := TurnOf(before, turn).(completed := Some(done))];
      events := MaybeEmitTurnEvent(turn);
      if events != [] {
        turns := turns - {turn};
      }
    }

    /** `_maybe_emit_turn_event`, with the scan of the latest diff. */
    method MaybeEmitTurnEvent(turn: string) returns (events: seq<Event>)
      ensures events == MaybeEmit(turns, turn, lib)
    {
      if turn !in turns || turns[turn].connection == None {
        return [];
      }
      var ts := turns[turn];
      var params := Params(turn, ts);
      if params == None {
        return [];
      }
      events := [TurnEvent(params.value)];
      if ts.latestDiff.Some? {
        var summary := DiffScan.ScanDiff(ts.latestDiff.value, lib);
        if (summary.added != 0 || summary.deleted != 0) && ts.thread.Some? && ts.resolved.Some? {
          events := events + [AcceptedLines(turn, ts.thread.value, summary.added, summary.deleted)];
        }
      }
    }

    method IngestItemStarted(thread: string, turn: string, item: Item, ms: int)
      requires Valid()
      modifies this
      ensures Valid() && history == old(history) + [ItemStarted(thread, turn, item, ms)]
    {
      var id := TrackedId(item);
      var started := NonNegative(ms);
      if id.Some? && started.Some? {
        toolItemsStartedAtMs := toolItemsStartedAtMs[ItemKey(thread, turn, id.value) := started.value];
      }
      Record(ItemStarted(thread, turn, item, ms));
    }

    /** A tool event reports the reviews since its item was last closed. */
    method IngestItemCompleted(thread: string, turn: string, item: Item, ms: int, contextKnown: bool)
        returns (events: seq<Event>)
      requires Valid()
      modifies this
      ensures Valid() && history == old(history) + [ItemCompleted(thread, turn, item, ms, contextKnown)]
      ensures events == EventsAt(history, |old(history)|, lib) && |events| <= 1
      ensures events != [] ==>
        events[0].ToolEvent?
        && events[0].summary.reviews == ReviewsSince(old(history), events[0].key, None, lib)
    {
      ghost var f, before, was := ItemCompleted(thread, turn, item, ms, contextKnown), St(), history;
      events := CompleteItem(thread, turn, item, ms, contextKnown);
      Record(f);
      LastEvents(before, f);
      if events != [] {
        assert events == [events[0]];
        ToolEventReportsReviews(was, f, events[0], lib);
      }
    }

    method CompleteItem(thread: string, turn: string, item: Item, ms: int, contextKnown: bool)
        returns (events: seq<Event>)
      modifies `turns, `toolItemsStartedAtMs, `itemReviewSummaries
      ensures Result(St(), events, false) == CompletedItem(old(St()), thread, turn, item, ms, contextKnown)
    {
      var id := TrackedId(item);
      if id == None || turn !in turns {
        return [];
      }
      var ts := turns[turn];
      turns := turns[turn := ts.(counts := ts.counts.Record(item.kind))];
      var key := ItemKey(thread, turn, id.value);
      if key !in toolItemsStartedAtMs {
        return [];
      }
      var started := toolItemsStartedAtMs[key];
      toolItemsStartedAtMs := toolItemsStartedAtMs - {key};
      if ms < 0 || !contextKnown {
        return [];
      }
      var summary := if key in itemReviewSummaries then itemReviewSummaries[key] else NO_REVIEWS;
      itemReviewSummaries := itemReviewSummaries - {key};
      events := if HasToolEvent(item) then [ToolEvent(key, item.kind, started, ms, Reported(summary))] else [];
    }

    method TrackPendingReview(req: string, review: Review)
      requires Valid()
      modifies this
      ensures Valid() && history == old(history) + [TrackReview(req, review)]
    {
      pendingReviews := pendingReviews[req := review];
      Record(TrackReview(req, review));
    }

    /** The count of all reviews, which goes up before the reviewer is looked at. */
    method CountReview(key: ItemKey) returns (m: ReviewSummary)
      modifies `itemReviewSummaries
      ensures m == old(SummaryOf(St(), key)).(reviews := old(SummaryOf(St(), key)).reviews + 1)
      ensures itemReviewSummaries == old(itemReviewSummaries)[key := m]
    {
      m := if key in itemReviewSummaries then itemReviewSummaries[key] else NO_REVIEWS;
      m := m.(reviews := m.reviews + 1);
      itemReviewSummaries := itemReviewSummaries[key := m];
    }

    /** `record_item_review_summary`; raised when the reviewer is unknown, after the count went up. */
    method RecordItemReviewSummary(r: Review, reviewer: Reviewer, status: ReviewStatus, resolution: Resolution)
        returns (raised: bool)
      modifies `itemReviewSummaries
      ensures (St(), raised) == RecordReview(old(St()), r, reviewer, status, resolution)
    {
      var key := SummaryKey(r);
      if key == None {
        return false;
      }
      ghost var before := itemReviewSummaries;
      var m := CountReview(key.value);
      if reviewer.Unknown? {
        return true;
      }
      var n := AccountReview(m, r, reviewer, status, resolution);
      LastUpdateStays(before, key.value, m, n);
      itemReviewSummaries := itemReviewSummaries[key.value := n];
      raised := false;
    }

    method AccountReview(summary: ReviewSummary, r: Review, reviewer: Reviewer, status: ReviewStatus,
        resolution: Resolution) returns (m: ReviewSummary)
      requires !reviewer.Unknown?
      ensures m == WithReview(summary, r, reviewer, status, resolution)
    {
      m := summary;
      if reviewer == Guardian {
        m := m.(guardian := m.guardian + 1);
      } else {
        m := m.(user := m.user + 1);
      }
      m := m.(outcome := Some(FinalOutcome(reviewer, status, resolution)));
      m := m.(additional := m.additional || r.additional);
      m := m.(network := m.network || r.network);
    }

    method EmitReviewEvent(r: Review, reviewer: Reviewer, status: ReviewStatus, resolution: Resolution, ms: int)
        returns (events: seq<Event>, raised: bool)
      modifies `itemReviewSummaries
      ensures Result(St(), events, raised) == EmitReview(old(St()), r, reviewer, status, resolution, ms)
    {
      raised := RecordItemReviewSummary(r, reviewer, status, resolution);
      events := if raised then [] else [ReviewEvent(r, reviewer, status, resolution, ms)];
    }

    method AnswerReview(req: string, reviewer: Reviewer, status: ReviewStatus, resolution: Resolution, ms: int)
        returns (events: seq<Event>, raised: bool)
      modifies `pendingReviews, `itemReviewSummaries
      ensures Result(St(), events, raised) == AnsweredReview(old(St()), req, reviewer, status, resolution, ms)
    {
      if req !in pendingReviews {
        return [], false;
      }
      var review := pendingReviews[req];
      pendingReviews := pendingReviews - {req};
      events, raised := EmitReviewEvent(review, reviewer, status, resolution, ms);
    }

    method IngestReviewResponse(req: string, reviewer: Reviewer, status: ReviewStatus, resolution: Resolution,
        ms: int) returns (events: seq<Event>, raised: bool)
      requires Valid()
      modifies this
      ensures Valid() && history == old(history) + [ReviewResponse(req, reviewer, status, resolution, ms)]
      ensures events == EventsAt(history, |old(history)|, lib) && |events| <= 1
      ensures raised <==> exists key ::
        RecordsUnknown(old(St()), ReviewResponse(req, reviewer, status, resolution, ms), key)
    {
      ghost var f, before := ReviewResponse(req, reviewer, status, resolution, ms), St();
      events, raised := AnswerReview(req, reviewer, status, resolution, ms);
      RaisedIff(before, req, reviewer, status, resolution, ms);
      Record(f);
      LastEvents(before, f);
    }

    method IngestServerRequestAborted(req: string, ms: int) returns (events: seq<Event>)
      requires Valid()
      modifies this
      ensures Valid() && history == old(history) + [RequestAborted(req, ms)]
      ensures events == EventsAt(history, |old(history)|, lib) && |events| <= 1
    {
      ghost var f, before := RequestAborted(req, ms), St();
      var raised;
      events, raised := AnswerReview(req, User, Aborted, NoResolution, ms);
      Record(f);
      LastEvents(before, f);
    }

    method ConcludeGuardianReview(review: Review, verdict: GuardianStatus, started: int, ms: int)
        returns (events: seq<Event>, raised: bool)
      modifies `itemReviewSummaries
      ensures Result(St(), events, raised) == Step(old(St()), GuardianCompleted(review, verdict, started, ms), lib)
    {
      if verdict.UnknownStatus? {
        return [], true;
      }
      if verdict.InProgress? || started < 0 || ms < 0 {
        return [], false;
      }
      if !verdict.actionKnown {
        return [], true;
      }
      events, raised := EmitReviewEvent(review.(startedAt := started), Guardian, verdict.status, NoResolution, ms);
    }

    method IngestGuardianReviewCompleted(review: Review, verdict: GuardianStatus, started: int, ms: int)
        returns (events: seq<Event>, raised: bool)
      requires Valid()
      modifies this
      ensures Valid() && history == old(history) + [GuardianCompleted(review, verdict, started, ms)]
      ensures events == EventsAt(history, |old(history)|, lib) && |events| <= 1
      ensures raised <==>
        verdict.UnknownStatus?
        || (verdict.Concluded? && !verdict.actionKnown && started >= 0 && ms >= 0)
    {
      ghost var f, before := GuardianCompleted(review, verdict, started, ms), St();
      events, raised := ConcludeGuardianReview(review, verdict, started, ms);
      Record(f);
      LastEvents(before, f);
    }
  }

  lemma RaisedIff(s: State, req: string, reviewer: Reviewer, status: ReviewStatus, resolution: Resolution, ms: int)
    ensures AnsweredReview(s, req, reviewer, status, resolution, ms).raised
       <==> exists key :: RecordsUnknown(s, ReviewResponse(req, reviewer, status, resolution, ms), key)
  {
    if req in s.pendingReviews && reviewer.Unknown? {
      match SummaryKey(s.pendingReviews[req])
      case Some(key) => assert RecordsUnknown(s, ReviewResponse(req, reviewer, status, resolution, ms), key);
      case None =>
    }
  }

  lemma LastUpdateStays<K, V>(m: map<K, V>, k: K, a: V, b: V)
    ensures m[k := a][k := b] == m[k := b]
  {
  }
}
