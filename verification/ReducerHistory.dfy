/** What the reducer still holds of earlier facts, read off the history of facts, and the steer and review events each
    fact makes, by that history. */
module ReducerHistory {
  import opened Wrappers
  import opened Reducer
  import DiffScan

  function Lookup<K, V>(m: map<K, V>, k: K): Option<V>
  {
    if k in m then Some(m[k]) else None
  }

  lemma LastState(facts: seq<Fact>, lib: DiffScan.Library)
    requires facts != []
    ensures StateAfter(facts, lib) == Step(StateAfter(facts[..|facts| - 1], lib), facts[|facts| - 1], lib).state
  {
  }

  // ---------------------------------------------------------------- client requests

  /** What the fact leaves under the key of a client request: tracked, or taken out; None if it is not about the key. */
  function Leaves(f: Fact, conn: int, req: string): Option<Option<PendingRequest>>
  {
    match f
    case TrackTurnStart(c, r, thread, images) =>
      if c == conn && r == req then Some(Some(PendingStart(thread, images))) else None
    case TrackTurnSteer(c, r, thread, expected, images) =>
      if c == conn && r == req then Some(Some(PendingSteer(thread, expected, images))) else None
    case TurnStartError(c, r) => if c == conn && r == req then Some(None) else None
    case TurnSteerError(c, r) => if c == conn && r == req then Some(None) else None
    case TurnStartResponse(c, r, _) => if c == conn && r == req then Some(None) else None
    case TurnSteerResponse(c, r, _) => if c == conn && r == req then Some(None) else None
    case _ => None
  }

  /** The request last tracked under the key and not taken out or overwritten since. */
  function LastTracked(facts: seq<Fact>, conn: int, req: string): Option<PendingRequest>
  {
    if facts == [] then None
    else
      match Leaves(facts[|facts| - 1], conn, req)
      case Some(left) => left
      case None => LastTracked(facts[..|facts| - 1], conn, req)
  }

  predicate AboutRequests(f: Fact)
  {
    f.TrackTurnStart? || f.TrackTurnSteer? || f.TurnStartError? || f.TurnSteerError? || f.TurnStartResponse?
      || f.TurnSteerResponse?
  }

  lemma OtherRequests(s: State, f: Fact, lib: DiffScan.Library)
    requires !AboutRequests(f)
    ensures Step(s, f, lib).state.requests == s.requests
  {
  }

  lemma RequestsNext(s: State, f: Fact, lib: DiffScan.Library)
    requires AboutRequests(f)
    ensures Step(s, f, lib).state.requests ==
      if f.TrackTurnStart? then s.requests[(f.conn, f.req) := PendingStart(f.thread, f.images)]
      else if f.TrackTurnSteer? then s.requests[(f.conn, f.req) := PendingSteer(f.thread, f.expectedTurn, f.images)]
      else s.requests - {(f.conn, f.req)}
  {
  }

  lemma RequestStep(s: State, f: Fact, conn: int, req: string, lib: DiffScan.Library)
    ensures Lookup(Step(s, f, lib).state.requests, (conn, req)) ==
      match Leaves(f, conn, req) case Some(left) => left case None => Lookup(s.requests, (conn, req))
  {
    if AboutRequests(f) { RequestsNext(s, f, lib); } else { OtherRequests(s, f, lib); }
  }

  lemma {:induction false} RequestsAre(facts: seq<Fact>, conn: int, req: string, lib: DiffScan.Library)
    ensures Lookup(StateAfter(facts, lib).requests, (conn, req)) == LastTracked(facts, conn, req)
    decreases |facts|
  {
    if facts != [] {
      var before := facts[..|facts| - 1];
      RequestsAre(before, conn, req, lib);
      RequestStep(StateAfter(before, lib), facts[|facts| - 1], conn, req, lib);
    }
  }

  // ---------------------------------------------------------------- steer events

  /** A steer was tracked under the key and is still there. */
  predicate SteerPending(facts: seq<Fact>, conn: int, req: string)
  {
    LastTracked(facts, conn, req).Some? && LastTracked(facts, conn, req).value.PendingSteer?
  }

  predicate AnswersSteer(f: Fact)
  {
    f.TurnSteerResponse? || f.TurnSteerError?
  }

  lemma SteerEventsOf(s: State, f: Fact, lib: DiffScan.Library)
    requires AnswersSteer(f)
    ensures var pending := Lookup(s.requests, (f.conn, f.req));
      Step(s, f, lib).events ==
        if pending.Some? && pending.value.PendingSteer?
          then [SteerEvent(pending.value, if f.TurnSteerResponse? then Some(f.turn) else None)] else []
  {
  }

  lemma NoSteerEvents(s: State, f: Fact, lib: DiffScan.Library)
    requires !AnswersSteer(f)
    ensures forall e | e in Step(s, f, lib).events :: !e.SteerEvent?
  {
  }

  /** An answer to a steer makes exactly one event, for the request last tracked under its key and the accepted turn, if
      a steer is pending there, and none otherwise; no other fact makes a steer event. */
  lemma SteerEventIff(facts: seq<Fact>, f: Fact, lib: DiffScan.Library)
    ensures var events := Step(StateAfter(facts, lib), f, lib).events;
      && (f.TurnSteerResponse? ==>
           (events == if SteerPending(facts, f.conn, f.req)
             then [SteerEvent(LastTracked(facts, f.conn, f.req).value, Some(f.turn))] else []))
      && (f.TurnSteerError? ==>
           (events == if SteerPending(facts, f.conn, f.req)
             then [SteerEvent(LastTracked(facts, f.conn, f.req).value, None)] else []))
      && (!f.TurnSteerResponse? && !f.TurnSteerError? ==> forall e | e in events :: !e.SteerEvent?)
  {
    var s := StateAfter(facts, lib);
    if AnswersSteer(f) {
      RequestsAre(facts, f.conn, f.req, lib);
      SteerEventsOf(s, f, lib);
    } else {
      NoSteerEvents(s, f, lib);
    }
  }

  /** The accepted steers of a turn since its state was created. */
  function AcceptedSince(facts: seq<Fact>, turn: string, lib: DiffScan.Library): nat
  {
    if facts == [] then 0
    else
      var before, f := facts[..|facts| - 1], facts[|facts| - 1];
      if turn !in StateAfter(before, lib).turns then 0
      else AcceptedSince(before, turn, lib)
           + (if f.TurnSteerResponse? && f.turn == turn && SteerPending(before, f.conn, f.req) then 1 else 0)
  }

  lemma SteersOnAnswer(s: State, f: Fact, turn: string, lib: DiffScan.Library)
    requires AnswersSteer(f) && turn in Step(s, f, lib).state.turns
    ensures var pending := Lookup(s.requests, (f.conn, f.req));
      && turn in s.turns
      && Step(s, f, lib).state.turns[turn].steers == s.turns[turn].steers
           + (if f.TurnSteerResponse? && f.turn == turn && pending.Some? && pending.value.PendingSteer? then 1 else 0)
  {
  }

  lemma SteersOnCompletion(s: State, f: Fact, turn: string, lib: DiffScan.Library)
    requires f.ItemCompleted? && turn in Step(s, f, lib).state.turns
    ensures turn in s.turns && Step(s, f, lib).state.turns[turn].steers == s.turns[turn].steers
  {
  }

  predicate AboutTurns(f: Fact)
  {
    f.TurnStartResponse? || f.ResolvedConfig? || f.TurnCompleted? || f.TurnStarted? || f.DiffUpdated?
  }

  lemma SteersOnTurnFact(s: State, f: Fact, turn: string, lib: DiffScan.Library)
    requires AboutTurns(f) && turn in Step(s, f, lib).state.turns
    ensures Step(s, f, lib).state.turns[turn].steers == if turn in s.turns then s.turns[turn].steers else 0
  {
  }

  /** The steer count of a live turn is the number of its accepted steers. */
  lemma {:induction false} SteersAreAccepted(facts: seq<Fact>, turn: string, lib: DiffScan.Library)
    requires turn in StateAfter(facts, lib).turns
    ensures StateAfter(facts, lib).turns[turn].steers == AcceptedSince(facts, turn, lib)
    decreases |facts|
  {
    if facts != [] {
      var before, f := facts[..|facts| - 1], facts[|facts| - 1];
      var s := StateAfter(before, lib);
      SteersStep(before, f, turn, lib);
      if turn in s.turns { SteersAreAccepted(before, turn, lib); }
    }
  }

  lemma SteersStep(before: seq<Fact>, f: Fact, turn: string, lib: DiffScan.Library)
    requires turn in Step(StateAfter(before, lib), f, lib).state.turns
    ensures var s := StateAfter(before, lib);
      Step(s, f, lib).state.turns[turn].steers ==
        if turn !in s.turns then 0
        else s.turns[turn].steers
             + (if f.TurnSteerResponse? && f.turn == turn && SteerPending(before, f.conn, f.req) then 1 else 0)
  {
    var s := StateAfter(before, lib);
    if AnswersSteer(f) {
      RequestsAre(before, f.conn, f.req, lib);
      SteersOnAnswer(s, f, turn, lib);
    } else if f.ItemCompleted? {
      SteersOnCompletion(s, f, turn, lib);
    } else if AboutTurns(f) {
      SteersOnTurnFact(s, f, turn, lib);
    } else {
      TurnsFrame(s, f, lib);
    }
  }

  // ---------------------------------------------------------------- reviews

  /** The review last tracked under the request id and not answered since. */
  function ReviewAsked(facts: seq<Fact>, req: string): Option<Review>
  {
    if facts == [] then None
    else
      var before, f := facts[..|facts| - 1], facts[|facts| - 1];
      if f.TrackReview? && f.req == req then Some(f.review)
      else if (f.RequestAborted? || f.ReviewResponse?) && f.req == req then None
      else ReviewAsked(before, req)
  }

  lemma OtherPending(s: State, f: Fact, lib: DiffScan.Library)
    requires !f.TrackReview? && !f.RequestAborted? && !f.ReviewResponse?
    ensures Step(s, f, lib).state.pendingReviews == s.pendingReviews
  {
  }

  lemma AnsweredPending(s: State, f: Fact, lib: DiffScan.Library)
    requires f.RequestAborted? || f.ReviewResponse?
    ensures Step(s, f, lib).state.pendingReviews == s.pendingReviews - {f.req}
  {
  }

  lemma {:induction false} ReviewsAre(facts: seq<Fact>, req: string, lib: DiffScan.Library)
    ensures Lookup(StateAfter(facts, lib).pendingReviews, req) == ReviewAsked(facts, req)
    decreases |facts|
  {
    if facts != [] {
      var before, f := facts[..|facts| - 1], facts[|facts| - 1];
      var s := StateAfter(before, lib);
      ReviewsAre(before, req, lib);
      if f.RequestAborted? || f.ReviewResponse? {
        AnsweredPending(s, f, lib);
      } else if !f.TrackReview? {
        OtherPending(s, f, lib);
      }
    }
  }

  /** The review is about an item of a turn: a command, a file change or a tool call. */
  predicate OnItem(r: Review, key: ItemKey)
  {
    && (r.subject.CommandSubject? || r.subject.FileSubject? || r.subject.McpSubject?)
    && r.item == Some(key.item) && r.thread == key.thread && r.turn == key.turn
  }

  predicate OnSomeItem(r: Review)
  {
    (r.subject.CommandSubject? || r.subject.FileSubject? || r.subject.McpSubject?) && r.item.Some?
  }

  lemma SummaryKeyIs(r: Review, key: ItemKey)
    ensures SummaryKey(r) == Some(key) <==> OnItem(r, key)
    ensures SummaryKey(r).Some? <==> OnSomeItem(r)
  {
  }

  lemma EmittedReview(s: State, r: Review, reviewer: Reviewer, status: ReviewStatus, resolution: Resolution, ms: int)
    ensures EmitReview(s, r, reviewer, status, resolution, ms).events ==
      if reviewer.Unknown? && OnSomeItem(r) then [] else [ReviewEvent(r, reviewer, status, resolution, ms)]
  {
  }

  lemma AnswerEvents(s: State, req: string, reviewer: Reviewer, status: ReviewStatus, resolution: Resolution, ms: int)
    ensures AnsweredReview(s, req, reviewer, status, resolution, ms).events ==
      if req !in s.pendingReviews || (reviewer.Unknown? && OnSomeItem(s.pendingReviews[req])) then []
      else [ReviewEvent(s.pendingReviews[req], reviewer, status, resolution, ms)]
  {
    if req in s.pendingReviews {
      EmittedReview(s.(pendingReviews := s.pendingReviews - {req}), s.pendingReviews[req], reviewer, status,
        resolution, ms);
    }
  }

  lemma NoReviewEvents(s: State, f: Fact, lib: DiffScan.Library)
    requires !f.RequestAborted? && !f.ReviewResponse? && !f.GuardianCompleted?
    ensures forall e | e in Step(s, f, lib).events :: !e.ReviewEvent?
  {
  }

  lemma GuardianEvents(s: State, f: Fact, lib: DiffScan.Library)
    requires f.GuardianCompleted?
    ensures Step(s, f, lib).events ==
      if f.verdict.Concluded? && f.verdict.actionKnown && f.started >= 0 && f.ms >= 0
        then [ReviewEvent(f.review.(startedAt := f.started), Guardian, f.verdict.status, NoResolution, f.ms)] else []
  {
    if f.started >= 0 && f.verdict.Concluded? {
      EmittedReview(s, f.review.(startedAt := f.started), Guardian, f.verdict.status, NoResolution, f.ms);
    }
  }

  /** An answer makes exactly one event, for the review last tracked under its id, if there is one and it is not about
      an item with the reviewer unknown; an abort counts as the user's. A guardian's review makes one if it is
      concluded and in order. No other fact makes a review event. */
  lemma ReviewEventIff(facts: seq<Fact>, f: Fact, lib: DiffScan.Library)
    ensures var events := Step(StateAfter(facts, lib), f, lib).events;
      && (f.ReviewResponse? ==>
           (events == match ReviewAsked(facts, f.req)
             case None => []
             case Some(r) => if f.reviewer.Unknown? && OnSomeItem(r) then []
               else [ReviewEvent(r, f.reviewer, f.status, f.resolution, f.ms)]))
      && (f.RequestAborted? ==>
           (events == match ReviewAsked(facts, f.req)
             case None => []
             case Some(r) => [ReviewEvent(r, User, Aborted, NoResolution, f.ms)]))
      && (f.GuardianCompleted? ==>
           (events == if f.verdict.Concluded? && f.verdict.actionKnown && f.started >= 0 && f.ms >= 0
             then [ReviewEvent(f.review.(startedAt := f.started), Guardian, f.verdict.status, NoResolution, f.ms)]
             else []))
      && (!f.ReviewResponse? && !f.RequestAborted? && !f.GuardianCompleted? ==>
           forall e | e in events :: !e.ReviewEvent?)
  {
    var s := StateAfter(facts, lib);
    if f.ReviewResponse? {
      ReviewsAre(facts, f.req, lib);
      AnswerEvents(s, f.req, f.reviewer, f.status, f.resolution, f.ms);
    } else if f.RequestAborted? {
      ReviewsAre(facts, f.req, lib);
      AnswerEvents(s, f.req, User, Aborted, NoResolution, f.ms);
    } else if f.GuardianCompleted? {
      GuardianEvents(s, f, lib);
    } else {
      NoReviewEvents(s, f, lib);
    }
  }

  // ---------------------------------------------------------------- tool items

  /** The item is tracked and has this id. */
  predicate HasId(item: Item, id: string)
  {
    item.kind != Untracked && item.id == Some(id)
  }

  predicate Starts(f: Fact, key: ItemKey)
  {
    f.ItemStarted? && HasId(f.item, key.item) && f.thread == key.thread && f.turn == key.turn && f.ms >= 0
  }

  predicate Completes(f: Fact, key: ItemKey)
  {
    f.ItemCompleted? && HasId(f.item, key.item) && f.thread == key.thread && f.turn == key.turn
  }

  /** The last start of the item, if no completion for a live turn has come since. */
  function OpenStart(facts: seq<Fact>, key: ItemKey, lib: DiffScan.Library): Option<nat>
  {
    if facts == [] then None
    else
      var before, f := facts[..|facts| - 1], facts[|facts| - 1];
      if Starts(f, key) then Some(f.ms)
      else if Completes(f, key) && key.turn in StateAfter(before, lib).turns then None
      else OpenStart(before, key, lib)
  }

  lemma StartStep(s: State, f: Fact, key: ItemKey, lib: DiffScan.Library)
    requires f.ItemStarted?
    ensures Lookup(Step(s, f, lib).state.itemsStartedAt, key) ==
      if Starts(f, key) then Some(f.ms) else Lookup(s.itemsStartedAt, key)
  {
  }

  lemma CompletionStep(s: State, f: Fact, key: ItemKey, lib: DiffScan.Library)
    requires f.ItemCompleted?
    ensures Lookup(Step(s, f, lib).state.itemsStartedAt, key) ==
      if Completes(f, key) && key.turn in s.turns then None else Lookup(s.itemsStartedAt, key)
  {
  }

  predicate AboutReviews(f: Fact)
  {
    f.TrackReview? || f.RequestAborted? || f.ReviewResponse? || f.GuardianCompleted?
  }

  lemma StartsFrame(s: State, f: Fact, lib: DiffScan.Library)
    requires !f.ItemStarted? && !f.ItemCompleted?
    ensures Step(s, f, lib).state.itemsStartedAt == s.itemsStartedAt
  {
    if AboutReviews(f) { StartsFrameOfReviews(s, f, lib); } else { StartsFrameOfTurns(s, f, lib); }
  }

  lemma StartsFrameOfReviews(s: State, f: Fact, lib: DiffScan.Library)
    requires AboutReviews(f)
    ensures Step(s, f, lib).state.itemsStartedAt == s.itemsStartedAt
  {
  }

  lemma StartsFrameOfTurns(s: State, f: Fact, lib: DiffScan.Library)
    requires !AboutReviews(f) && !f.ItemStarted? && !f.ItemCompleted?
    ensures Step(s, f, lib).state.itemsStartedAt == s.itemsStartedAt
  {
  }

  lemma {:induction false} StartsAre(facts: seq<Fact>, key: ItemKey, lib: DiffScan.Library)
    ensures Lookup(StateAfter(facts, lib).itemsStartedAt, key) == OpenStart(facts, key, lib)
    decreases |facts|
  {
    if facts != [] {
      var before, f := facts[..|facts| - 1], facts[|facts| - 1];
      var s := StateAfter(before, lib);
      StartsAre(before, key, lib);
      if f.ItemStarted? {
        StartStep(s, f, key, lib);
      } else if f.ItemCompleted? {
        CompletionStep(s, f, key, lib);
      } else {
        StartsFrame(s, f, lib);
      }
    }
  }
}
