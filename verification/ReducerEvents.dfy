/** What tool events and turn events carry, by the history of facts alone. */
module ReducerEvents {
  import opened Wrappers
  import opened Reducer
  import opened ReducerHistory
  import opened ReducerLaws
  import opened TurnJoin
  import DiffScan

  // ---------------------------------------------------------------- reviews recorded for an item

  /** A review recorded for an item, by a known reviewer. */
  datatype Recording = Recording(review: Review, reviewer: Reviewer, status: ReviewStatus, resolution: Resolution)

  /** What the fact records for the item. */
  function RecordingOf(before: seq<Fact>, f: Fact, key: ItemKey): Option<Recording>
  {
    match f
    case RequestAborted(req, _) =>
      (match ReviewAsked(before, req)
       case Some(r) => if OnItem(r, key) then Some(Recording(r, User, Aborted, NoResolution)) else None
       case None => None)
    case ReviewResponse(req, reviewer, status, resolution, _) =>
      (match ReviewAsked(before, req)
       case Some(r) => if OnItem(r, key) && !reviewer.Unknown? then Some(Recording(r, reviewer, status, resolution))
         else None
       case None => None)
    case GuardianCompleted(review, verdict, started, ms) =>
      if verdict.Concluded? && verdict.actionKnown && started >= 0 && ms >= 0 && OnItem(review, key)
        then Some(Recording(review.(startedAt := started), Guardian, verdict.status, NoResolution)) else None
    case _ => None
  }

  /** The last recording for the item since it was last closed. */
  function LastRecording(facts: seq<Fact>, key: ItemKey, lib: DiffScan.Library): Option<Recording>
  {
    if facts == [] then None
    else
      var before, f := facts[..|facts| - 1], facts[|facts| - 1];
      if Closes(StateAfter(before, lib), f, key) then None
      else if RecordingOf(before, f, key).Some? then RecordingOf(before, f, key)
      else LastRecording(before, key, lib)
  }

  /** Some recording since then was of a review with the property. */
  function AnyRecording(facts: seq<Fact>, key: ItemKey, holds: Review -> bool, lib: DiffScan.Library): bool
  {
    if facts == [] then false
    else
      var before, f := facts[..|facts| - 1], facts[|facts| - 1];
      if Closes(StateAfter(before, lib), f, key) then false
      else
        || AnyRecording(before, key, holds, lib)
        || (RecordingOf(before, f, key).Some? && holds(RecordingOf(before, f, key).value.review))
  }

  function Additional(): Review -> bool { (r: Review) => r.additional }
  function Network(): Review -> bool { (r: Review) => r.network }

  /** The outcome that a recording stands for. */
  predicate Decides(o: Outcome, r: Recording)
  {
    && (o == GuardianApproved <==> r.reviewer == Guardian && r.status == Approved)
    && (o == GuardianDenied <==> r.reviewer == Guardian && r.status == Denied)
    && (o == GuardianAborted <==> r.reviewer == Guardian && (r.status == TimedOut || r.status == Aborted))
    && (o == UserApprovedForSession <==>
         r.reviewer == User && r.status == Approved && r.resolution == SessionApproval)
    && (o == UserApproved <==> r.reviewer == User && r.status == Approved && r.resolution != SessionApproval)
    && (o == UserDenied <==> r.reviewer == User && r.status == Denied)
    && (o == UserAborted <==> r.reviewer == User && (r.status == TimedOut || r.status == Aborted))
    && o != UnknownOutcome
  }

  lemma OutcomeDecides(r: Recording)
    requires !r.reviewer.Unknown?
    ensures Decides(FinalOutcome(r.reviewer, r.status, r.resolution), r)
  {
  }

  /** The outcome and the two marks of a summary after a recording, or without one. */
  predicate Marked(before: ReviewSummary, after: ReviewSummary, recorded: Option<Recording>)
  {
    match recorded
    case None =>
      after.outcome == before.outcome && after.additional == before.additional && after.network == before.network
    case Some(r) =>
      && after.outcome.Some? && Decides(after.outcome.value, r)
      && after.additional == (before.additional || r.review.additional)
      && after.network == (before.network || r.review.network)
  }

  lemma RecordMarks(s: State, r: Review, reviewer: Reviewer, status: ReviewStatus, resolution: Resolution, key: ItemKey)
    ensures Marked(SummaryOf(s, key), SummaryOf(RecordReview(s, r, reviewer, status, resolution).0, key),
      if OnItem(r, key) && !reviewer.Unknown? then Some(Recording(r, reviewer, status, resolution)) else None)
  {
    if !reviewer.Unknown? { OutcomeDecides(Recording(r, reviewer, status, resolution)); }
  }

  lemma AnswerMarks(before: seq<Fact>, f: Fact, key: ItemKey, lib: DiffScan.Library)
    requires f.RequestAborted? || f.ReviewResponse?
    ensures var s := StateAfter(before, lib);
      Marked(SummaryOf(s, key), SummaryOf(Step(s, f, lib).state, key), RecordingOf(before, f, key))
  {
    var s := StateAfter(before, lib);
    ReviewsAre(before, f.req, lib);
    if f.req in s.pendingReviews {
      var s1 := s.(pendingReviews := s.pendingReviews - {f.req});
      if f.RequestAborted? {
        RecordMarks(s1, s.pendingReviews[f.req], User, Aborted, NoResolution, key);
      } else {
        RecordMarks(s1, s.pendingReviews[f.req], f.reviewer, f.status, f.resolution, key);
      }
    }
  }

  lemma GuardianMarks(before: seq<Fact>, f: Fact, key: ItemKey, lib: DiffScan.Library)
    requires f.GuardianCompleted?
    ensures var s := StateAfter(before, lib);
      Marked(SummaryOf(s, key), SummaryOf(Step(s, f, lib).state, key), RecordingOf(before, f, key))
  {
    var s := StateAfter(before, lib);
    if f.verdict.Concluded? && f.started >= 0 {
      RecordMarks(s, f.review.(startedAt := f.started), Guardian, f.verdict.status, NoResolution, key);
    }
  }

  lemma MarksStep(before: seq<Fact>, f: Fact, key: ItemKey, lib: DiffScan.Library)
    ensures var s := StateAfter(before, lib);
      var old_, new_ := SummaryOf(s, key), SummaryOf(Step(s, f, lib).state, key);
      if Closes(s, f, key) then new_ == NO_REVIEWS else Marked(old_, new_, RecordingOf(before, f, key))
  {
    var s := StateAfter(before, lib);
    if f.ItemCompleted? {
      CompletionSummary(s, f, key, lib);
    } else if f.RequestAborted? || f.ReviewResponse? {
      AnswerMarks(before, f, key, lib);
    } else if f.GuardianCompleted? {
      GuardianMarks(before, f, key, lib);
    } else {
      SummariesFrame(s, f, lib);
    }
  }

  /** A summary by the history since its item was last closed: how many reviews and by whom, the outcome of the last
      one, and whether any asked for more permissions or for the network. */
  ghost predicate Summarises(m: ReviewSummary, facts: seq<Fact>, key: ItemKey, lib: DiffScan.Library)
  {
    && m.reviews == ReviewsSince(facts, key, None, lib)
    && m.guardian == ReviewsSince(facts, key, Some(Guardian), lib)
    && m.user == ReviewsSince(facts, key, Some(User), lib)
    && (m.outcome.Some? <==> LastRecording(facts, key, lib).Some?)
    && (m.outcome.Some? ==> Decides(m.outcome.value, LastRecording(facts, key, lib).value))
    && m.additional == AnyRecording(facts, key, Additional(), lib)
    && m.network == AnyRecording(facts, key, Network(), lib)
  }

  lemma {:induction false} MarksAre(facts: seq<Fact>, key: ItemKey, lib: DiffScan.Library)
    ensures var m := SummaryOf(StateAfter(facts, lib), key);
      && (m.outcome.Some? <==> LastRecording(facts, key, lib).Some?)
      && (m.outcome.Some? ==> Decides(m.outcome.value, LastRecording(facts, key, lib).value))
      && m.additional == AnyRecording(facts, key, Additional(), lib)
      && m.network == AnyRecording(facts, key, Network(), lib)
    decreases |facts|
  {
    if facts != [] {
      MarksAre(facts[..|facts| - 1], key, lib);
      MarksStep(facts[..|facts| - 1], facts[|facts| - 1], key, lib);
    }
  }

  lemma SummaryIs(facts: seq<Fact>, key: ItemKey, lib: DiffScan.Library)
    ensures Summarises(SummaryOf(StateAfter(facts, lib), key), facts, key, lib)
  {
    SummaryCountsReviews(facts, key, lib);
    MarksAre(facts, key, lib);
  }

  // ---------------------------------------------------------------- tool events

  /** A summary as it is reported: an outcome there is none of is reported as unknown. */
  ghost predicate Reports(m: ReviewSummary, facts: seq<Fact>, key: ItemKey, lib: DiffScan.Library)
  {
    && m.outcome.Some?
    && Summarises(if LastRecording(facts, key, lib).Some? then m else m.(outcome := None), facts, key, lib)
    && (LastRecording(facts, key, lib) == None ==> m.outcome == Some(UnknownOutcome))
  }

  /** The completion of a tracked item of a live turn whose start is open. */
  predicate Closing(facts: seq<Fact>, f: Fact, lib: DiffScan.Library)
  {
    && f.ItemCompleted? && KeyOf(f).Some? && f.turn in StateAfter(facts, lib).turns
    && OpenStart(facts, KeyOf(f).value, lib).Some?
  }

  /** A completion makes exactly one tool event if it closes an open start of a tracked item of a live turn, is in
      order and of an item that is reported, and none otherwise; no other fact makes one. The event carries the item,
      its start, its completion and the reviews since the item was last closed. */
  lemma ToolEventIff(facts: seq<Fact>, f: Fact, lib: DiffScan.Library)
    ensures var events := Step(StateAfter(facts, lib), f, lib).events;
      && (f.ItemCompleted? && !(Closing(facts, f, lib) && Reportable(f)) ==> events == [])
      && (f.ItemCompleted? && Closing(facts, f, lib) && Reportable(f) ==>
           && |events| == 1 && events[0].ToolEvent?
           && var key, e := KeyOf(f).value, events[0];
              && e == ToolEvent(key, f.item.kind, OpenStart(facts, key, lib).value, f.ms, e.summary)
              && Reports(e.summary, facts, key, lib))
      && (!f.ItemCompleted? ==> forall e | e in events :: !e.ToolEvent?)
  {
    var s := StateAfter(facts, lib);
    if f.ItemCompleted? {
      if KeyOf(f).Some? {
        StartsAre(facts, KeyOf(f).value, lib);
        SummaryIs(facts, KeyOf(f).value, lib);
      }
      CompletionEvents(s, f, lib);
    } else {
      NoToolEvents(s, f, lib);
    }
  }

  lemma NoToolEvents(s: State, f: Fact, lib: DiffScan.Library)
    requires !f.ItemCompleted?
    ensures forall e | e in Step(s, f, lib).events :: !e.ToolEvent?
  {
  }

  lemma CompletionEvents(s: State, f: Fact, lib: DiffScan.Library)
    requires f.ItemCompleted?
    ensures Step(s, f, lib).events ==
      if KeyOf(f).Some? && f.turn in s.turns && KeyOf(f).value in s.itemsStartedAt && Reportable(f)
        then [ToolEvent(KeyOf(f).value, f.item.kind, s.itemsStartedAt[KeyOf(f).value], f.ms,
               Reported(SummaryOf(s, KeyOf(f).value)))]
      else []
  {
  }

  // ---------------------------------------------------------------- parts of a turn

  /** What the fact contributes to the turn, by the history before it. */
  function PartBy(before: seq<Fact>, f: Fact, t: string): Part
  {
    match f
    case TurnStartResponse(conn, req, turn) =>
      (match LastTracked(before, conn, req)
       case Some(PendingStart(thread, images)) => if turn == t then StartPart(thread, images) else NoPart
       case _ => NoPart)
    case ResolvedConfig(c) => if c.turn == t then ConfigPart(c) else NoPart
    case TurnCompleted(turn, done) => if turn == t then DonePart(done) else NoPart
    case _ => NoPart
  }

  lemma PartIs(before: seq<Fact>, f: Fact, t: string, lib: DiffScan.Library)
    ensures Contribution(StateAfter(before, lib), f, t) == PartBy(before, f, t)
  {
    if f.TurnStartResponse? { RequestsAre(before, f.conn, f.req, lib); }
  }

  /** The kinds of parts that came since the turn was last forgotten. */
  function SeenBy(facts: seq<Fact>, t: string): Seen
    decreases |facts|, 0
  {
    if facts == [] then Seen(false, false, false)
    else
      var before, f := facts[..|facts| - 1], facts[|facts| - 1];
      if Forgets(before, f, t) then Seen(false, false, false) else SeenBy(before, t).With(PartBy(before, f, t))
  }

  /** The fact is a completion after which nothing is missing: the turn is reported and forgotten. */
  predicate Forgets(before: seq<Fact>, f: Fact, t: string)
    decreases |before|, 1
  {
    PartBy(before, f, t).DonePart? && SeenBy(before, t).With(PartBy(before, f, t)).All()
  }

  lemma {:induction false} SeenIs(facts: seq<Fact>, t: string, lib: DiffScan.Library)
    ensures SeenSince(facts, |facts|, t, lib) == SeenBy(facts, t)
    decreases |facts|
  {
    if facts != [] {
      var n := |facts| - 1;
      var before := facts[..n];
      SeenIs(before, t, lib);
      SeenPrefix(facts, n, n, t, lib);
      PartIs(before, facts[n], t, lib);
    }
  }

  lemma {:induction false} SeenPrefix(facts: seq<Fact>, m: nat, n: nat, t: string, lib: DiffScan.Library)
    requires n <= m <= |facts|
    ensures SeenSince(facts[..m], n, t, lib) == SeenSince(facts, n, t, lib)
  {
    if n > 0 {
      SeenPrefix(facts, m, n - 1, t, lib);
      assert facts[..m][..n - 1] == facts[..n - 1];
    }
  }

  lemma StateShowsSeen(before: seq<Fact>, t: string, lib: DiffScan.Library)
    ensures Shows(TurnOf(StateAfter(before, lib), t), SeenBy(before, t))
  {
    assert before[..|before|] == before;
    StateShows(before, |before|, t, lib);
    SeenIs(before, t, lib);
  }

  /** The turn has been heard of since it was last forgotten. */
  function Live(facts: seq<Fact>, t: string): bool
  {
    facts != [] &&
    var before, f := facts[..|facts| - 1], facts[|facts| - 1];
    !Forgets(before, f, t) && (Mentions(before, f, t) || Live(before, t))
  }

  predicate Mentions(before: seq<Fact>, f: Fact, t: string)
  {
    PartBy(before, f, t) != NoPart || ((f.TurnStarted? || f.DiffUpdated?) && f.turn == t)
  }

  lemma LiveOnPart(before: seq<Fact>, f: Fact, t: string, lib: DiffScan.Library)
    requires PartBy(before, f, t) != NoPart
    ensures var s := StateAfter(before, lib); t in Step(s, f, lib).state.turns <==> !Forgets(before, f, t)
  {
    var s := StateAfter(before, lib);
    PartIs(before, f, t, lib);
    StateShowsSeen(before, t, lib);
    if f.TurnCompleted? {
      var after := TurnOf(s, t).(completed := Some(f.completed));
      TookShows(TurnOf(s, t), after, PartBy(before, f, t), SeenBy(before, t));
      ShowsAll(t, after, SeenBy(before, t).With(PartBy(before, f, t)));
    }
  }

  lemma LiveElsewhere(s: State, f: Fact, t: string, lib: DiffScan.Library)
    requires Contribution(s, f, t) == NoPart
    ensures t in Step(s, f, lib).state.turns <==> t in s.turns || ((f.TurnStarted? || f.DiffUpdated?) && f.turn == t)
  {
    if f.TurnSteerResponse? || f.TurnSteerError? {
      LiveOnSteer(s, f, t, lib);
    } else if f.ItemCompleted? {
      LiveOnCompletion(s, f, t, lib);
    } else if AboutTurns(f) {
      LiveOnTurnFact(s, f, t, lib);
    } else {
      TurnsFrame(s, f, lib);
    }
  }

  lemma LiveOnSteer(s: State, f: Fact, t: string, lib: DiffScan.Library)
    requires f.TurnSteerResponse? || f.TurnSteerError?
    ensures t in Step(s, f, lib).state.turns <==> t in s.turns
  {
  }

  lemma LiveOnCompletion(s: State, f: Fact, t: string, lib: DiffScan.Library)
    requires f.ItemCompleted?
    ensures t in Step(s, f, lib).state.turns <==> t in s.turns
  {
  }

  lemma LiveOnTurnFact(s: State, f: Fact, t: string, lib: DiffScan.Library)
    requires AboutTurns(f) && Contribution(s, f, t) == NoPart
    ensures t in Step(s, f, lib).state.turns <==> t in s.turns || ((f.TurnStarted? || f.DiffUpdated?) && f.turn == t)
  {
  }

  /** The reducer keeps a state exactly for the turns it has heard of since they were last forgotten. */
  lemma {:induction false} LiveIs(facts: seq<Fact>, t: string, lib: DiffScan.Library)
    ensures t in StateAfter(facts, lib).turns <==> Live(facts, t)
    decreases |facts|
  {
    if facts != [] {
      var before, f := facts[..|facts| - 1], facts[|facts| - 1];
      LiveIs(before, t, lib);
      PartIs(before, f, t, lib);
      if PartBy(before, f, t) != NoPart {
        LiveOnPart(before, f, t, lib);
      } else {
        LiveElsewhere(StateAfter(before, lib), f, t, lib);
      }
    }
  }

  // ---------------------------------------------------------------- the fields of a turn

  /** What a fact sets a field of the turn to; None if it leaves it alone. */
  type Setter<!T> = (seq<Fact>, Fact) -> Option<Option<T>>

  /** What the field was last set to since the turn was last forgotten. */
  function Latest<T>(facts: seq<Fact>, t: string, sets: Setter<T>): Option<T>
    decreases |facts|, 0
  {
    if facts == [] then None
    else
      var before, f := facts[..|facts| - 1], facts[|facts| - 1];
      if Forgets(before, f, t) then None else LatestWith(before, f, t, sets)
  }

  /** The same after one more fact, before the turn is forgotten. */
  function LatestWith<T>(before: seq<Fact>, f: Fact, t: string, sets: Setter<T>): Option<T>
    decreases |before|, 1
  {
    match sets(before, f) case Some(v) => v case None => Latest(before, t, sets)
  }

  function SetsThread(t: string): Setter<string>
  {
    (before: seq<Fact>, f: Fact) =>
      match PartBy(before, f, t)
      case StartPart(thread, _) => Some(Some(thread))
      case ConfigPart(c) => Some(Some(c.thread))
      case _ => if f.DiffUpdated? && f.turn == t then Some(Some(f.thread)) else None
  }

  function SetsImages(t: string): Setter<nat>
  {
    (before: seq<Fact>, f: Fact) =>
      match PartBy(before, f, t)
      case StartPart(_, images) => Some(Some(images))
      case ConfigPart(c) => Some(Some(c.images))
      case _ => None
  }

  function SetsConfig(t: string): Setter<Config>
  {
    (before: seq<Fact>, f: Fact) =>
      match PartBy(before, f, t) case ConfigPart(c) => Some(Some(c)) case _ => None
  }

  function SetsCompletion(t: string): Setter<Completed>
  {
    (before: seq<Fact>, f: Fact) =>
      match PartBy(before, f, t) case DonePart(d) => Some(Some(d)) case _ => None
  }

  function SetsStart(t: string): Setter<nat>
  {
    (before: seq<Fact>, f: Fact) =>
      if f.TurnStarted? && f.turn == t
        then Some(if f.at.Some? && f.at.value >= 0 then Some(f.at.value as nat) else None) else None
  }

  function SetsDiff(t: string): Setter<string>
  {
    (before: seq<Fact>, f: Fact) => if f.DiffUpdated? && f.turn == t then Some(Some(f.diff)) else None
  }

  /** The fields of a turn's state. */
  datatype Fields = Fields(thread: Option<string>, images: Option<nat>, resolved: Option<Config>,
    completed: Option<Completed>, startedAt: Option<nat>, latestDiff: Option<string>)

  const NO_FIELDS: Fields := Fields(None, None, None, None, None, None)

  function FieldsOf(ts: TurnState): Fields
  {
    Fields(ts.thread, ts.images, ts.resolved, ts.completed, ts.startedAt, ts.latestDiff)
  }

  function LatestFields(facts: seq<Fact>, t: string): Fields
  {
    Fields(Latest(facts, t, SetsThread(t)), Latest(facts, t, SetsImages(t)), Latest(facts, t, SetsConfig(t)),
      Latest(facts, t, SetsCompletion(t)), Latest(facts, t, SetsStart(t)), Latest(facts, t, SetsDiff(t)))
  }

  function FieldsWith(before: seq<Fact>, f: Fact, t: string): Fields
  {
    Fields(LatestWith(before, f, t, SetsThread(t)), LatestWith(before, f, t, SetsImages(t)),
      LatestWith(before, f, t, SetsConfig(t)), LatestWith(before, f, t, SetsCompletion(t)),
      LatestWith(before, f, t, SetsStart(t)), LatestWith(before, f, t, SetsDiff(t)))
  }

  /** The fields after a part was taken, a note made, or neither. */
  function Updated(was: Fields, f: Fact, part: Part, t: string): Fields
  {
    match part
    case StartPart(thread, images) => was.(thread := Some(thread), images := Some(images))
    case ConfigPart(c) => was.(thread := Some(c.thread), images := Some(c.images), resolved := Some(c))
    case DonePart(d) => was.(completed := Some(d))
    case NoPart =>
      if f.TurnStarted? && f.turn == t then
        was.(startedAt := if f.at.Some? && f.at.value >= 0 then Some(f.at.value as nat) else None)
      else if f.DiffUpdated? && f.turn == t then was.(thread := Some(f.thread), latestDiff := Some(f.diff))
      else was
  }

  lemma UpdatedIsLatest(before: seq<Fact>, f: Fact, t: string)
    ensures FieldsWith(before, f, t) == Updated(LatestFields(before, t), f, PartBy(before, f, t), t)
  {
  }

  lemma FieldsElsewhere(s: State, f: Fact, t: string, lib: DiffScan.Library)
    requires Contribution(s, f, t) == NoPart
    ensures FieldsOf(TurnOf(Step(s, f, lib).state, t)) == Updated(FieldsOf(TurnOf(s, t)), f, NoPart, t)
  {
    if f.TurnSteerResponse? || f.TurnSteerError? {
      FieldsOnSteer(s, f, t, lib);
    } else if f.ItemCompleted? {
      FieldsOnCompletion(s, f, t, lib);
    } else if f.TurnStarted? || f.DiffUpdated? {
      FieldsOnNote(s, f, t, lib);
    } else if AboutTurns(f) {
      PartElsewhere(s, f, t, lib);
    } else {
      TurnsFrame(s, f, lib);
    }
  }

  lemma FieldsOnSteer(s: State, f: Fact, t: string, lib: DiffScan.Library)
    requires f.TurnSteerResponse? || f.TurnSteerError?
    ensures FieldsOf(TurnOf(Step(s, f, lib).state, t)) == FieldsOf(TurnOf(s, t))
  {
  }

  lemma FieldsOnCompletion(s: State, f: Fact, t: string, lib: DiffScan.Library)
    requires f.ItemCompleted?
    ensures FieldsOf(TurnOf(Step(s, f, lib).state, t)) == FieldsOf(TurnOf(s, t))
  {
  }

  lemma FieldsOnNote(s: State, f: Fact, t: string, lib: DiffScan.Library)
    requires f.TurnStarted? || f.DiffUpdated?
    ensures FieldsOf(TurnOf(Step(s, f, lib).state, t)) == Updated(FieldsOf(TurnOf(s, t)), f, NoPart, t)
  {
  }

  /** The turn's state once the part is taken, from which the events are made. */
  function Taken(s: State, f: Fact, t: string): TurnState
  {
    match Contribution(s, f, t)
    case StartPart(thread, images) =>
      TurnOf(s, t).(connection := if f.TurnStartResponse? then Some(f.conn) else None, thread := Some(thread),
        images := Some(images))
    case ConfigPart(c) => TurnOf(s, t).(thread := Some(c.thread), images := Some(c.images), resolved := Some(c))
    case DonePart(d) => TurnOf(s, t).(completed := Some(d))
    case NoPart => TurnOf(s, t)
  }

  lemma TakenShows(s: State, f: Fact, t: string, seen: Seen)
    requires Contribution(s, f, t) != NoPart && Shows(TurnOf(s, t), seen)
    ensures Shows(Taken(s, f, t), seen.With(Contribution(s, f, t)))
    ensures FieldsOf(Taken(s, f, t)) == Updated(FieldsOf(TurnOf(s, t)), f, Contribution(s, f, t), t)
    ensures Taken(s, f, t).steers == TurnOf(s, t).steers && Taken(s, f, t).counts == TurnOf(s, t).counts
  {
  }

  lemma PartStep(s: State, f: Fact, t: string, lib: DiffScan.Library)
    requires Contribution(s, f, t) != NoPart
    ensures var r := Step(s, f, lib); var ts := Taken(s, f, t);
      && r.events == MaybeEmit(map[t := ts], t, lib)
      && TurnOf(r.state, t) == if f.TurnCompleted? && ts.connection.Some? && Params(t, ts).Some? then NEW_TURN else ts
  {
  }

  lemma {:induction false} FieldsAre(facts: seq<Fact>, t: string, lib: DiffScan.Library)
    ensures FieldsOf(TurnOf(StateAfter(facts, lib), t)) == LatestFields(facts, t)
    decreases |facts|
  {
    if facts != [] {
      var before, f := facts[..|facts| - 1], facts[|facts| - 1];
      FieldsAre(before, t, lib);
      FieldsStep(before, f, t, lib);
      UpdatedIsLatest(before, f, t);
      if Forgets(before, f, t) { Forgotten(facts, t); } else { NotForgotten(facts, t); }
    }
  }

  lemma Forgotten(facts: seq<Fact>, t: string)
    requires facts != [] && Forgets(facts[..|facts| - 1], facts[|facts| - 1], t)
    ensures LatestFields(facts, t) == NO_FIELDS
  {
  }

  lemma NotForgotten(facts: seq<Fact>, t: string)
    requires facts != [] && !Forgets(facts[..|facts| - 1], facts[|facts| - 1], t)
    ensures LatestFields(facts, t) == FieldsWith(facts[..|facts| - 1], facts[|facts| - 1], t)
  {
  }

  lemma FieldsStep(before: seq<Fact>, f: Fact, t: string, lib: DiffScan.Library)
    ensures var s := StateAfter(before, lib);
      FieldsOf(TurnOf(Step(s, f, lib).state, t)) ==
        if Forgets(before, f, t) then NO_FIELDS else Updated(FieldsOf(TurnOf(s, t)), f, PartBy(before, f, t), t)
  {
    var s := StateAfter(before, lib);
    PartIs(before, f, t, lib);
    if PartBy(before, f, t) == NoPart {
      FieldsElsewhere(s, f, t, lib);
    } else {
      StateShowsSeen(before, t, lib);
      TakenShows(s, f, t, SeenBy(before, t));
      ShowsAll(t, Taken(s, f, t), SeenBy(before, t).With(PartBy(before, f, t)));
      PartStep(s, f, t, lib);
    }
  }

  // ---------------------------------------------------------------- turn events

  /** The lines of the latest diff that are reported with the turn, if there are any. */
  function LinesBy(fields: Fields, t: string, lib: DiffScan.Library): seq<Event>
  {
    if fields.latestDiff == None || fields.thread == None then []
    else
      var summary := DiffScan.Scan(fields.latestDiff.value, lib);
      if summary.added > 0 || summary.deleted > 0
        then [AcceptedLines(t, fields.thread.value, summary.added, summary.deleted)] else []
  }

  /** A fact about a turn makes events exactly if it brings a part and nothing is missing then: the turn event, with
      every field as it was last set since the turn was last forgotten and the counts of the turn, and the lines of its
      latest diff. */
  lemma TurnEventCarries(before: seq<Fact>, f: Fact, t: string, lib: DiffScan.Library)
    requires PartBy(before, f, t) != NoPart
    ensures var s, fields := StateAfter(before, lib), FieldsWith(before, f, t);
      var events := Step(s, f, lib).events;
      if !SeenBy(before, t).With(PartBy(before, f, t)).All() then events == []
      else
        && fields.thread.Some? && fields.images.Some? && fields.resolved.Some? && fields.completed.Some?
        && events == [TurnEvent(TurnParams(t, fields.thread.value, fields.images.value, fields.resolved.value,
             fields.completed.value, fields.startedAt, TurnOf(s, t).steers, TurnOf(s, t).counts))]
             + LinesBy(fields, t, lib)
  {
    var s := StateAfter(before, lib);
    PartIs(before, f, t, lib);
    FieldsAre(before, t, lib);
    UpdatedIsLatest(before, f, t);
    StateShowsSeen(before, t, lib);
    TakenShows(s, f, t, SeenBy(before, t));
    ShowsAll(t, Taken(s, f, t), SeenBy(before, t).With(PartBy(before, f, t)));
    PartStep(s, f, t, lib);
    Emitted(t, Taken(s, f, t), lib);
  }

  lemma Emitted(t: string, ts: TurnState, lib: DiffScan.Library)
    ensures MaybeEmit(map[t := ts], t, lib) ==
      if ts.connection == None || ts.thread == None || ts.images == None || ts.resolved == None || ts.completed == None
        then []
      else [TurnEvent(TurnParams(t, ts.thread.value, ts.images.value, ts.resolved.value, ts.completed.value,
             ts.startedAt, ts.steers, ts.counts))] + LinesBy(FieldsOf(ts), t, lib)
  {
  }

  /** The counts in it: the accepted steers and the completed items of the turn, by kind, since it was last forgotten.
      */
  lemma TurnCounts(before: seq<Fact>, t: string, kind: ItemKind, lib: DiffScan.Library)
    requires kind != Untracked
    ensures var ts := TurnOf(StateAfter(before, lib), t);
      && ts.steers == (if Live(before, t) then AcceptedSince(before, t, lib) else 0)
      && ts.counts.Of(kind) == (if Live(before, t) then CompletionsSince(before, t, kind, lib) else 0)
      && Balanced(ts.counts)
  {
    LiveIs(before, t, lib);
    if Live(before, t) {
      SteersAreAccepted(before, t, lib);
      CountsAreCompletions(before, t, kind, lib);
    } else {
      NoCounts(kind);
    }
  }
}
