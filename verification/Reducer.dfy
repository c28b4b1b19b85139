/** `AnalyticsReducer`: facts about turns, steers, tool items and reviews arrive in any order; the
    reducer joins them and emits events. `Step` is one method call on values; the object whose fields
    change in place is in module ReducerObject. */
module Reducer {
  import opened Wrappers
  import DiffScan

  // ---------------------------------------------------------------- values

  datatype ItemKind =
    | CommandExecution | FileChange | McpToolCall | DynamicToolCall | CollabAgentToolCall | WebSearch | ImageGeneration
    | Untracked

  /** A thread item; terminal tells whether its status has an outcome (it is not in progress). */
  datatype Item = Item(kind: ItemKind, id: Option<string>, terminal: bool)

  datatype ToolCounts = ToolCounts(total: nat, shell: nat, file: nat, mcp: nat, dynamic: nat, subagent: nat,
    search: nat, image: nat)
  {
    /** `TurnToolCounts.record` */
    function Record(kind: ItemKind): ToolCounts
    {
      match kind
      case CommandExecution => this.(shell := shell + 1, total := total + 1)
      case FileChange => this.(file := file + 1, total := total + 1)
      case McpToolCall => this.(mcp := mcp + 1, total := total + 1)
      case DynamicToolCall => this.(dynamic := dynamic + 1, total := total + 1)
      case CollabAgentToolCall => this.(subagent := subagent + 1, total := total + 1)
      case WebSearch => this.(search := search + 1, total := total + 1)
      case ImageGeneration => this.(image := image + 1, total := total + 1)
      case Untracked => this
    }

    /** The counter reported for a kind. */
    function Of(kind: ItemKind): nat
    {
      match kind
      case CommandExecution => shell
      case FileChange => file
      case McpToolCall => mcp
      case DynamicToolCall => dynamic
      case CollabAgentToolCall => subagent
      case WebSearch => search
      case ImageGeneration => image
      case Untracked => 0
    }
  }

  const NO_COUNTS: ToolCounts := ToolCounts(0, 0, 0, 0, 0, 0, 0, 0)

  datatype Config = Config(turn: string, thread: string, images: nat, model: string)
  datatype Completed = Completed(status: Option<string>, completedAt: nat)

  datatype TurnState = TurnState(
    connection: Option<int>, thread: Option<string>, images: Option<nat>, resolved: Option<Config>,
    startedAt: Option<nat>, completed: Option<Completed>, latestDiff: Option<string>, steers: nat, counts: ToolCounts)

  const NEW_TURN: TurnState := TurnState(None, None, None, None, None, None, None, 0, NO_COUNTS)

  datatype PendingRequest = PendingStart(thread: string, images: nat) | PendingSteer(thread: string,
    expectedTurn: string, images: nat)

  datatype ItemKey = ItemKey(thread: string, turn: string, item: string)

  datatype Reviewer = Guardian | User | Unknown(name: string)
  datatype ReviewStatus = Approved | Denied | TimedOut | Aborted
  datatype Resolution = NoResolution | SessionApproval | OtherResolution(name: string)
  datatype Outcome =
    | GuardianApproved | GuardianDenied | GuardianAborted
    | UserApproved | UserApprovedForSession | UserDenied | UserAborted | UnknownOutcome

  datatype SubjectKind = CommandSubject | FileSubject | McpSubject | PermissionsSubject | NetworkSubject

  datatype Review = Review(thread: string, turn: string, item: Option<string>, subject: SubjectKind, startedAt: nat,
    additional: bool, network: bool)

  datatype ReviewSummary = ReviewSummary(reviews: nat, guardian: nat, user: nat, outcome: Option<Outcome>,
    additional: bool, network: bool)

  const NO_REVIEWS: ReviewSummary := ReviewSummary(0, 0, 0, None, false, false)

  /** The parameters of a turn event that depend on the facts. */
  datatype TurnParams = TurnParams(turn: string, thread: string, images: nat, config: Config, completed: Completed,
    startedAt: Option<nat>, steers: nat, counts: ToolCounts)

  datatype Event =
    | TurnEvent(params: TurnParams)
    | AcceptedLines(turn: string, thread: string, added: nat, deleted: nat)
    | SteerEvent(request: PendingRequest, acceptedTurn: Option<string>)
    | ToolEvent(key: ItemKey, kind: ItemKind, startedMs: nat, completedMs: nat, summary: ReviewSummary)
    | ReviewEvent(review: Review, reviewer: Reviewer, status: ReviewStatus, resolution: Resolution, ms: int)

  /** The status of a guardian review; once it is concluded the kind of the reviewed action is looked at. */
  datatype GuardianStatus = InProgress | UnknownStatus | Concluded(status: ReviewStatus, actionKnown: bool)

  datatype Fact =
    | TrackTurnStart(conn: int, req: string, thread: string, images: nat)
    | TrackTurnSteer(conn: int, req: string, thread: string, expectedTurn: string, images: nat)
    | TurnStartError(conn: int, req: string)
    | TurnSteerError(conn: int, req: string)
    | TurnStartResponse(conn: int, req: string, turn: string)
    | TurnSteerResponse(conn: int, req: string, turn: string)
    | ResolvedConfig(config: Config)
    | TurnStarted(turn: string, at: Option<int>)
    | DiffUpdated(thread: string, turn: string, diff: string)
    | TurnCompleted(turn: string, completed: Completed)
    | ItemStarted(thread: string, turn: string, item: Item, ms: int)
    | ItemCompleted(thread: string, turn: string, item: Item, ms: int, contextKnown: bool)
    | TrackReview(req: string, review: Review)
    | RequestAborted(req: string, ms: int)
    | ReviewResponse(req: string, reviewer: Reviewer, status: ReviewStatus, resolution: Resolution, ms: int)
    | GuardianCompleted(review: Review, verdict: GuardianStatus, started: int, ms: int)

  datatype State = State(
    requests: map<(int, string), PendingRequest>,
    turns: map<string, TurnState>,
    itemsStartedAt: map<ItemKey, nat>,
    summaries: map<ItemKey, ReviewSummary>,
    pendingReviews: map<string, Review>)

  const INITIAL: State := State(map[], map[], map[], map[], map[])

  /** The new state and the events; raised when the source raises ValueError after its updates. */
  datatype Result = Result(state: State, events: seq<Event>, raised: bool)

  function Quiet(s: State): Result { Result(s, [], false) }

  // ---------------------------------------------------------------- turns

  function TurnOf(s: State, turn: string): TurnState
  {
    if turn in s.turns then s.turns[turn] else NEW_TURN
  }

  /** `_non_negative_int_or_none` */
  function NonNegative(n: int): Option<nat>
  {
    if n >= 0 then Some(n) else None
  }

  /** The gate of `codex_turn_event_params`. */
  function Params(turn: string, ts: TurnState): Option<TurnParams>
  {
    if ts.thread == None || ts.images == None || ts.resolved == None || ts.completed == None then None
    else Some(TurnParams(turn, ts.thread.value, ts.images.value, ts.resolved.value, ts.completed.value, ts.startedAt,
      ts.steers, ts.counts))
  }

  /** `accepted_line_event_input` and the event built from it. */
  function AcceptedLinesOf(turn: string, ts: TurnState, lib: DiffScan.Library): seq<Event>
  {
    if ts.latestDiff == None then []
    else
      var summary := DiffScan.Scan(ts.latestDiff.value, lib);
      if summary.added == 0 && summary.deleted == 0 then []
      else if ts.thread == None || ts.resolved == None then []
      else [AcceptedLines(turn, ts.thread.value, summary.added, summary.deleted)]
  }

  /** `_maybe_emit_turn_event` */
  function MaybeEmit(turns: map<string, TurnState>, turn: string, lib: DiffScan.Library): seq<Event>
  {
    if turn !in turns || turns[turn].connection == None then []
    else match Params(turn, turns[turn])
      case None => []
      case Some(p) => [TurnEvent(p)] + AcceptedLinesOf(turn, turns[turn], lib)
  }

  function StartResponse(s: State, conn: int, req: string, turn: string, lib: DiffScan.Library): Result
  {
    if (conn, req) !in s.requests then Quiet(s)
    else
      var pending, rest := s.requests[(conn, req)], s.requests - {(conn, req)};
      if !pending.PendingStart? then Quiet(s.(requests := rest))
      else
        var ts := TurnOf(s, turn).(connection := Some(conn), thread := Some(pending.thread),
          images := Some(pending.images));
        var turns := s.turns[turn := ts];
        Result(s.(requests := rest, turns := turns), MaybeEmit(turns, turn, lib), false)
  }

  function SteerResponse(s: State, conn: int, req: string, accepted: Option<string>): Result
  {
    if (conn, req) !in s.requests then Quiet(s)
    else
      var pending, rest := s.requests[(conn, req)], s.requests - {(conn, req)};
      if !pending.PendingSteer? then Quiet(s.(requests := rest))
      else
        var turns :=
          if accepted.Some? && accepted.value in s.turns then
            s.turns[accepted.value := s.turns[accepted.value].(steers := s.turns[accepted.value].steers + 1)]
          else s.turns;
        Result(s.(requests := rest, turns := turns), [SteerEvent(pending, accepted)], false)
  }

  function ConfigResolved(s: State, c: Config, lib: DiffScan.Library): Result
  {
    var ts := TurnOf(s, c.turn).(thread := Some(c.thread), images := Some(c.images), resolved := Some(c));
    var turns := s.turns[c.turn := ts];
    Result(s.(turns := turns), MaybeEmit(turns, c.turn, lib), false)
  }

  function CompletedTurn(s: State, turn: string, done: Completed, lib: DiffScan.Library): Result
  {
    var turns := s.turns[turn := TurnOf(s, turn).(completed := Some(done))];
    var events := MaybeEmit(turns, turn, lib);
    Result(s.(turns := if events != [] then turns - {turn} else turns), events, false)
  }

  // ---------------------------------------------------------------- tool items

  /** `tracked_tool_item_id` */
  function TrackedId(item: Item): Option<string>
  {
    if item.kind == Untracked then None else item.id
  }

  function StartedItem(s: State, thread: string, turn: string, item: Item, ms: int): State
  {
    if TrackedId(item) == None || ms < 0 then s
    else s.(itemsStartedAt := s.itemsStartedAt[ItemKey(thread, turn, TrackedId(item).value) := ms])
  }

  /** Whether `tool_item_event` builds an event: some kinds need a terminal status. */
  predicate HasToolEvent(item: Item)
  {
    item.kind == WebSearch || item.kind == ImageGeneration || item.terminal
  }

  function SummaryOf(s: State, key: ItemKey): ReviewSummary
  {
    if key in s.summaries then s.summaries[key] else NO_REVIEWS
  }

  /** `apply_tool_item_review_summary`: a missing outcome is reported as unknown. */
  function Reported(summary: ReviewSummary): ReviewSummary
  {
    summary.(outcome := Some(if summary.outcome.Some? then summary.outcome.value else UnknownOutcome))
  }

  function CompletedItem(s: State, thread: string, turn: string, item: Item, ms: int, contextKnown: bool): Result
  {
    if TrackedId(item) == None || turn !in s.turns then Quiet(s)
    else
      var ts := s.turns[turn];
      var s1 := s.(turns := s.turns[turn := ts.(counts := ts.counts.Record(item.kind))]);
      var key := ItemKey(thread, turn, TrackedId(item).value);
      if key !in s.itemsStartedAt then Quiet(s1)
      else
        var started := s.itemsStartedAt[key];
        var s2 := s1.(itemsStartedAt := s.itemsStartedAt - {key});
        if ms < 0 || !contextKnown then Quiet(s2)
        else
          var s3 := s2.(summaries := s.summaries - {key});
          Result(s3, if HasToolEvent(item) then [ToolEvent(key, item.kind, started, ms, Reported(SummaryOf(s, key)))]
            else [], false)
  }

  // ---------------------------------------------------------------- reviews

  /** `item_review_summary_key` */
  function SummaryKey(r: Review): Option<ItemKey>
  {
    if r.subject == PermissionsSubject || r.subject == NetworkSubject || r.item == None then None
    else Some(ItemKey(r.thread, r.turn, r.item.value))
  }

  /** `final_approval_outcome` for a known reviewer. */
  function FinalOutcome(reviewer: Reviewer, status: ReviewStatus, resolution: Resolution): Outcome
    requires !reviewer.Unknown?
  {
    if reviewer == Guardian then
      if status == Approved then GuardianApproved else if status == Denied then GuardianDenied else GuardianAborted
    else if status == Approved && resolution == SessionApproval then UserApprovedForSession
    else if status == Approved then UserApproved
    else if status == Denied then UserDenied
    else UserAborted
  }

  /** A summary with one more review by a known reviewer accounted for, besides the count of all reviews. */
  function WithReview(m: ReviewSummary, r: Review, reviewer: Reviewer, status: ReviewStatus,
      resolution: Resolution): ReviewSummary
    requires !reviewer.Unknown?
  {
    m.(guardian := m.guardian + (if reviewer == Guardian then 1 else 0),
       user := m.user + (if reviewer == User then 1 else 0),
       outcome := Some(FinalOutcome(reviewer, status, resolution)),
       additional := m.additional || r.additional,
       network := m.network || r.network)
  }

  /** `record_item_review_summary`: the summaries and whether it raised for an unknown reviewer. */
  function RecordReview(s: State, r: Review, reviewer: Reviewer, status: ReviewStatus,
      resolution: Resolution): (State, bool)
  {
    match SummaryKey(r)
    case None => (s, false)
    case Some(key) =>
      var m := SummaryOf(s, key).(reviews := SummaryOf(s, key).reviews + 1);
      if reviewer.Unknown? then (s.(summaries := s.summaries[key := m]), true)
      else
        var n := WithReview(m, r, reviewer, status, resolution);
        (s.(summaries := s.summaries[key := n]), false)
  }

  /** `emit_review_event` */
  function EmitReview(s: State, r: Review, reviewer: Reviewer, status: ReviewStatus, resolution: Resolution,
      ms: int): Result
  {
    var (t, raised) := RecordReview(s, r, reviewer, status, resolution);
    Result(t, if raised then [] else [ReviewEvent(r, reviewer, status, resolution, ms)], raised)
  }

  function AnsweredReview(s: State, req: string, reviewer: Reviewer, status: ReviewStatus, resolution: Resolution,
      ms: int): Result
  {
    if req !in s.pendingReviews then Quiet(s)
    else EmitReview(s.(pendingReviews := s.pendingReviews - {req}), s.pendingReviews[req], reviewer, status,
      resolution, ms)
  }

  // ---------------------------------------------------------------- one fact

  function Step(s: State, f: Fact, lib: DiffScan.Library): Result
  {
    match f
    case TrackTurnStart(conn, req, thread,
      images) => Quiet(s.(requests := s.requests[(conn, req) := PendingStart(thread, images)]))
    case TrackTurnSteer(conn, req, thread, expected,
      images) => Quiet(s.(requests := s.requests[(conn, req) := PendingSteer(thread, expected, images)]))
    case TurnStartError(conn, req) => Quiet(s.(requests := s.requests - {(conn, req)}))
    case TurnSteerError(conn, req) => SteerResponse(s, conn, req, None)
    case TurnStartResponse(conn, req, turn) => StartResponse(s, conn, req, turn, lib)
    case TurnSteerResponse(conn, req, turn) => SteerResponse(s, conn, req, Some(turn))
    case ResolvedConfig(c) => ConfigResolved(s, c, lib)
    case TurnStarted(turn,
      at) => Quiet(s.(turns := s.turns[turn := TurnOf(s, turn).(startedAt := if at.Some? then NonNegative(at.value)
        else None)]))
    case DiffUpdated(thread, turn,
      diff) => Quiet(s.(turns := s.turns[turn := TurnOf(s, turn).(thread := Some(thread), latestDiff := Some(diff))]))
    case TurnCompleted(turn, done) => CompletedTurn(s, turn, done, lib)
    case ItemStarted(thread, turn, item, ms) => Quiet(StartedItem(s, thread, turn, item, ms))
    case ItemCompleted(thread, turn, item, ms, known) => CompletedItem(s, thread, turn, item, ms, known)
    case TrackReview(req, review) => Quiet(s.(pendingReviews := s.pendingReviews[req := review]))
    case RequestAborted(req, ms) => AnsweredReview(s, req, User, Aborted, NoResolution, ms)
    case ReviewResponse(req, reviewer, status, resolution, ms) => AnsweredReview(s, req, reviewer, status, resolution,
      ms)
    case GuardianCompleted(review, verdict, started, ms) =>
      if verdict.UnknownStatus? then Result(s, [], true)
      else if verdict.InProgress? || started < 0 || ms < 0 then Quiet(s)
      else if !verdict.actionKnown then Result(s, [], true)
      else EmitReview(s, review.(startedAt := started), Guardian, verdict.status, NoResolution, ms)
  }

  /** The other facts leave all turns alone. */
  lemma TurnsFrame(s: State, f: Fact, lib: DiffScan.Library)
    requires !f.TurnSteerResponse? && !f.TurnSteerError? && !f.ItemCompleted? && !f.TurnStartResponse?
      && !f.ResolvedConfig?
    requires !f.TurnCompleted? && !f.TurnStarted? && !f.DiffUpdated?
    ensures Step(s, f, lib).state.turns == s.turns
  {
  }

  function StateAfter(facts: seq<Fact>, lib: DiffScan.Library): State
  {
    if facts == [] then INITIAL else Step(StateAfter(facts[..|facts| - 1], lib), facts[|facts| - 1], lib).state
  }

  /** The events of the i-th fact. */
  function EventsAt(facts: seq<Fact>, i: nat, lib: DiffScan.Library): seq<Event>
    requires i < |facts|
  {
    Step(StateAfter(facts[..i], lib), facts[i], lib).events
  }
}
