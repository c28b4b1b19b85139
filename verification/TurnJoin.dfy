/** When the reducer emits a turn event: exactly once, at the last of the three facts it joins. */
module TurnJoin {
  import opened Wrappers
  import opened Reducer
  import DiffScan

  /** What a fact contributes to a turn in a given state. */
  datatype Part = NoPart | StartPart(thread: string,
    images: nat) | ConfigPart(config: Config) | DonePart(completed: Completed)

  function Contribution(s: State, f: Fact, t: string): Part
  {
    match f
    case TurnStartResponse(conn, req, turn) =>
      if turn == t && (conn, req) in s.requests && s.requests[(conn, req)].PendingStart?
      then StartPart(s.requests[(conn, req)].thread, s.requests[(conn, req)].images) else NoPart
    case ResolvedConfig(c) => if c.turn == t then ConfigPart(c) else NoPart
    case TurnCompleted(turn, done) => if turn == t then DonePart(done) else NoPart
    case _ => NoPart
  }

  function TurnEvents(events: seq<Event>, t: string): seq<TurnParams>
  {
    if events == [] then []
    else (if events[0].TurnEvent? && events[0].params.turn == t then [events[0].params]
      else []) + TurnEvents(events[1..], t)
  }

  /** The values the three facts agree on. */
  datatype Join = Join(turn: string, thread: string, images: nat, config: Config, completed: Completed)

  /** Which of the three facts have arrived. */
  datatype Seen = Seen(start: bool, config: bool, done: bool)
  {
    predicate All() { start && config && done }

    function With(p: Part): Seen
    {
      Seen(start || p.StartPart?, config || p.ConfigPart?, done || p.DonePart?)
    }
  }

  /** The part is one of the three facts, not seen before, with the agreed values. */
  predicate Agrees(j: Join, seen: Seen, p: Part)
  {
    match p
    case NoPart => true
    case StartPart(thread, images) => !seen.start && thread == j.thread && images == j.images
    case ConfigPart(c) => !seen.config && c == j.config && c.thread == j.thread && c.images == j.images
    case DonePart(d) => !seen.done && d == j.completed
  }

  /** A diff of the turn names the same thread. */
  predicate DiffAgrees(j: Join, f: Fact)
  {
    f.DiffUpdated? && f.turn == j.turn ==> f.thread == j.thread
  }

  /** The turn state holds exactly what has been seen. */
  predicate Collected(s: State, j: Join, seen: Seen)
  {
    var ts := TurnOf(s, j.turn);
    && (seen.start <==> ts.connection.Some?)
    && ts.resolved == (if seen.config then Some(j.config) else None)
    && ts.completed == (if seen.done then Some(j.completed) else None)
    && (seen.start || seen.config ==> ts.thread == Some(j.thread) && ts.images == Some(j.images))
    && (ts.thread.Some? ==> ts.thread == Some(j.thread))
  }

  /** The event carries the agreed values. */
  predicate Matches(p: TurnParams, j: Join)
  {
    p.turn == j.turn && p.thread == j.thread && p.images == j.images && p.config == j.config
      && p.completed == j.completed
  }

  lemma OneEvent(e: Event, t: string)
    ensures TurnEvents([e], t) == if e.TurnEvent? && e.params.turn == t then [e.params] else []
  {
    assert [e][1..] == [];
  }

  lemma EmittedTurnEvents(turns: map<string, TurnState>, turn: string, t: string, lib: DiffScan.Library)
    ensures TurnEvents(MaybeEmit(turns, turn, lib), t)
         == if turn == t && turn in turns && turns[turn].connection.Some? && Params(turn, turns[turn]).Some?
            then [Params(turn, turns[turn]).value] else []
  {
    var events := MaybeEmit(turns, turn, lib);
    if events != [] {
      var rest := AcceptedLinesOf(turn, turns[turn], lib);
      assert events[1..] == rest;
      if rest != [] { OneEvent(rest[0], t); assert rest == [rest[0]]; }
    }
  }

  lemma {:induction false} NoTurnEvents(events: seq<Event>, t: string)
    requires forall i | 0 <= i < |events| :: !events[i].TurnEvent?
    ensures TurnEvents(events, t) == []
  {
    if events != [] { NoTurnEvents(events[1..], t); }
  }

  /** A fact that contributes nothing to the turn emits no turn event for it. */
  lemma NoPartNoEvent(s: State, f: Fact, t: string, lib: DiffScan.Library)
    requires Contribution(s, f, t) == NoPart
    ensures TurnEvents(Step(s, f, lib).events, t) == []
  {
    if f.TurnStartResponse? {
      EmittedTurnEvents(StartResponse(s, f.conn, f.req, f.turn, lib).state.turns, f.turn, t, lib);
    } else if f.ResolvedConfig? {
      EmittedTurnEvents(ConfigResolved(s, f.config, lib).state.turns, f.config.turn, t, lib);
    } else if f.TurnCompleted? {
      EmittedTurnEvents(s.turns[f.turn := TurnOf(s, f.turn).(completed := Some(f.completed))], f.turn, t, lib);
    } else {
      OtherFactNoTurnEvent(s, f, lib);
      NoTurnEvents(Step(s, f, lib).events, t);
    }
  }

  lemma OtherFactNoTurnEvent(s: State, f: Fact, lib: DiffScan.Library)
    requires !f.TurnStartResponse? && !f.ResolvedConfig? && !f.TurnCompleted?
    ensures forall i | 0 <= i < |Step(s, f, lib).events| :: !Step(s, f, lib).events[i].TurnEvent?
  {
  }

  /** The turn's state is changed by a fact without a part at most in fields the join does not use. */
  lemma NoPartTurn(s: State, f: Fact, t: string, lib: DiffScan.Library)
    requires Contribution(s, f, t) == NoPart
    ensures KeepsJoinFields(TurnOf(s, t), TurnOf(Step(s, f, lib).state, t), f, t)
  {
    if f.TurnSteerResponse? {
      SteerKeepsTurn(s, f.conn, f.req, Some(f.turn), t);
    } else if f.TurnSteerError? {
      SteerKeepsTurn(s, f.conn, f.req, None, t);
    } else if f.ItemCompleted? {
      ItemKeepsTurn(s, f.thread, f.turn, f.item, f.ms, f.contextKnown, t);
    } else if f.TurnStartResponse? || f.ResolvedConfig? || f.TurnCompleted? || f.TurnStarted? || f.DiffUpdated? {
      TurnFactElsewhere(s, f, t, lib);
    } else {
      TurnsFrame(s, f, lib);
    }
  }

  predicate KeepsJoinFields(before: TurnState, after: TurnState, f: Fact, t: string)
  {
    && after.connection == before.connection && after.images == before.images
    && after.resolved == before.resolved && after.completed == before.completed
    && after.thread == (if f.DiffUpdated? && f.turn == t then Some(f.thread) else before.thread)
  }

  /** Facts about turns. */
  lemma TurnFactElsewhere(s: State, f: Fact, t: string, lib: DiffScan.Library)
    requires f.TurnStartResponse? || f.ResolvedConfig? || f.TurnCompleted? || f.TurnStarted? || f.DiffUpdated?
    requires Contribution(s, f, t) == NoPart
    ensures KeepsJoinFields(TurnOf(s, t), TurnOf(Step(s, f, lib).state, t), f, t)
  {
    if f.TurnStarted? || f.DiffUpdated? { NoteElsewhere(s, f, t, lib); } else { PartElsewhere(s, f, t, lib); }
  }

  lemma NoteElsewhere(s: State, f: Fact, t: string, lib: DiffScan.Library)
    requires f.TurnStarted? || f.DiffUpdated?
    ensures KeepsJoinFields(TurnOf(s, t), TurnOf(Step(s, f, lib).state, t), f, t)
  {
  }

  lemma PartElsewhere(s: State, f: Fact, t: string, lib: DiffScan.Library)
    requires (f.TurnStartResponse? || f.ResolvedConfig? || f.TurnCompleted?) && Contribution(s, f, t) == NoPart
    ensures TurnOf(Step(s, f, lib).state, t) == TurnOf(s, t)
  {
  }

  predicate SameJoinFields(a: TurnState, b: TurnState)
  {
    a.connection == b.connection && a.images == b.images && a.resolved == b.resolved && a.completed == b.completed
      && a.thread == b.thread
  }

  lemma SteerKeepsTurn(s: State, conn: int, req: string, accepted: Option<string>, t: string)
    ensures SameJoinFields(TurnOf(s, t), TurnOf(SteerResponse(s, conn, req, accepted).state, t))
  {
  }

  lemma ItemKeepsTurn(s: State, thread: string, turn: string, item: Item, ms: int, known: bool, t: string)
    ensures SameJoinFields(TurnOf(s, t), TurnOf(CompletedItem(s, thread, turn, item, ms, known).state, t))
  {
  }

  lemma NoPartKeeps(s: State, f: Fact, j: Join, seen: Seen, lib: DiffScan.Library)
    requires Collected(s, j, seen) && Contribution(s, f, j.turn) == NoPart && DiffAgrees(j, f)
    ensures Collected(Step(s, f, lib).state, j, seen)
  {
    NoPartTurn(s, f, j.turn, lib);
  }

  /** One fact, before all three have arrived. */
  lemma JoinStep(s: State, f: Fact, j: Join, seen: Seen, lib: DiffScan.Library)
    requires Collected(s, j, seen) && !seen.All() && DiffAgrees(j, f)
    requires Agrees(j, seen, Contribution(s, f, j.turn))
    ensures var now := seen.With(Contribution(s, f, j.turn)); var r := Step(s, f, lib);
            if now.All() then |TurnEvents(r.events, j.turn)| == 1 && Matches(TurnEvents(r.events, j.turn)[0], j)
            else TurnEvents(r.events, j.turn) == [] && Collected(r.state, j, now)
  {
    var r := Step(s, f, lib);
    match Contribution(s, f, j.turn)
    case NoPart =>
      NoPartNoEvent(s, f, j.turn, lib);
      NoPartKeeps(s, f, j, seen, lib);
    case StartPart(_, _) =>
      EmittedTurnEvents(r.state.turns, j.turn, j.turn, lib);
    case ConfigPart(_) =>
      EmittedTurnEvents(r.state.turns, j.turn, j.turn, lib);
    case DonePart(d) =>
      EmittedTurnEvents(s.turns[j.turn := TurnOf(s, j.turn).(completed := Some(d))], j.turn, j.turn, lib);
  }

  // ---------------------------------------------------------------- whole runs

  function PartAt(facts: seq<Fact>, i: nat, t: string, lib: DiffScan.Library): Part
    requires i < |facts|
  {
    Contribution(StateAfter(facts[..i], lib), facts[i], t)
  }

  /** In the run the three facts of the turn occur once each, at a, b and c, with agreeing values. */
  ghost predicate OnceEach(facts: seq<Fact>, j: Join, a: nat, b: nat, c: nat, lib: DiffScan.Library)
  {
    && a < |facts| && b < |facts| && c < |facts|
    && PartAt(facts, a, j.turn, lib) == StartPart(j.thread, j.images)
    && PartAt(facts, b, j.turn, lib) == ConfigPart(j.config) && j.config.thread == j.thread
      && j.config.images == j.images
    && PartAt(facts, c, j.turn, lib) == DonePart(j.completed)
    && (forall i: nat | i < |facts| && i != a && i != b && i != c :: PartAt(facts, i, j.turn, lib) == NoPart)
    && (forall i: nat | i < |facts| :: DiffAgrees(j, facts[i]))
  }

  function Last(a: nat, b: nat, c: nat): nat
  {
    if a >= b && a >= c then a else if b >= c then b else c
  }

  lemma PrefixState(facts: seq<Fact>, n: nat, lib: DiffScan.Library)
    requires n < |facts|
    ensures StateAfter(facts[..n + 1], lib) == Step(StateAfter(facts[..n], lib), facts[n], lib).state
  {
    assert facts[..n + 1][..n] == facts[..n];
  }

  lemma JoinStepAt(facts: seq<Fact>, n: nat, j: Join, seen: Seen, lib: DiffScan.Library)
    requires n < |facts| && Collected(StateAfter(facts[..n], lib), j, seen) && !seen.All() && DiffAgrees(j, facts[n])
    requires Agrees(j, seen, PartAt(facts, n, j.turn, lib))
    ensures var now := seen.With(PartAt(facts, n, j.turn, lib));
      var events := TurnEvents(EventsAt(facts, n, lib), j.turn);
            if now.All() then |events| == 1 && Matches(events[0], j)
            else events == [] && Collected(StateAfter(facts[..n + 1], lib), j, now)
  {
    PrefixState(facts, n, lib);
    JoinStep(StateAfter(facts[..n], lib), facts[n], j, seen, lib);
  }

  function SeenAt(a: nat, b: nat, c: nat, n: nat): Seen
  {
    Seen(a < n, b < n, c < n)
  }

  lemma PartAgrees(facts: seq<Fact>, j: Join, a: nat, b: nat, c: nat, n: nat, lib: DiffScan.Library)
    requires OnceEach(facts, j, a, b, c, lib) && n < |facts|
    ensures Agrees(j, SeenAt(a, b, c, n), PartAt(facts, n, j.turn, lib)) && DiffAgrees(j, facts[n])
    ensures SeenAt(a, b, c, n).With(PartAt(facts, n, j.turn, lib)) == SeenAt(a, b, c, n + 1)
    ensures n > Last(a, b, c) ==> PartAt(facts, n, j.turn, lib) == NoPart
  {
  }

  lemma {:induction false} CollectedBeforeLast(facts: seq<Fact>, j: Join, a: nat, b: nat, c: nat, n: nat,
      lib: DiffScan.Library)
    requires OnceEach(facts, j, a, b, c, lib) && n <= Last(a, b, c)
    ensures Collected(StateAfter(facts[..n], lib), j, SeenAt(a, b, c, n))
    decreases n
  {
    if n > 0 {
      CollectedBeforeLast(facts, j, a, b, c, n - 1, lib);
      PartAgrees(facts, j, a, b, c, n - 1, lib);
      JoinStepAt(facts, n - 1, j, SeenAt(a, b, c, n - 1), lib);
    }
  }

  /** Exactly one turn event is emitted for the turn, at whichever of the three facts arrives last; in
      every order it carries the same thread, image count, configuration and completion. */
  lemma OneTurnEventAtTheLast(facts: seq<Fact>, j: Join, a: nat, b: nat, c: nat, i: nat, lib: DiffScan.Library)
    requires OnceEach(facts, j, a, b, c, lib) && i < |facts|
    ensures var events := TurnEvents(EventsAt(facts, i, lib), j.turn);
            if i == Last(a, b, c) then |events| == 1 && Matches(events[0], j) else events == []
  {
    PartAgrees(facts, j, a, b, c, i, lib);
    if i <= Last(a, b, c) {
      CollectedBeforeLast(facts, j, a, b, c, i, lib);
      JoinStepAt(facts, i, j, SeenAt(a, b, c, i), lib);
    } else {
      NoPartNoEvent(StateAfter(facts[..i], lib), facts[i], j.turn, lib);
    }
  }

  // ---------------------------------------------------------------- every run

  /** The kinds of parts that came since the turn was last forgotten, which is when a completion made the turn event. */
  function SeenSince(facts: seq<Fact>, n: nat, t: string, lib: DiffScan.Library): Seen
    requires n <= |facts|
  {
    if n == 0 then Seen(false, false, false)
    else
      var part := PartAt(facts, n - 1, t, lib);
      var seen := SeenSince(facts, n - 1, t, lib).With(part);
      if part.DonePart? && seen.All() then Seen(false, false, false) else seen
  }

  /** The state of the turn shows what was seen. */
  predicate Shows(ts: TurnState, seen: Seen)
  {
    && (ts.connection.Some? <==> seen.start) && (ts.resolved.Some? <==> seen.config)
      && (ts.completed.Some? <==> seen.done)
    && (seen.start || seen.config ==> ts.thread.Some? && ts.images.Some?)
  }

  lemma ShowsAll(turn: string, ts: TurnState, seen: Seen)
    requires Shows(ts, seen)
    ensures ts.connection.Some? && Params(turn, ts).Some? <==> seen.All()
  {
  }

  /** What a part does to the turn's state before the event is made. */
  predicate Took(before: TurnState, after: TurnState, p: Part)
  {
    match p
    case NoPart => false
    case StartPart(thread, images) =>
      after == before.(connection := after.connection, thread := Some(thread), images := Some(images))
        && after.connection.Some?
    case ConfigPart(c) => after == before.(thread := Some(c.thread), images := Some(c.images), resolved := Some(c))
    case DonePart(d) => after == before.(completed := Some(d))
  }

  lemma TookShows(before: TurnState, after: TurnState, p: Part, seen: Seen)
    requires Shows(before, seen) && Took(before, after, p)
    ensures Shows(after, seen.With(p))
  {
  }

  /** A part is taken into the turn's state; the events are made from it, and a completion that makes one forgets the
      turn. */
  lemma PartIsTaken(s: State, f: Fact, t: string, lib: DiffScan.Library) returns (after: TurnState)
    requires Contribution(s, f, t) != NoPart
    ensures Took(TurnOf(s, t), after, Contribution(s, f, t))
    ensures var r := Step(s, f, lib); var complete := after.connection.Some? && Params(t, after).Some?;
      && |TurnEvents(r.events, t)| == (if complete then 1 else 0)
      && TurnOf(r.state, t) == if complete && f.TurnCompleted? then NEW_TURN else after
  {
    var r := Step(s, f, lib);
    if f.TurnCompleted? {
      after := TurnOf(s, t).(completed := Some(f.completed));
      EmittedTurnEvents(s.turns[t := after], t, t, lib);
    } else {
      after := TurnOf(r.state, t);
      EmittedTurnEvents(r.state.turns, t, t, lib);
    }
  }

  lemma StepShows(s: State, f: Fact, t: string, seen: Seen, lib: DiffScan.Library)
    requires Shows(TurnOf(s, t), seen)
    ensures var p := Contribution(s, f, t); var now := seen.With(p); var r := Step(s, f, lib);
      && |TurnEvents(r.events, t)| == (if p != NoPart && now.All() then 1 else 0)
      && Shows(TurnOf(r.state, t), if p.DonePart? && now.All() then Seen(false, false, false) else now)
  {
    var p := Contribution(s, f, t);
    if p == NoPart {
      NoPartNoEvent(s, f, t, lib);
      NoPartTurn(s, f, t, lib);
    } else {
      var after := PartIsTaken(s, f, t, lib);
      TookShows(TurnOf(s, t), after, p, seen);
      ShowsAll(t, after, seen.With(p));
    }
  }

  lemma {:induction false} StateShows(facts: seq<Fact>, n: nat, t: string, lib: DiffScan.Library)
    requires n <= |facts|
    ensures Shows(TurnOf(StateAfter(facts[..n], lib), t), SeenSince(facts, n, t, lib))
  {
    if n > 0 {
      StateShows(facts, n - 1, t, lib);
      PrefixState(facts, n - 1, lib);
      StepShows(StateAfter(facts[..n - 1], lib), facts[n - 1], t, SeenSince(facts, n - 1, t, lib), lib);
    }
  }

  /** Over every run, with parts repeated or disagreeing or missing: a fact makes one turn event for the turn if it is
      a part of it and all three kinds have come since the turn was last forgotten, and none otherwise. */
  lemma TurnEventIff(facts: seq<Fact>, i: nat, t: string, lib: DiffScan.Library)
    requires i < |facts|
    ensures var p := PartAt(facts, i, t, lib);
      |TurnEvents(EventsAt(facts, i, lib), t)| == if p != NoPart && SeenSince(facts, i, t, lib).With(p).All() then 1
        else 0
  {
    StateShows(facts, i, t, lib);
    StepShows(StateAfter(facts[..i], lib), facts[i], t, SeenSince(facts, i, t, lib), lib);
  }

  lemma {:induction false} SeenHappened(facts: seq<Fact>, n: nat, t: string, lib: DiffScan.Library)
    requires n <= |facts|
    ensures var seen := SeenSince(facts, n, t, lib);
      && (seen.start ==> exists i: nat :: i < n && PartAt(facts, i, t, lib).StartPart?)
      && (seen.config ==> exists i: nat :: i < n && PartAt(facts, i, t, lib).ConfigPart?)
      && (seen.done ==> exists i: nat :: i < n && PartAt(facts, i, t, lib).DonePart?)
  {
    if n > 0 { SeenHappened(facts, n - 1, t, lib); }
  }

  /** As long as one of the three facts is missing there is no turn event, in every run. */
  lemma NoEventWhileOneIsMissing(facts: seq<Fact>, i: nat, t: string, lib: DiffScan.Library)
    requires i < |facts|
    requires || (forall k: nat | k <= i :: !PartAt(facts, k, t, lib).StartPart?)
             || (forall k: nat | k <= i :: !PartAt(facts, k, t, lib).ConfigPart?)
             || (forall k: nat | k <= i :: !PartAt(facts, k, t, lib).DonePart?)
    ensures TurnEvents(EventsAt(facts, i, lib), t) == []
  {
    TurnEventIff(facts, i, t, lib);
    SeenHappened(facts, i, t, lib);
  }
}
