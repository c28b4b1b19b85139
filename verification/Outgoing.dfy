/** Server requests and their callbacks: `OutgoingMessageSender` as a state machine.

    Between two awaits a coroutine runs alone, so each label is one uninterrupted stretch of code;
    the coroutines of `send_request_to_connections` are interleaved with everything else. */
module Outgoing {
  import opened Wrappers

  /** A request id; the sender only issues integers, clients may answer with anything. */
  datatype RequestId = IntId(n: int) | StrId(s: string)

  type Thread = string
  datatype Request = Request(id: nat, payload: string)
  datatype Entry = Entry(thread: Option<Thread>, request: Request)

  /** The waiter of a request. */
  datatype Future = Waiting | Done(result: string) | Abandoned

  /** Where a request is sent: to everyone or to one connection. */
  datatype Target = Broadcast | ToConnection(connection: string)
  datatype Envelope = Envelope(target: Target, request: Request)

  /** A coroutine of `send_request_to_connections`: id allocated, or registered with puts to go. After a put to a
      connection the request is tracked, which may fail as a put may. */
  datatype Sending =
    | Allocated(thread: Option<Thread>, payload: string, targets: seq<Target>)
    | Registered(request: Request, targets: seq<Target>, tracked: bool)

  /** A coroutine of `replay_requests_to_connection_for_thread` and the requests it has still to put. */
  datatype Replay = Replay(connection: string, left: seq<Request>)

  datatype State = State(
    next: nat,
    callbacks: map<RequestId, Entry>,
    futures: map<nat, Future>,
    queue: seq<Envelope>,
    sending: map<nat, Sending>,
    replays: seq<Replay>)

  const INITIAL: State := State(0, map[], map[], [], map[], [])

  /** Request ids are 64-bit integers. */
  const ID_LIMIT: nat := 0x8000_0000_0000_0000

  datatype Label =
    | Allocate(thread: Option<Thread>, payload: string, targets: seq<Target>)
    | Register(id: nat)
    | Put(id: nat)
    | PutFailed(id: nat)
    | Response(rid: RequestId, result: string)
    | ClientError(rid: RequestId, error: string)
    | CancelRequest(rid: RequestId)
    | CancelAll(reason: Option<string>)
    | CancelThread(thr: Option<Thread>, reason: Option<string>)
    | AbandonFuture(id: nat)
    | BeginReplay(connection: string, thr: Option<Thread>)
    | ReplayPut(k: nat)

  // ---------------------------------------------------------------- one step

  /** Whether the stretch of code can run: only a coroutine that has got that far can go on. */
  predicate Enabled(s: State, l: Label)
  {
    match l
    case Allocate(_, _, _) => s.next < ID_LIMIT
    case Register(id) => id in s.sending && s.sending[id].Allocated?
    case Put(id) => id in s.sending && s.sending[id].Registered? && s.sending[id].targets != []
    case PutFailed(id) =>
      id in s.sending && s.sending[id].Registered? && (s.sending[id].targets != [] || s.sending[id].tracked)
    case AbandonFuture(id) => id in s.futures
    case ReplayPut(k) => k < |s.replays| && s.replays[k].left != []
    case _ => true
  }

  /** `_safe_set_result` */
  function Settle(f: Future, result: string): Future
  {
    if f == Waiting then Done(result) else f
  }

  /** Taking one callback and settling its waiter. */
  function Complete(s: State, rid: RequestId, result: Option<string>): State
  {
    if rid in s.callbacks then
      var id := s.callbacks[rid].request.id;
      s.(callbacks := s.callbacks - {rid},
         futures := if result.Some? && id in s.futures then s.futures[id := Settle(s.futures[id], result.value)]
           else s.futures)
    else s
  }

  /** Settling the waiters of all entries that were taken. */
  function SettleAll(futures: map<nat, Future>, taken: map<RequestId, Entry>, reason: Option<string>): map<nat, Future>
  {
    map id | id in futures :: if reason.Some? && IntId(id) in taken then Settle(futures[id], reason.value)
      else futures[id]
  }

  function EntriesOf(callbacks: map<RequestId, Entry>, thread: Option<Thread>): map<RequestId, Entry>
  {
    map rid | rid in callbacks && callbacks[rid].thread == thread :: callbacks[rid]
  }

  function Step(s: State, l: Label): State
    requires Enabled(s, l)
  {
    match l
    case Allocate(thread, payload, targets) =>
      s.(next := s.next + 1,
         futures := s.futures[s.next := Waiting],
         sending := s.sending[s.next := Allocated(thread, payload, targets)])
    case Register(id) =>
      var c := s.sending[id];
      var request := Request(id, c.payload);
      s.(callbacks := s.callbacks[IntId(id) := Entry(c.thread, request)],
         sending := s.sending[id := Registered(request, c.targets, false)])
    case Put(id) =>
      var c := s.sending[id];
      s.(queue := s.queue + [Envelope(c.targets[0], c.request)],
         sending := s.sending[id := Registered(c.request, c.targets[1..], c.targets[0].ToConnection?)])
    case PutFailed(id) =>
      s.(callbacks := s.callbacks - {IntId(id)},
         sending := s.sending[id := Registered(s.sending[id].request, [], false)])
    case Response(rid, result) => Complete(s, rid, Some(result))
    case ClientError(rid, error) => Complete(s, rid, Some(error))
    case CancelRequest(rid) => Complete(s, rid, None)
    case CancelAll(reason) =>
      s.(callbacks := map[], futures := SettleAll(s.futures, s.callbacks, reason))
    case CancelThread(thread, reason) =>
      var taken := EntriesOf(s.callbacks, thread);
      s.(callbacks := s.callbacks - taken.Keys, futures := SettleAll(s.futures, taken, reason))
    case AbandonFuture(id) =>
      s.(futures := s.futures[id := if s.futures[id] == Waiting then Abandoned else s.futures[id]])
    case BeginReplay(connection, thread) =>
      s.(replays := s.replays + [Replay(connection, InIssueOrder(s.callbacks, thread, s.next))])
    case ReplayPut(k) =>
      var r := s.replays[k];
      s.(queue := s.queue + [Envelope(ToConnection(r.connection), r.left[0])],
         replays := s.replays[k := Replay(r.connection, r.left[1..])])
  }

  predicate OfThread(callbacks: map<RequestId, Entry>, thread: Option<Thread>, id: nat)
  {
    IntId(id) in callbacks && callbacks[IntId(id)].thread == thread
  }

  /** The pending requests of a thread with ids below n, in issue order. */
  function InIssueOrder(callbacks: map<RequestId, Entry>, thread: Option<Thread>, n: nat): seq<Request>
  {
    if n == 0 then []
    else InIssueOrder(callbacks, thread, n - 1) + (if OfThread(callbacks, thread, n - 1)
      then [callbacks[IntId(n - 1)].request] else [])
  }

  /** A run: every label is enabled where it occurs. */
  predicate Run(labels: seq<Label>)
    decreases |labels|, 0
  {
    labels == [] || (Run(labels[..|labels| - 1]) && Enabled(StateAfter(labels[..|labels| - 1]), labels[|labels| - 1]))
  }

  function StateAfter(labels: seq<Label>): State
    requires Run(labels)
    decreases |labels|, 1
  {
    if labels == [] then INITIAL
    else
      var before := labels[..|labels| - 1];
      Step(StateAfter(before), labels[|labels| - 1])
  }

  // ---------------------------------------------------------------- invariant

  ghost predicate Inv(s: State)
  {
    && (forall id: nat :: id in s.futures <==> id < s.next)
    && (forall id: nat :: id in s.sending <==> id < s.next)
    && (forall rid :: rid in s.callbacks ==> EntryOk(s, rid))
    && (forall id: nat :: id in s.sending && s.sending[id].Registered? ==> s.sending[id].request.id == id)
    && (forall id: nat :: id in s.sending && s.sending[id].Allocated? && id in s.futures ==> !s.futures[id].Done?)
    && (forall i :: 0 <= i < |s.queue| ==> EnvelopeOk(s, s.queue[i].request))
    && (forall k, i :: 0 <= k < |s.replays| && 0 <= i < |s.replays[k].left| ==> EnvelopeOk(s, s.replays[k].left[i]))
  }

  /** A pending callback belongs to a registered send and its waiter has no result yet. */
  ghost predicate EntryOk(s: State, rid: RequestId)
    requires rid in s.callbacks
  {
    && rid == IntId(s.callbacks[rid].request.id)
    && s.callbacks[rid].request.id in s.sending
    && s.sending[s.callbacks[rid].request.id].Registered?
    && s.callbacks[rid].request.id in s.futures
    && !s.futures[s.callbacks[rid].request.id].Done?
  }

  /** Only requests whose callback was registered are in the queue or about to be replayed. */
  ghost predicate EnvelopeOk(s: State, r: Request)
  {
    r.id in s.sending && s.sending[r.id].Registered?
  }

  lemma StepKeepsEntries(s: State, l: Label)
    requires Inv(s) && Enabled(s, l)
    ensures forall rid :: rid in Step(s, l).callbacks ==> EntryOk(Step(s, l), rid)
  {
    var t := Step(s, l);
    forall rid | rid in t.callbacks ensures EntryOk(t, rid) {
      if rid in s.callbacks { assert EntryOk(s, rid); }
      match l
      case Response(r, _) => if r in s.callbacks { assert EntryOk(s, r); }
      case ClientError(r, _) => if r in s.callbacks { assert EntryOk(s, r); }
      case CancelThread(_, _) => assert IntId(t.callbacks[rid].request.id) == rid;
      case _ =>
    }
  }

  lemma StepKeepsWaiters(s: State, l: Label, id: nat)
    requires Inv(s) && Enabled(s, l)
    ensures var t := Step(s, l); id in t.sending && t.sending[id].Allocated? && id in t.futures ==> !t.futures[id].Done?
  {
    assert IntId(id) in s.callbacks ==> EntryOk(s, IntId(id));
    match l
    case Response(r, _) => if r in s.callbacks { assert EntryOk(s, r); }
    case ClientError(r, _) => if r in s.callbacks { assert EntryOk(s, r); }
    case _ =>
  }

  lemma StepKeepsInv(s: State, l: Label)
    requires Inv(s) && Enabled(s, l)
    ensures Inv(Step(s, l))
  {
    var t := Step(s, l);
    StepKeepsEntries(s, l);
    forall id: nat | id in t.sending && t.sending[id].Allocated? && id in t.futures ensures !t.futures[id].Done? {
      StepKeepsWaiters(s, l, id);
    }
    forall i | 0 <= i < |t.queue| ensures EnvelopeOk(t, t.queue[i].request) {
      StepKeepsQueue(s, l, i);
    }
    forall k, i | 0 <= k < |t.replays| && 0 <= i < |t.replays[k].left| ensures EnvelopeOk(t, t.replays[k].left[i]) {
      StepKeepsReplays(s, l, k, i);
    }
  }

  lemma StepKeepsRegistered(s: State, l: Label, r: Request)
    requires Enabled(s, l) && Inv(s) && EnvelopeOk(s, r)
    ensures EnvelopeOk(Step(s, l), r)
  {
  }

  lemma StepKeepsQueue(s: State, l: Label, i: nat)
    requires Inv(s) && Enabled(s, l) && i < |Step(s, l).queue|
    ensures EnvelopeOk(Step(s, l), Step(s, l).queue[i].request)
  {
    var r := Step(s, l).queue[i].request;
    if l.Put? && i == |s.queue| {
      assert s.sending[l.id].request.id == l.id;
    } else if l.ReplayPut? && i == |s.queue| {
      assert r == s.replays[l.k].left[0];
      StepKeepsRegistered(s, l, r);
    } else {
      assert EnvelopeOk(s, s.queue[i].request);
      StepKeepsRegistered(s, l, r);
    }
  }

  lemma StepKeepsReplays(s: State, l: Label, k: nat, i: nat)
    requires Inv(s) && Enabled(s, l) && k < |Step(s, l).replays| && i < |Step(s, l).replays[k].left|
    ensures EnvelopeOk(Step(s, l), Step(s, l).replays[k].left[i])
  {
    var r := Step(s, l).replays[k].left[i];
    if l.BeginReplay? && k == |s.replays| {
      SnapshotOk(s, l.thr, s.next);
    } else if l.ReplayPut? && l.k == k {
      assert r == s.replays[k].left[i + 1];
    } else {
      assert r == s.replays[k].left[i];
    }
    StepKeepsRegistered(s, l, r);
  }

  lemma {:induction false} SnapshotOk(s: State, thread: Option<Thread>, n: nat)
    requires Inv(s)
    ensures forall i :: 0 <= i < |InIssueOrder(s.callbacks, thread, n)|
             ==> EnvelopeOk(s, InIssueOrder(s.callbacks, thread, n)[i])
  {
    if n > 0 {
      SnapshotOk(s, thread, n - 1);
      assert IntId(n - 1) in s.callbacks ==> EntryOk(s, IntId(n - 1));
    }
  }

  lemma {:induction false} RunKeepsInv(labels: seq<Label>)
    requires Run(labels)
    ensures Inv(StateAfter(labels))
    decreases |labels|
  {
    if labels != [] {
      RunKeepsInv(labels[..|labels| - 1]);
      StepKeepsInv(StateAfter(labels[..|labels| - 1]), labels[|labels| - 1]);
    }
  }

  // ---------------------------------------------------------------- fresh ids, no overwriting

  lemma {:induction false} Prefix(labels: seq<Label>, n: nat)
    requires Run(labels) && n <= |labels|
    ensures Run(labels[..n])
    ensures n < |labels| ==>
      Enabled(StateAfter(labels[..n]), labels[n]) && Run(labels[..n + 1])
      && StateAfter(labels[..n + 1]) == Step(StateAfter(labels[..n]), labels[n])
    decreases |labels|
  {
    if n == |labels| {
      assert labels[..n] == labels;
    } else {
      var before := labels[..|labels| - 1];
      if n < |labels| - 1 {
        Prefix(before, n);
        assert before[..n] == labels[..n] && before[..n + 1] == labels[..n + 1];
      } else {
        assert labels[..n + 1] == labels;
      }
    }
  }

  lemma StepGrows(s: State, l: Label)
    requires Enabled(s, l)
    ensures s.next <= Step(s, l).next
  {
  }

  lemma NextStep(labels: seq<Label>, n: nat)
    requires Run(labels) && n < |labels|
    ensures Run(labels[..n]) && Run(labels[..n + 1]) && StateAfter(labels[..n]).next <= StateAfter(labels[..n + 1]).next
  {
    Prefix(labels, n);
    StepGrows(StateAfter(labels[..n]), labels[n]);
  }

  lemma {:induction false} NextGrows(labels: seq<Label>, i: nat, j: nat)
    requires Run(labels) && i <= j <= |labels|
    ensures Run(labels[..i]) && Run(labels[..j])
    ensures StateAfter(labels[..i]).next <= StateAfter(labels[..j]).next
    decreases j
  {
    Prefix(labels, i);
    if i < j {
      NextGrows(labels, i, j - 1);
      NextStep(labels, j - 1);
    }
  }

  /** No id is issued twice in a run. */
  lemma IdsAreFresh(labels: seq<Label>, i: nat, j: nat)
    requires Run(labels) && i < j < |labels| && labels[i].Allocate? && labels[j].Allocate?
    ensures Run(labels[..i]) && Run(labels[..j])
    ensures StateAfter(labels[..i]).next < StateAfter(labels[..j]).next
  {
    Prefix(labels, i);
    NextGrows(labels, i + 1, j);
  }

  /** Registering a callback never replaces a pending one. */
  lemma RegistrationNeverOverwrites(labels: seq<Label>, id: nat)
    requires Run(labels) && Enabled(StateAfter(labels), Register(id))
    ensures IntId(id) !in StateAfter(labels).callbacks
  {
    RunKeepsInv(labels);
    var s := StateAfter(labels);
    assert IntId(id) in s.callbacks ==> EntryOk(s, IntId(id));
  }

  // ---------------------------------------------------------------- one completer per callback

  /** The ids whose callbacks the step removes. */
  predicate Takes(s: State, l: Label, id: nat)
    requires Enabled(s, l)
  {
    IntId(id) in s.callbacks && IntId(id) !in Step(s, l).callbacks
  }

  /** The callback was registered and is no longer pending. */
  predicate Gone(s: State, id: nat)
  {
    id in s.sending && s.sending[id].Registered? && IntId(id) !in s.callbacks
  }

  lemma GoneStep(s: State, l: Label, id: nat)
    requires Inv(s) && Enabled(s, l) && Gone(s, id)
    ensures Gone(Step(s, l), id)
  {
  }

  lemma GoneNext(labels: seq<Label>, id: nat, n: nat)
    requires Run(labels) && n < |labels| && Run(labels[..n]) && Gone(StateAfter(labels[..n]), id)
    ensures Run(labels[..n + 1]) && Gone(StateAfter(labels[..n + 1]), id)
  {
    Prefix(labels, n);
    RunKeepsInv(labels[..n]);
    GoneStep(StateAfter(labels[..n]), labels[n], id);
  }

  lemma {:induction false} GoneForGood(labels: seq<Label>, id: nat, i: nat, j: nat)
    requires Run(labels) && i <= j <= |labels| && Run(labels[..i]) && Gone(StateAfter(labels[..i]), id)
    ensures Run(labels[..j]) && Gone(StateAfter(labels[..j]), id)
    decreases j - i
  {
    if i < j {
      GoneNext(labels, id, i);
      GoneForGood(labels, id, i + 1, j);
    }
  }

  lemma TakenIsGone(s: State, l: Label, id: nat)
    requires Inv(s) && Enabled(s, l) && Takes(s, l, id)
    ensures Gone(Step(s, l), id)
  {
    assert EntryOk(s, IntId(id));
  }

  /** Under every interleaving a callback is taken by at most one completer. */
  lemma TakenOnce(labels: seq<Label>, id: nat, i: nat, j: nat)
    requires Run(labels) && i < j < |labels|
    requires Run(labels[..i]) && Enabled(StateAfter(labels[..i]), labels[i])
      && Takes(StateAfter(labels[..i]), labels[i], id)
    ensures Run(labels[..j]) && Enabled(StateAfter(labels[..j]), labels[j])
      && !Takes(StateAfter(labels[..j]), labels[j], id)
  {
    Prefix(labels, i);
    Prefix(labels, i + 1);
    var s := StateAfter(labels[..i]);
    RunKeepsInv(labels[..i]);
    TakenIsGone(s, labels[i], id);
    GoneForGood(labels, id, i + 1, j);
    Prefix(labels, j);
  }

  // ---------------------------------------------------------------- pending means unanswered

  /** The requests in issue order. */
  function Issued(labels: seq<Label>): seq<Label>
  {
    if labels == [] then []
    else Issued(labels[..|labels| - 1]) + (if labels[|labels| - 1].Allocate? then [labels[|labels| - 1]] else [])
  }

  lemma {:induction false} IssuedMatches(labels: seq<Label>)
    requires Run(labels)
    ensures var s := StateAfter(labels); var issued := Issued(labels);
            && |issued| == s.next && (forall id: nat :: id in s.sending <==> id < s.next)
            && (forall id: nat | id < s.next :: issued[id].Allocate? && SendingMatches(s, id, issued[id]))
    decreases |labels|
  {
    if labels != [] {
      var before, l := labels[..|labels| - 1], labels[|labels| - 1];
      var s := StateAfter(before);
      IssuedMatches(before);
      RunKeepsInv(before);
      StepKeepsInv(s, l);
      forall id: nat | id < Step(s, l).next ensures Issued(labels)[id].Allocate?
        && SendingMatches(Step(s, l), id, Issued(labels)[id]) {
        if id < s.next {
          MatchesStep(s, l, id, Issued(before)[id]);
        } else {
          MatchesNew(s, l);
        }
      }
    }
  }

  lemma MatchesStep(s: State, l: Label, id: nat, a: Label)
    requires Inv(s) && Enabled(s, l) && id < s.next && a.Allocate? && SendingMatches(s, id, a)
    ensures id in Step(s, l).sending && SendingMatches(Step(s, l), id, a)
  {
  }

  lemma MatchesNew(s: State, l: Label)
    requires Inv(s) && Enabled(s, l) && l.Allocate?
    ensures SendingMatches(Step(s, l), s.next, l)
  {
    assert IntId(s.next) in s.callbacks ==> EntryOk(s, IntId(s.next));
  }

  /** What the machine still knows about a request is what it was issued with. */
  predicate SendingMatches(s: State, id: nat, l: Label)
    requires id in s.sending && l.Allocate?
  {
    && (s.sending[id].Allocated? ==> s.sending[id].thread == l.thread && s.sending[id].payload == l.payload)
    && (s.sending[id].Registered? ==> s.sending[id].request == Request(id, l.payload))
    && (IntId(id) in s.callbacks ==> s.callbacks[IntId(id)] == Entry(l.thread, Request(id, l.payload)))
  }

  /** The label answers, cancels or withdraws the request with this id and thread. */
  predicate Completes(l: Label, id: nat, thread: Option<Thread>)
  {
    match l
    case Response(rid, _) => rid == IntId(id)
    case ClientError(rid, _) => rid == IntId(id)
    case CancelRequest(rid) => rid == IntId(id)
    case CancelAll(_) => true
    case CancelThread(thr, _) => thread == thr
    case PutFailed(i) => i == id
    case _ => false
  }

  /** In the history: registered, and nothing completed it afterwards. */
  ghost predicate Unanswered(labels: seq<Label>, id: nat, thread: Option<Thread>)
  {
    exists i :: 0 <= i < |labels| && UnansweredSince(labels, id, thread, i)
  }

  ghost predicate UnansweredSince(labels: seq<Label>, id: nat, thread: Option<Thread>, i: int)
    requires 0 <= i < |labels|
  {
    labels[i] == Register(id) && forall j | i < j < |labels| :: !Completes(labels[j], id, thread)
  }

  lemma UnansweredStep(labels: seq<Label>, id: nat, thread: Option<Thread>)
    requires labels != []
    ensures var before, l := labels[..|labels| - 1], labels[|labels| - 1];
            Unanswered(labels, id, thread) <==>
              l == Register(id)
              || (Unanswered(before, id, thread) && !Completes(l, id, thread))
  {
    var before, l := labels[..|labels| - 1], labels[|labels| - 1];
    if Unanswered(labels, id, thread) {
      var i :| 0 <= i < |labels| && UnansweredSince(labels, id, thread, i);
      if i < |before| { assert UnansweredSince(before, id, thread, i); }
    }
    if l == Register(id) {
      assert UnansweredSince(labels, id, thread, |labels| - 1);
    } else if Unanswered(before, id, thread) && !Completes(l, id, thread) {
      var i :| 0 <= i < |before| && UnansweredSince(before, id, thread, i);
      forall j | i < j < |labels| ensures !Completes(labels[j], id, thread) {
        if j < |before| { assert labels[j] == before[j]; }
      }
      assert UnansweredSince(labels, id, thread, i);
    }
  }

  /** A callback is pending exactly if the history shows its request registered and unanswered. */
  lemma {:induction false} PendingIffUnanswered(labels: seq<Label>, id: nat)
    requires Run(labels) && id < StateAfter(labels).next
    ensures id < |Issued(labels)| && Issued(labels)[id].Allocate?
    ensures IntId(id) in StateAfter(labels).callbacks <==> Unanswered(labels, id, Issued(labels)[id].thread)
    decreases |labels|
  {
    IssuedMatches(labels);
    if labels != [] {
      var before, l := labels[..|labels| - 1], labels[|labels| - 1];
      var s := StateAfter(before);
      var thread := Issued(labels)[id].thread;
      RunKeepsInv(before);
      IssuedMatches(before);
      UnansweredStep(labels, id, thread);
      if id < s.next {
        PendingIffUnanswered(before, id);
        assert Issued(before)[id] == Issued(labels)[id];
        StepOnEntry(s, l, id, thread);
      } else {
        NeverRegistered(before, id, thread);
        assert IntId(id) in s.callbacks ==> EntryOk(s, IntId(id));
      }
    }
  }

  lemma StepOnEntry(s: State, l: Label, id: nat, thread: Option<Thread>)
    requires Inv(s) && Enabled(s, l) && id < s.next
    requires IntId(id) in s.callbacks ==> s.callbacks[IntId(id)].thread == thread
    ensures IntId(id) in Step(s, l).callbacks <==>
      l == Register(id)
      || (IntId(id) in s.callbacks && !Completes(l, id, thread))
  {
  }

  lemma {:induction false} NeverRegistered(labels: seq<Label>, id: nat, thread: Option<Thread>)
    requires Run(labels) && id >= StateAfter(labels).next
    ensures !Unanswered(labels, id, thread)
  {
    if Unanswered(labels, id, thread) {
      var i :| 0 <= i < |labels| && UnansweredSince(labels, id, thread, i);
      Prefix(labels, i);
      RunKeepsInv(labels[..i]);
      assert labels[..|labels|] == labels;
      NextGrows(labels, i, |labels|);
    }
  }

  // ---------------------------------------------------------------- what a waiter receives

  /** The label hands this result to the waiter of the request. */
  predicate Delivers(l: Label, id: nat, thread: Option<Thread>, result: string)
  {
    match l
    case Response(rid, r) => rid == IntId(id) && r == result
    case ClientError(rid, e) => rid == IntId(id) && e == result
    case CancelAll(reason) => reason == Some(result)
    case CancelThread(thr, reason) => thread == thr && reason == Some(result)
    case _ => false
  }

  /** In the history: at n the request is unanswered, its waiter was not abandoned, and the label delivers. */
  ghost predicate DeliveredAt(labels: seq<Label>, id: nat, thread: Option<Thread>, result: string, n: nat)
    requires n < |labels|
  {
    Unanswered(labels[..n], id, thread) && AbandonFuture(id) !in labels[..n] && Delivers(labels[n], id, thread, result)
  }

  ghost predicate Delivered(labels: seq<Label>, id: nat, thread: Option<Thread>, result: string)
  {
    exists n: nat | n < |labels| :: DeliveredAt(labels, id, thread, result, n)
  }

  lemma DeliveredStep(labels: seq<Label>, id: nat, thread: Option<Thread>, result: string)
    requires labels != []
    ensures var m := |labels| - 1;
            Delivered(labels, id, thread, result) <==>
              Delivered(labels[..m], id, thread, result)
              || DeliveredAt(labels, id, thread, result, m)
  {
    var before := labels[..|labels| - 1];
    forall n: nat | n < |before| ensures DeliveredAt(labels, id, thread, result, n)
      <==> DeliveredAt(before, id, thread, result, n) {
      assert before[..n] == labels[..n];
    }
    if Delivered(before, id, thread, result) {
      var n: nat :| n < |before| && DeliveredAt(before, id, thread, result, n);
      assert DeliveredAt(labels, id, thread, result, n);
    }
  }

  /** How one step changes one waiter. */
  lemma StepOnFuture(s: State, l: Label, id: nat, thread: Option<Thread>, result: string)
    requires Inv(s) && Enabled(s, l) && id < s.next
    requires IntId(id) in s.callbacks ==> s.callbacks[IntId(id)].thread == thread
    ensures id in Step(s, l).futures
    ensures Step(s, l).futures[id] == Done(result) <==>
      s.futures[id] == Done(result)
      || (s.futures[id] == Waiting && IntId(id) in s.callbacks && Delivers(l, id, thread, result))
    ensures Step(s, l).futures[id] == Abandoned <==>
      s.futures[id] == Abandoned || (s.futures[id] == Waiting && l == AbandonFuture(id))
  {
    assert IntId(id) in s.callbacks ==> EntryOk(s, IntId(id));
    match l
    case Response(r, _) => if r in s.callbacks { assert EntryOk(s, r); }
    case ClientError(r, _) => if r in s.callbacks { assert EntryOk(s, r); }
    case _ =>
  }

  lemma {:induction false} AbandonedMeans(labels: seq<Label>, id: nat)
    requires Run(labels) && id < StateAfter(labels).next
    ensures id in StateAfter(labels).futures
    ensures StateAfter(labels).futures[id] == Abandoned ==> AbandonFuture(id) in labels
    ensures AbandonFuture(id) in labels ==> StateAfter(labels).futures[id] != Waiting
    decreases |labels|
  {
    RunKeepsInv(labels);
    if labels != [] {
      var before, l := labels[..|labels| - 1], labels[|labels| - 1];
      var s := StateAfter(before);
      RunKeepsInv(before);
      assert labels == before + [l];
      if id < s.next {
        AbandonedMeans(before, id);
        AbandonStep(s, l, id);
      } else {
        NotYetAbandoned(before, id);
      }
    }
  }

  lemma AbandonStep(s: State, l: Label, id: nat)
    requires Inv(s) && Enabled(s, l) && id < s.next && id in s.futures
    ensures id in Step(s, l).futures
    ensures Step(s, l).futures[id] == Abandoned ==> s.futures[id] == Abandoned || l == AbandonFuture(id)
    ensures s.futures[id] != Waiting || l == AbandonFuture(id) ==> Step(s, l).futures[id] != Waiting
  {
  }

  lemma {:induction false} NotYetAbandoned(labels: seq<Label>, id: nat)
    requires Run(labels) && id >= StateAfter(labels).next
    ensures AbandonFuture(id) !in labels
  {
    if AbandonFuture(id) in labels {
      var i :| 0 <= i < |labels| && labels[i] == AbandonFuture(id);
      Prefix(labels, i);
      RunKeepsInv(labels[..i]);
      assert labels[..|labels|] == labels;
      NextGrows(labels, i, |labels|);
    }
  }

  lemma NothingDelivered(labels: seq<Label>, id: nat, thread: Option<Thread>, result: string)
    requires Run(labels) && id >= StateAfter(labels).next
    ensures !Delivered(labels, id, thread, result)
  {
    if Delivered(labels, id, thread, result) {
      var n: nat :| n < |labels| && DeliveredAt(labels, id, thread, result, n);
      Prefix(labels, n);
      assert labels[..|labels|] == labels;
      NextGrows(labels, n, |labels|);
      NeverRegistered(labels[..n], id, thread);
    }
  }

  /** A waiter holds a result exactly if the history delivered that result to it while the request was
      unanswered; so no second completer ever changes it. */
  lemma {:induction false} ResultIffDelivered(labels: seq<Label>, id: nat, result: string)
    requires Run(labels) && id < StateAfter(labels).next
    ensures id < |Issued(labels)| && Issued(labels)[id].Allocate? && id in StateAfter(labels).futures
    ensures StateAfter(labels).futures[id] == Done(result) <==> Delivered(labels, id, Issued(labels)[id].thread, result)
    decreases |labels|
  {
    IssuedMatches(labels);
    RunKeepsInv(labels);
    if labels != [] {
      var before, l := labels[..|labels| - 1], labels[|labels| - 1];
      var s := StateAfter(before);
      var thread := Issued(labels)[id].thread;
      RunKeepsInv(before);
      IssuedMatches(before);
      DeliveredStep(labels, id, thread, result);
      if id < s.next {
        assert Issued(before)[id] == Issued(labels)[id];
        ResultIffDelivered(before, id, result);
        PendingIffUnanswered(before, id);
        AbandonedMeans(before, id);
        StepOnFuture(s, l, id, thread, result);
        assert IntId(id) in s.callbacks ==> EntryOk(s, IntId(id));
      } else {
        NothingDelivered(before, id, thread, result);
        NeverRegistered(before, id, thread);
      }
    }
  }

  // ---------------------------------------------------------------- thread cancel and replay

  /** In the history: the owner cancelled the waiter before any result was delivered to it. */
  ghost predicate AbandonedFirst(labels: seq<Label>, id: nat, thread: Option<Thread>)
  {
    exists n: nat | n < |labels| :: AbandonedAt(labels, id, thread, n)
  }

  ghost predicate AbandonedAt(labels: seq<Label>, id: nat, thread: Option<Thread>, n: nat)
    requires n < |labels|
  {
    labels[n] == AbandonFuture(id) && forall result :: !Delivered(labels[..n], id, thread, result)
  }

  lemma AbandonedFirstStep(labels: seq<Label>, id: nat, thread: Option<Thread>)
    requires labels != []
    ensures var m := |labels| - 1;
      AbandonedFirst(labels, id, thread) <==>
        AbandonedFirst(labels[..m], id, thread)
        || AbandonedAt(labels, id, thread, m)
  {
    var before := labels[..|labels| - 1];
    forall n: nat | n < |before| ensures AbandonedAt(labels, id, thread, n) <==> AbandonedAt(before, id, thread, n) {
      assert before[..n] == labels[..n];
    }
    if AbandonedFirst(before, id, thread) {
      var n: nat :| n < |before| && AbandonedAt(before, id, thread, n);
      assert AbandonedAt(labels, id, thread, n);
    }
  }

  /** A waiter is abandoned exactly if its owner cancelled it before any result was delivered; it is never given one
      afterwards. */
  lemma {:induction false} AbandonedIff(labels: seq<Label>, id: nat)
    requires Run(labels) && id < StateAfter(labels).next
    ensures id < |Issued(labels)| && Issued(labels)[id].Allocate? && id in StateAfter(labels).futures
    ensures StateAfter(labels).futures[id] == Abandoned <==> AbandonedFirst(labels, id, Issued(labels)[id].thread)
    decreases |labels|
  {
    IssuedMatches(labels);
    RunKeepsInv(labels);
    if labels != [] {
      var before, l := labels[..|labels| - 1], labels[|labels| - 1];
      var s, thread := StateAfter(before), Issued(labels)[id].thread;
      RunKeepsInv(before);
      IssuedMatches(before);
      AbandonedFirstStep(labels, id, thread);
      if id < s.next {
        assert Issued(before)[id] == Issued(labels)[id];
        AbandonedIff(before, id);
        forall result ensures s.futures[id] == Done(result) <==> Delivered(before, id, thread, result) {
          ResultIffDelivered(before, id, result);
        }
        WaitingOrNot(s.futures[id]);
        PendingIffUnanswered(before, id);
        StepOnFuture(s, l, id, thread, "");
      } else {
        NotYetAbandoned(before, id);
        NobodyAbandons(before, id, thread);
      }
    }
  }

  lemma WaitingOrNot(f: Future)
    ensures f == Waiting <==> f != Abandoned && forall result :: f != Done(result)
  {
    if f.Done? { assert f == Done(f.result); }
  }

  lemma NobodyAbandons(labels: seq<Label>, id: nat, thread: Option<Thread>)
    requires AbandonFuture(id) !in labels
    ensures !AbandonedFirst(labels, id, thread)
  {
  }

  /** Thread cancel, by the history: of the requests issued, exactly those of other threads that were pending stay
      pending, and exactly the waiters of the taken ones that still wait are given the reason. */
  lemma CancelThreadIsExact(labels: seq<Label>, thread: Option<Thread>, reason: Option<string>, id: nat)
    requires Run(labels) && id < StateAfter(labels).next
    ensures id < |Issued(labels)| && Issued(labels)[id].Allocate? && id in StateAfter(labels).futures
    ensures var s, of := StateAfter(labels), Issued(labels)[id].thread;
      var t, pending := Step(s, CancelThread(thread, reason)), Unanswered(labels, id, of);
      && (IntId(id) in t.callbacks <==> pending && of != thread)
      && id in t.futures
      && t.futures[id] ==
        if pending && of == thread && s.futures[id] == Waiting && reason.Some? then Done(reason.value)
          else s.futures[id]
  {
    IssuedMatches(labels);
    RunKeepsInv(labels);
    PendingIffUnanswered(labels, id);
    var s := StateAfter(labels);
    assert IntId(id) in s.callbacks ==> EntryOk(s, IntId(id));
    assert SendingMatches(s, id, Issued(labels)[id]);
  }

  /** Issue order is the order of the Allocate labels: the unanswered ones of the thread, as issued. */
  function UnansweredInOrder(labels: seq<Label>, thread: Option<Thread>, n: nat): seq<Request>
    requires n <= |Issued(labels)| && forall i | 0 <= i < n :: Issued(labels)[i].Allocate?
  {
    if n == 0 then []
    else
      var a := Issued(labels)[n - 1];
      UnansweredInOrder(labels, thread, n - 1)
      + (if a.thread == thread && UnansweredNow(labels, n - 1, thread) then [Request(n - 1, a.payload)] else [])
  }

  /** A decidable form of Unanswered, scanning the history from its end. */
  predicate UnansweredNow(labels: seq<Label>, id: nat, thread: Option<Thread>)
  {
    labels != [] &&
    var l := labels[|labels| - 1];
    (l == Register(id) || (!Completes(l, id, thread) && UnansweredNow(labels[..|labels| - 1], id, thread)))
  }

  lemma {:induction false} UnansweredNowIff(labels: seq<Label>, id: nat, thread: Option<Thread>)
    ensures UnansweredNow(labels, id, thread) <==> Unanswered(labels, id, thread)
    decreases |labels|
  {
    if labels != [] {
      UnansweredStep(labels, id, thread);
      UnansweredNowIff(labels[..|labels| - 1], id, thread);
    }
  }

  /** Replay yields exactly the thread's unanswered requests, in issue order. */
  lemma {:induction false} ReplayIsUnanswered(labels: seq<Label>, thread: Option<Thread>, n: nat)
    requires Run(labels) && n <= StateAfter(labels).next
    ensures n <= |Issued(labels)| && forall i | 0 <= i < n :: Issued(labels)[i].Allocate?
    ensures InIssueOrder(StateAfter(labels).callbacks, thread, n) == UnansweredInOrder(labels, thread, n)
    decreases n
  {
    IssuedMatches(labels);
    if n > 0 {
      ReplayIsUnanswered(labels, thread, n - 1);
      PendingIffUnanswered(labels, n - 1);
      UnansweredNowIff(labels, n - 1, thread);
      assert SendingMatches(StateAfter(labels), n - 1, Issued(labels)[n - 1]);
    }
  }

  /** How often the k-th replay has put a request between the labels b and n. */
  function PutsBetween(labels: seq<Label>, k: nat, b: nat, n: nat): nat
    requires n <= |labels|
  {
    if n <= b + 1 then 0 else PutsBetween(labels, k, b, n - 1) + (if labels[n - 1] == ReplayPut(k) then 1 else 0)
  }

  /** The requests of the thread that are unanswered after the first b labels. */
  function Snapshot(labels: seq<Label>, b: nat, thread: Option<Thread>): (r: seq<Request>)
    requires Run(labels) && b <= |labels|
  {
    Prefix(labels, b);
    var s := StateAfter(labels[..b]);
    ReplayIsUnanswered(labels[..b], thread, s.next);
    UnansweredInOrder(labels[..b], thread, s.next)
  }

  /** What a replay has still to put. */
  predicate ReplayStands(s: State, k: nat, connection: string, snapshot: seq<Request>, puts: nat)
  {
    k < |s.replays| && puts <= |snapshot| && s.replays[k] == Replay(connection, snapshot[puts..])
  }

  lemma ReplayStep(s: State, l: Label, k: nat, connection: string, snapshot: seq<Request>, puts: nat)
    requires Enabled(s, l) && ReplayStands(s, k, connection, snapshot, puts)
    ensures ReplayStands(Step(s, l), k, connection, snapshot, puts + (if l == ReplayPut(k) then 1 else 0))
    ensures l == ReplayPut(k) ==>
      puts < |snapshot|
      && Step(s, l).queue == s.queue + [Envelope(ToConnection(connection), snapshot[puts])]
  {
    assert l == ReplayPut(k) ==> snapshot[puts..][1..] == snapshot[puts + 1..];
  }

  lemma ReplayBegins(s: State, connection: string, thread: Option<Thread>)
    ensures ReplayStands(Step(s, BeginReplay(connection, thread)), |s.replays|, connection,
      InIssueOrder(s.callbacks, thread, s.next), 0)
  {
    var snapshot := InIssueOrder(s.callbacks, thread, s.next);
    assert snapshot[0..] == snapshot;
  }

  lemma SnapshotIsPending(labels: seq<Label>, b: nat, thread: Option<Thread>)
    requires Run(labels) && b <= |labels|
    ensures Run(labels[..b])
    ensures var s := StateAfter(labels[..b]); Snapshot(labels, b, thread) == InIssueOrder(s.callbacks, thread, s.next)
  {
    Prefix(labels, b);
    ReplayIsUnanswered(labels[..b], thread, StateAfter(labels[..b]).next);
  }

  /** After n labels the replay that began at b has put as many requests as the history says. */
  predicate ReplayAt(labels: seq<Label>, b: nat, n: nat, k: nat, connection: string, snapshot: seq<Request>)
    requires n <= |labels|
  {
    Run(labels[..n]) && ReplayStands(StateAfter(labels[..n]), k, connection, snapshot, PutsBetween(labels, k, b, n))
  }

  lemma ReplayNext(labels: seq<Label>, b: nat, n: nat, k: nat, connection: string, snapshot: seq<Request>)
    requires Run(labels) && b < n < |labels| && ReplayAt(labels, b, n, k, connection, snapshot)
    ensures ReplayAt(labels, b, n + 1, k, connection, snapshot)
    ensures Enabled(StateAfter(labels[..n]), labels[n])
    ensures labels[n] == ReplayPut(k) ==> var s, i := StateAfter(labels[..n]), PutsBetween(labels, k, b, n);
      i < |snapshot| && Step(s, labels[n]).queue == s.queue + [Envelope(ToConnection(connection), snapshot[i])]
  {
    Prefix(labels, n);
    ReplayStep(StateAfter(labels[..n]), labels[n], k, connection, snapshot, PutsBetween(labels, k, b, n));
  }

  lemma {:induction false} ReplayFollows(labels: seq<Label>, b: nat, n: nat, k: nat, connection: string,
      snapshot: seq<Request>)
    requires Run(labels) && b < n <= |labels| && ReplayAt(labels, b, b + 1, k, connection, snapshot) == true
    ensures ReplayAt(labels, b, n, k, connection, snapshot) == true
    decreases n
  {
    if n > b + 1 {
      ReplayFollows(labels, b, n - 1, k, connection, snapshot);
      ReplayNext(labels, b, n - 1, k, connection, snapshot);
    }
  }

  /** Under every interleaving the puts of a replay are, in issue order, the requests of its thread that were unanswered
      when it began, each to its connection; one of them may have been answered since. */
  lemma ReplayPutsTheUnanswered(labels: seq<Label>, b: nat, n: nat, connection: string, thread: Option<Thread>)
    requires Run(labels) && b < n < |labels| && labels[b] == BeginReplay(connection, thread)
    ensures Run(labels[..b]) && Run(labels[..n]) && Enabled(StateAfter(labels[..n]), labels[n])
    ensures var s, k, snapshot := StateAfter(labels[..n]), |StateAfter(labels[..b]).replays|,
      Snapshot(labels, b, thread);
      var i := PutsBetween(labels, k, b, n);
      labels[n] == ReplayPut(k) ==>
      i < |snapshot| && Step(s, labels[n]).queue == s.queue + [Envelope(ToConnection(connection), snapshot[i])]
  {
    Prefix(labels, b);
    SnapshotIsPending(labels, b, thread);
    ReplayBegins(StateAfter(labels[..b]), connection, thread);
    var k, snapshot := |StateAfter(labels[..b]).replays|, Snapshot(labels, b, thread);
    ReplayFollows(labels, b, n, k, connection, snapshot);
    ReplayNext(labels, b, n, k, connection, snapshot);
  }

  // ---------------------------------------------------------------- what a send puts

  /** How often the send with this id has put its request. */
  function PutsOf(labels: seq<Label>, id: nat): nat
  {
    if labels == [] then 0
    else PutsOf(labels[..|labels| - 1], id) + (if labels[|labels| - 1] == Put(id) then 1 else 0)
  }

  /** What a send has still to put, unless a put has failed. */
  predicate SendStands(s: State, id: nat, a: Label, puts: nat)
    requires a.Allocate?
  {
    && id in s.sending
    && (s.sending[id].Allocated? ==>
         puts == 0 && s.sending[id].payload == a.payload && s.sending[id].targets == a.targets)
    && (s.sending[id].Registered? ==>
         && s.sending[id].request == Request(id, a.payload)
         && (s.sending[id].targets == [] || (puts < |a.targets| && s.sending[id].targets == a.targets[puts..])))
  }

  lemma SendStep(s: State, l: Label, id: nat, a: Label, puts: nat)
    requires Inv(s) && Enabled(s, l) && id < s.next && a.Allocate? && SendStands(s, id, a, puts)
    ensures SendStands(Step(s, l), id, a, puts + (if l == Put(id) then 1 else 0))
  {
    if l == Put(id) {
      assert a.targets[puts..][1..] == a.targets[puts + 1..];
    } else if l == Register(id) && a.targets != [] {
      assert a.targets[0..] == a.targets;
    }
  }

  lemma {:induction false} NoPutsYet(labels: seq<Label>, id: nat)
    requires Run(labels) && id >= StateAfter(labels).next
    ensures PutsOf(labels, id) == 0
    decreases |labels|
  {
    if labels != [] {
      var before := labels[..|labels| - 1];
      RunKeepsInv(before);
      StepGrows(StateAfter(before), labels[|labels| - 1]);
      NoPutsYet(before, id);
    }
  }

  lemma {:induction false} SendFollows(labels: seq<Label>, id: nat)
    requires Run(labels) && id < StateAfter(labels).next
    ensures id < |Issued(labels)| && Issued(labels)[id].Allocate?
    ensures SendStands(StateAfter(labels), id, Issued(labels)[id], PutsOf(labels, id))
    decreases |labels|
  {
    IssuedMatches(labels);
    if labels != [] {
      var before, l := labels[..|labels| - 1], labels[|labels| - 1];
      var s := StateAfter(before);
      RunKeepsInv(before);
      IssuedMatches(before);
      if id < s.next {
        SendFollows(before, id);
        assert Issued(before)[id] == Issued(labels)[id];
        SendStep(s, l, id, Issued(labels)[id], PutsOf(before, id));
      } else {
        NoPutsYet(before, id);
        NewSendStands(s, l);
      }
    }
  }

  lemma NewSendStands(s: State, l: Label)
    requires Inv(s) && Enabled(s, l) && l.Allocate?
    ensures SendStands(Step(s, l), s.next, l, 0)
  {
  }

  lemma PutAppends(s: State, id: nat, a: Label, puts: nat)
    requires a.Allocate? && SendStands(s, id, a, puts) && Enabled(s, Put(id))
    ensures puts < |a.targets|
    ensures Step(s, Put(id)).queue == s.queue + [Envelope(a.targets[puts], Request(id, a.payload))]
  {
    assert a.targets[puts..][0] == a.targets[puts];
  }

  /** Under every interleaving the i-th put of a send appends its request, as it was issued, for the i-th of the targets
      it was issued for. */
  lemma SendPutsItsTargets(labels: seq<Label>, n: nat, id: nat)
    requires Run(labels) && n < |labels| && labels[n] == Put(id)
    ensures Run(labels[..n]) && Enabled(StateAfter(labels[..n]), labels[n])
    ensures id < |Issued(labels[..n])| && Issued(labels[..n])[id].Allocate?
    ensures var s, a, i := StateAfter(labels[..n]), Issued(labels[..n])[id], PutsOf(labels[..n], id);
      && i < |a.targets|
      && Step(s, labels[n]).queue == s.queue + [Envelope(a.targets[i], Request(id, a.payload))]
  {
    Prefix(labels, n);
    PutIsIssued(labels[..n], id);
  }

  lemma PutIsIssued(labels: seq<Label>, id: nat)
    requires Run(labels) && Enabled(StateAfter(labels), Put(id))
    ensures id < |Issued(labels)| && Issued(labels)[id].Allocate?
    ensures var s, a, i := StateAfter(labels), Issued(labels)[id], PutsOf(labels, id);
      && i < |a.targets|
      && Step(s, Put(id)).queue == s.queue + [Envelope(a.targets[i], Request(id, a.payload))]
  {
    RunKeepsInv(labels);
    SendFollows(labels, id);
    PutAppends(StateAfter(labels), id, Issued(labels)[id], PutsOf(labels, id));
  }

  /** Nothing but the puts of sends and replays changes the queue. */
  lemma OnlyPutsQueue(s: State, l: Label)
    requires Enabled(s, l) && !l.Put? && !l.ReplayPut?
    ensures Step(s, l).queue == s.queue
  {
  }

  // ---------------------------------------------------------------- sorting by id

  predicate Ascending(rs: seq<Request>)
  {
    forall i, j | 0 <= i < j < |rs| :: rs[i].id < rs[j].id
  }

  /** `sorted(..., key=...)` as insertion into a sorted list. */
  function Insert(r: Request, rs: seq<Request>): (out: seq<Request>)
    ensures forall x :: x in out <==> x == r || x in rs
  {
    if rs == [] || r.id < rs[0].id then [r] + rs
    else
      assert forall x :: x in rs <==> x == rs[0] || x in rs[1..];
      [rs[0]] + Insert(r, rs[1..])
  }

  lemma {:induction false} InsertAscending(r: Request, rs: seq<Request>)
    requires Ascending(rs) && forall x | x in rs :: x.id != r.id
    ensures Ascending(Insert(r, rs))
  {
    if rs != [] && r.id >= rs[0].id {
      assert rs[0] in rs;
      var rest := rs[1..];
      forall x | x in rest ensures x in rs && x.id > rs[0].id {
        var i :| 0 <= i < |rest| && rest[i] == x;
        assert rs[i + 1] == x;
      }
      InsertAscending(r, rest);
      var out := Insert(r, rest);
      forall i | 0 <= i < |out| ensures rs[0].id < out[i].id {
        assert out[i] in out;
      }
    }
  }

  lemma {:induction false} IssueOrderContents(callbacks: map<RequestId, Entry>, thread: Option<Thread>, n: nat)
    requires forall rid :: rid in callbacks ==> rid == IntId(callbacks[rid].request.id)
    ensures Ascending(InIssueOrder(callbacks, thread, n))
    ensures forall r :: r in InIssueOrder(callbacks, thread, n) <==>
      r.id < n && OfThread(callbacks, thread, r.id)
      && callbacks[IntId(r.id)].request == r
  {
    if n > 0 {
      IssueOrderContents(callbacks, thread, n - 1);
      var before := InIssueOrder(callbacks, thread, n - 1);
      forall i | 0 <= i < |before| ensures before[i].id < n - 1 {
        assert before[i] in before;
      }
    }
  }

  lemma FirstIsMember(b: seq<Request>)
    ensures b == [] || b[0] in b
  {
  }

  /** Two ascending lists with the same elements are equal. */
  lemma {:induction false} AscendingUnique(a: seq<Request>, b: seq<Request>)
    requires Ascending(a) && Ascending(b) && forall r :: r in a <==> r in b
    ensures a == b
    decreases |a|
  {
    if a == [] {
      FirstIsMember(b);
    } else {
      assert a[0] in a && a[0] in b;
      assert b[0] in b && b[0] in a;
      assert a[0] == b[0];
      forall r ensures r in a[1..] <==> r in b[1..] {
        assert r in a <==> r == a[0] || r in a[1..];
        assert r in b <==> r == b[0] || r in b[1..];
      }
      AscendingUnique(a[1..], b[1..]);
    }
  }
}
