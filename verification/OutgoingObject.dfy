/** `OutgoingMessageSender` with its fields updated in place. Every method extends the history of labels by one step,
    and what is proved about histories is stated of the object. */
module OutgoingObject {
  import opened Wrappers
  import opened Outgoing

  /** In the history the request was issued, registered and not completed since. */
  ghost predicate Open(labels: seq<Label>, id: nat)
  {
    id < |Issued(labels)| && Issued(labels)[id].Allocate? && Unanswered(labels, id, Issued(labels)[id].thread)
  }

  lemma PendingIsOpen(labels: seq<Label>)
    requires Run(labels)
    ensures |Issued(labels)| == StateAfter(labels).next
    ensures forall id: nat | id < StateAfter(labels).next :: Issued(labels)[id].Allocate?
    ensures forall rid :: rid in StateAfter(labels).callbacks <==> rid.IntId? && rid.n >= 0 && Open(labels, rid.n)
  {
    var s := StateAfter(labels);
    IssuedMatches(labels);
    RunKeepsInv(labels);
    forall id: nat | id < s.next ensures IntId(id) in s.callbacks <==> Open(labels, id) {
      PendingIffUnanswered(labels, id);
    }
    forall rid | rid in s.callbacks ensures rid.IntId? && 0 <= rid.n < s.next {
      assert EntryOk(s, rid);
    }
  }

  /** `sending` and `replays` stand for the frames of the suspended coroutines. */
  class OutgoingMessageSender {
    var nextServerRequestId: nat
    var requestIdToCallback: map<RequestId, Entry>
    var futures: map<nat, Future>
    var sender: seq<Envelope>
    var sending: map<nat, Sending>
    var replays: seq<Replay>
    ghost var history: seq<Label>

    ghost function St(): State
      reads this
    {
      State(nextServerRequestId, requestIdToCallback, futures, sender, sending, replays)
    }

    /** The object is where its history leads. */
    ghost predicate Valid()
      reads this
    {
      Run(history) && St() == StateAfter(history)
    }

    ghost predicate Can(l: Label)
      reads this
    {
      Valid() && Enabled(St(), l)
    }

    constructor ()
      ensures Valid() && history == []
    {
      nextServerRequestId := 0;
      requestIdToCallback := map[];
      futures := map[];
      sender := [];
      sending := map[];
      replays := [];
      history := [];
    }

    ghost method Record(l: Label)
      requires Run(history) && Enabled(StateAfter(history), l) && St() == Step(StateAfter(history), l)
      modifies `history
      ensures history == old(history) + [l] && Valid()
    {
      var before := history;
      history := history + [l];
      assert history[..|history| - 1] == before;
    }

    /** `send_request_to_connections` up to its first await: without connections the request goes to everyone,
        otherwise to each of them in turn. */
    method BeginSend(thread: Option<Thread>, payload: string, connections: Option<seq<string>>)
        returns (id: nat, ghost targets: seq<Target>)
      requires Valid() && nextServerRequestId < ID_LIMIT
      modifies this
      ensures Valid() && history == old(history) + [Allocate(thread, payload, targets)]
      ensures connections == None ==> targets == [Broadcast]
      ensures connections.Some? ==>
        && |targets| == |connections.value|
        && forall i | 0 <= i < |targets| :: targets[i] == ToConnection(connections.value[i])
      ensures id == |Issued(old(history))| && IntId(id) !in requestIdToCallback
    {
      PendingIsOpen(history);
      id := nextServerRequestId;
      nextServerRequestId := nextServerRequestId + 1;
      var goals := if connections == None then [Broadcast]
        else seq(|connections.value|, i requires 0 <= i < |connections.value| => ToConnection(connections.value[i]));
      futures := futures[id := Waiting];
      sending := sending[id := Allocated(thread, payload, goals)];
      targets := goals;
      Record(Allocate(thread, payload, goals));
    }

    /** The same coroutine under the lock. */
    method RegisterCallback(id: nat)
      requires Can(Register(id))
      modifies this
      ensures Valid() && history == old(history) + [Register(id)]
      ensures IntId(id) !in old(requestIdToCallback)
        && requestIdToCallback.Keys == old(requestIdToCallback.Keys) + {IntId(id)}
    {
      RegistrationNeverOverwrites(history, id);
      var c := sending[id];
      var request := Request(id, c.payload);
      requestIdToCallback := requestIdToCallback[IntId(id) := Entry(c.thread, request)];
      sending := sending[id := Registered(request, c.targets, false)];
      Record(Register(id));
    }

    /** One put of its loop. */
    method PutNext(id: nat)
      requires Can(Put(id))
      modifies this
      ensures Valid() && history == old(history) + [Put(id)]
      ensures PutsNext(old(history), id, old(sender))
    {
      PutIsIssued(history, id);
      var c := sending[id];
      sender := sender + [Envelope(c.targets[0], c.request)];
      sending := sending[id := Registered(c.request, c.targets[1..], c.targets[0].ToConnection?)];
      Record(Put(id));
    }

    /** The queue has grown by the request as it was issued, for the next of its targets. */
    ghost predicate PutsNext(was: seq<Label>, id: nat, before: seq<Envelope>)
      reads this
    {
      && id < |Issued(was)| && Issued(was)[id].Allocate?
      && var a, i := Issued(was)[id], PutsOf(was, id);
         i < |a.targets| && sender == before + [Envelope(a.targets[i], Request(id, a.payload))]
    }

    /** Its exception handler, reached from a put or from the tracking call after one. */
    method WithdrawSend(id: nat)
      requires Can(PutFailed(id))
      modifies this
      ensures Valid() && history == old(history) + [PutFailed(id)]
    {
      requestIdToCallback := requestIdToCallback - {IntId(id)};
      sending := sending[id := Registered(sending[id].request, [], false)];
      Record(PutFailed(id));
    }

    /** `_take_request_callback` */
    method TakeRequestCallback(rid: RequestId) returns (entry: Option<Entry>)
      modifies `requestIdToCallback
      ensures requestIdToCallback == old(requestIdToCallback) - {rid}
      ensures entry == if rid in old(requestIdToCallback) then Some(old(requestIdToCallback)[rid]) else None
    {
      entry := if rid in requestIdToCallback then Some(requestIdToCallback[rid]) else None;
      requestIdToCallback := requestIdToCallback - {rid};
    }

    /** `_safe_set_result` */
    method SafeSetResult(id: nat, result: string)
      modifies `futures
      ensures futures == if id in old(futures) then old(futures)[id := Settle(old(futures)[id], result)]
        else old(futures)
    {
      if id in futures && futures[id] == Waiting {
        futures := futures[id := Done(result)];
      } else if id in futures {
        assert futures == futures[id := futures[id]];
      }
    }

    /** What the three answering methods share: the callback is taken and its waiter, if any, settled. */
    method TakeAndSettle(rid: RequestId, result: Option<string>) returns (found: bool)
      modifies `requestIdToCallback, `futures
      ensures St() == Complete(old(St()), rid, result) && (found <==> rid in old(requestIdToCallback))
    {
      var entry := TakeRequestCallback(rid);
      if entry == None {
        assert old(requestIdToCallback) - {rid} == old(requestIdToCallback);
        return false;
      }
      if result.Some? {
        SafeSetResult(entry.value.request.id, result.value);
      }
      found := true;
    }

    method NotifyClientResponse(rid: RequestId, result: string)
      requires Valid()
      modifies this
      ensures Valid() && history == old(history) + [Response(rid, result)]
    {
      var _ := TakeAndSettle(rid, Some(result));
      Record(Response(rid, result));
    }

    method NotifyClientError(rid: RequestId, error: string)
      requires Valid()
      modifies this
      ensures Valid() && history == old(history) + [ClientError(rid, error)]
    {
      var _ := TakeAndSettle(rid, Some(error));
      Record(ClientError(rid, error));
    }

    /** A request is found exactly if it is unanswered. */
    method Cancel(rid: RequestId) returns (found: bool)
      requires Valid()
      modifies this
      ensures Valid() && history == old(history) + [CancelRequest(rid)]
      ensures found <==> rid.IntId? && rid.n >= 0 && Open(old(history), rid.n)
    {
      PendingIsOpen(history);
      found := TakeAndSettle(rid, None);
      Record(CancelRequest(rid));
    }

    /** The loop that settles the waiters of the entries that were taken. */
    method SettleTaken(ghost before: map<nat, Future>, taken: map<RequestId, Entry>, reason: Option<string>)
      requires futures == before
      requires forall rid :: rid in taken ==> rid == IntId(taken[rid].request.id)
      modifies `futures
      ensures futures == SettleAll(before, taken, reason)
    {
      var left := taken.Keys;
      while left != {}
        invariant left <= taken.Keys
        invariant futures == map id | id in before ::
          if reason.Some? && IntId(id) in taken.Keys - left then Settle(before[id], reason.value) else before[id]
      {
        var rid :| rid in left;
        left := left - {rid};
        if reason.Some? {
          SafeSetResult(taken[rid].request.id, reason.value);
        }
      }
    }

    lemma EntriesMatch()
      requires Valid()
      ensures forall rid :: rid in requestIdToCallback ==> rid == IntId(requestIdToCallback[rid].request.id)
    {
      RunKeepsInv(history);
      forall rid | rid in requestIdToCallback ensures rid == IntId(requestIdToCallback[rid].request.id) {
        assert EntryOk(St(), rid);
      }
    }

    method CancelAllRequests(reason: Option<string>)
      requires Valid()
      modifies this
      ensures Valid() && history == old(history) + [CancelAll(reason)] && requestIdToCallback == map[]
    {
      EntriesMatch();
      var entries := requestIdToCallback;
      requestIdToCallback := map[];
      SettleTaken(futures, entries, reason);
      Record(CancelAll(reason));
    }

    /** The requests of other threads stay as they were; the waiters of the thread's unanswered requests get the
        reason. */
    method CancelRequestsForThread(thread: Option<Thread>, reason: Option<string>)
      requires Valid()
      modifies this
      ensures Valid() && history == old(history) + [CancelThread(thread, reason)]
      ensures forall id: nat | id < nextServerRequestId ::
        ThreadCancelled(old(history), id, thread, reason, old(futures))
    {
      EntriesMatch();
      ghost var was, before := history, St();
      var entries := map rid | rid in requestIdToCallback && requestIdToCallback[rid].thread == thread ::
        requestIdToCallback[rid];
      requestIdToCallback := requestIdToCallback - entries.Keys;
      SettleTaken(futures, entries, reason);
      Record(CancelThread(thread, reason));
      forall id: nat | id < nextServerRequestId ensures ThreadCancelled(was, id, thread, reason, before.futures) {
        CancelledByHistory(was, id, thread, reason, before);
      }
    }

    lemma CancelledByHistory(was: seq<Label>, id: nat, thread: Option<Thread>, reason: Option<string>, before: State)
      requires Run(was) && before == StateAfter(was) && id < before.next
      requires St() == Step(before, CancelThread(thread, reason))
      ensures ThreadCancelled(was, id, thread, reason, before.futures)
    {
      CancelThreadIsExact(was, thread, reason, id);
    }

    ghost predicate ThreadCancelled(was: seq<Label>, id: nat, thread: Option<Thread>, reason: Option<string>,
        before: map<nat, Future>)
      reads this
    {
      && id < |Issued(was)| && Issued(was)[id].Allocate? && id in before && id in futures
      && (IntId(id) in requestIdToCallback <==> Open(was, id) && Issued(was)[id].thread != thread)
      && futures[id] ==
        if Open(was, id) && Issued(was)[id].thread == thread && before[id] == Waiting && reason.Some?
          then Done(reason.value) else before[id]
    }

    /** The requests of the thread whose entries have been looked at. */
    ghost predicate Collected(thread: Option<Thread>, seen: set<RequestId>, requests: seq<Request>)
      reads this
    {
      && Ascending(requests)
      && forall r :: r in requests <==>
        && IntId(r.id) in seen && OfThread(requestIdToCallback, thread, r.id)
        && requestIdToCallback[IntId(r.id)].request == r
    }

    lemma CollectOne(thread: Option<Thread>, seen: set<RequestId>, requests: seq<Request>, rid: RequestId)
      requires rid in requestIdToCallback && rid !in seen && rid == IntId(requestIdToCallback[rid].request.id)
      requires Collected(thread, seen, requests)
      ensures var e := requestIdToCallback[rid];
        Collected(thread, seen + {rid}, if e.thread == thread then Insert(e.request, requests) else requests)
    {
      InsertAscending(requestIdToCallback[rid].request, requests);
    }

    lemma AllCollected(thread: Option<Thread>, requests: seq<Request>)
      requires Valid() && Collected(thread, requestIdToCallback.Keys, requests)
      ensures requests == InIssueOrder(requestIdToCallback, thread, nextServerRequestId)
    {
      EntriesMatch();
      PendingIsOpen(history);
      IssueOrderContents(requestIdToCallback, thread, nextServerRequestId);
      AscendingUnique(requests, InIssueOrder(requestIdToCallback, thread, nextServerRequestId));
    }

    /** `pending_requests_for_thread`: filter, then sort by id. */
    method PendingRequestsForThread(thread: Option<Thread>) returns (requests: seq<Request>)
      requires Valid()
      ensures requests == InIssueOrder(requestIdToCallback, thread, nextServerRequestId)
      ensures requests == Snapshot(history, |history|, thread)
    {
      requests := [];
      EntriesMatch();
      var left := requestIdToCallback.Keys;
      while left != {}
        invariant left <= requestIdToCallback.Keys
        invariant Collected(thread, requestIdToCallback.Keys - left, requests)
      {
        var rid :| rid in left;
        var e := requestIdToCallback[rid];
        CollectOne(thread, requestIdToCallback.Keys - left, requests, rid);
        assert requestIdToCallback.Keys - (left - {rid}) == requestIdToCallback.Keys - left + {rid};
        left := left - {rid};
        requests := if e.thread == thread then Insert(e.request, requests) else requests;
      }
      assert requestIdToCallback.Keys - left == requestIdToCallback.Keys;
      AllCollected(thread, requests);
      PendingIsSnapshot(thread);
    }

    lemma PendingIsSnapshot(thread: Option<Thread>)
      requires Valid()
      ensures InIssueOrder(requestIdToCallback, thread, nextServerRequestId) == Snapshot(history, |history|, thread)
    {
      assert history[..|history|] == history;
      SnapshotIsPending(history, |history|, thread);
    }

    /** `replay_requests_to_connection_for_thread` up to its first put. */
    method StartReplay(connection: string, thread: Option<Thread>) returns (k: nat)
      requires Valid()
      modifies this
      ensures Valid() && history == old(history) + [BeginReplay(connection, thread)]
      ensures k == |old(replays)|
        && replays == old(replays) + [Replay(connection, Snapshot(old(history), |old(history)|, thread))]
    {
      var requests := PendingRequestsForThread(thread);
      k := |replays|;
      replays := replays + [Replay(connection, requests)];
      Record(BeginReplay(connection, thread));
    }

    /** One put of its loop. */
    method PutReplayed(k: nat)
      requires Can(ReplayPut(k))
      modifies this
      ensures Valid() && history == old(history) + [ReplayPut(k)]
      ensures sender == old(sender) + [Envelope(ToConnection(old(replays)[k].connection), old(replays)[k].left[0])]
    {
      var r := replays[k];
      sender := sender + [Envelope(ToConnection(r.connection), r.left[0])];
      replays := replays[k := Replay(r.connection, r.left[1..])];
      Record(ReplayPut(k));
    }
  }
}
