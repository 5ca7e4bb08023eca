/** Runs of a queue: any sequence of requests, with any clock readings. */
module QueueRuns {
  import opened Times
  import opened Lists
  import opened QueueSpec

  datatype Op =
    | OpEnqueue(it: Item)
    | OpPoll(worker: string, epoch: nat, limit: int, now: Instant)
    | OpAck(eventId: string, epoch: nat, worker: string, msg: string, now: Instant)

  datatype Reply =
    | ReEnqueue(enq: EnqueueReply)
    | RePoll(poll: PollReply)
    | ReAck(ack: AckReply)

  ghost function Step(s: State, op: Op): (State, Reply) {
    match op
    case OpEnqueue(it) => var (s', r) := Enqueue(s, it); (s', ReEnqueue(r))
    case OpPoll(w, e, l, now) => var (s', r) := Poll(s, w, e, l, now); (s', RePoll(r))
    case OpAck(id, e, w, m, now) => var (s', r) := Ack(s, id, e, w, m, now); (s', ReAck(r))
  }

  /** The state after a run of requests that starts in `s`. */
  ghost function After(s: State, ops: seq<Op>): State {
    if ops == [] then s else Step(After(s, ops[..|ops| - 1]), ops[|ops| - 1]).0
  }

  // ---------------------------------------------------------------- invariant

  lemma PruneValid(s: State)
    requires Valid(s)
    ensures Valid(Prune(s))
  {
    KeptNoDup(s.order, Unacked(s.items).Keys);
    KeptMembers(s.order, Unacked(s.items).Keys);
  }

  lemma EnqueueValid(s: State, it: Item)
    requires Valid(s)
    ensures Valid(Enqueue(s, it).0)
  {
    if it.eventId != "" && it.eventId !in s.seen {
      var s' := s.(order := s.order + [it.eventId], items := s.items[it.eventId := it], seen := s.seen + {it.eventId});
      assert Valid(s');
      PruneValid(s');
    }
  }

  lemma StepValid(s: State, op: Op)
    requires Valid(s)
    ensures Valid(Step(s, op).0)
    ensures Step(s, op).0.lease == s.lease && Step(s, op).0.maxItems == s.maxItems
    ensures s.seen <= Step(s, op).0.seen
  {
    match op
    case OpEnqueue(it) => EnqueueValid(s, it);
    case OpPoll(_, _, _, _) =>
    case OpAck(_, _, _, _, _) =>
  }

  /** Polls and acknowledgements keep the queued ids. */
  lemma StepKeepsIds(s: State, op: Op)
    requires !op.OpEnqueue?
    ensures var s' := Step(s, op).0;
            s'.order == s.order && s'.seen == s.seen && s'.items.Keys == s.items.Keys
  {
  }

  /** Every reachable state lists its items once each, within what was ever seen. */
  lemma {:induction false} RunValid(s: State, ops: seq<Op>)
    requires Valid(s)
    ensures Valid(After(s, ops))
    ensures After(s, ops).lease == s.lease
    ensures s.seen <= After(s, ops).seen
  {
    if ops == [] {
    } else {
      var init := ops[..|ops| - 1];
      RunValid(s, init);
      StepValid(After(s, init), ops[|ops| - 1]);
    }
  }

  /** An event id is inserted at most once in a run, however often items are pruned. */
  lemma InsertedOnce(s: State, first: Item, ops: seq<Op>, again: Item)
    requires Valid(s) && Enqueue(s, first).1 == Enqueued(true) && again.eventId == first.eventId
    ensures Enqueue(After(Enqueue(s, first).0, ops), again).1 == Enqueued(false)
  {
    EnqueueValid(s, first);
    RunValid(Enqueue(s, first).0, ops);
  }

  // ---------------------------------------------------------------- worker leases

  /** Request `op` hands out item `id` when the queue is in state `s`. */
  ghost predicate Granting(s: State, op: Op, id: string) {
    op.OpPoll? && op.worker != "" && id in Grants(s, op.epoch, op.limit, op.now)
  }

  function NowMs(op: Op): int
    requires !op.OpEnqueue?
  {
    UnixMilli(op.now)
  }

  function UntilMs(s: State, op: Op): int
    requires op.OpPoll?
  {
    UnixMilli(op.now + s.lease)
  }

  /** The poll reply lists exactly the items granted, each with the new worker and lease. */
  lemma GrantIsReply(s: State, op: Op)
    requires Valid(s) && op.OpPoll? && op.worker != ""
    ensures Step(s, op).1.RePoll? && Step(s, op).1.poll.Polled?
    ensures var out := Step(s, op).1.poll.items;
            && |out| <= Clamp(op.limit)
            && (forall it :: it in out ==>
                  it.worker == op.worker && it.leaseUntilMs == UntilMs(s, op) && Granting(s, op, it.eventId))
            && (forall id :: Granting(s, op, id) ==> exists it :: it in out && it.eventId == id)
  {
    var ids := Grants(s, op.epoch, op.limit, op.now);
    var out := Step(s, op).1.poll.items;
    forall id | Granting(s, op, id)
      ensures exists it :: it in out && it.eventId == id
    {
      var i :| 0 <= i < |ids| && ids[i] == id;
      assert out[i] in out && out[i].eventId == id;
    }
  }

  /** After a grant, the item stays leased at least that long, or it is pruned and gone. */
  ghost predicate LeasedUntil(s: State, id: string, untilMs: int) {
    && id in s.seen
    && (id in s.items ==> s.items[id].worker != "" && untilMs <= s.items[id].leaseUntilMs)
  }

  lemma StepLeasedUntil(s: State, op: Op, id: string, untilMs: int)
    requires Valid(s) && LeasedUntil(s, id, untilMs)
    ensures LeasedUntil(Step(s, op).0, id, untilMs)
    ensures Granting(s, op, id) ==> untilMs <= NowMs(op)
  {
    if op.OpPoll? {
      UnixMilliMonotone(op.now, op.now + s.lease);
    }
  }

  lemma {:induction false} RunLeasedUntil(s: State, ops: seq<Op>, id: string, untilMs: int)
    requires Valid(s) && LeasedUntil(s, id, untilMs)
    ensures LeasedUntil(After(s, ops), id, untilMs)
  {
    if ops == [] {
    } else {
      var init := ops[..|ops| - 1];
      RunValid(s, init);
      RunLeasedUntil(s, init, id, untilMs);
      StepLeasedUntil(After(s, init), ops[|ops| - 1], id, untilMs);
    }
  }

  /** Two grants of one item hold disjoint intervals, in the order of the grants,
      whatever the clock does in between. */
  lemma LeaseIntervalsDisjoint(s: State, first: Op, ops: seq<Op>, second: Op, id: string)
    requires Valid(s) && Granting(s, first, id)
    requires Granting(After(Step(s, first).0, ops), second, id)
    ensures NowMs(first) <= UntilMs(s, first) <= NowMs(second) <= UntilMs(s, second)
  {
    var s1 := Step(s, first).0;
    GrantedItem(s, first, id);
    StepValid(s, first);
    RunValid(s1, ops);
    RunLeasedUntil(s1, ops, id, UntilMs(s, first));
    StepLeasedUntil(After(s1, ops), second, id, UntilMs(s, first));
    UnixMilliMonotone(first.now, first.now + s.lease);
    UnixMilliMonotone(second.now, second.now + s.lease);
  }

  /** Request `op` acknowledges item `id` when the queue is in state `s`. */
  ghost predicate Acking(s: State, op: Op, id: string) {
    op.OpAck? && op.eventId == id && Step(s, op).1.ack.Acked?
  }

  /** No request of the run grants or acknowledges `id`. */
  ghost predicate Untouched(s: State, ops: seq<Op>, id: string) {
    ops != [] ==>
      var init, last := ops[..|ops| - 1], ops[|ops| - 1];
      Untouched(s, init, id) && !Granting(After(s, init), last, id) && !Acking(After(s, init), last, id)
  }

  /** An un-acknowledged item that a request neither grants nor acknowledges is unchanged by it. */
  lemma StepKeepsItem(s: State, op: Op, id: string)
    requires Valid(s) && id in s.items && !s.items[id].acked
    requires !Granting(s, op, id) && !Acking(s, op, id)
    ensures id in Step(s, op).0.items && Step(s, op).0.items[id] == s.items[id]
  {
  }

  lemma {:induction false} RunKeepsItem(s: State, ops: seq<Op>, id: string)
    requires Valid(s) && Untouched(s, ops, id)
    requires id in s.items && !s.items[id].acked
    ensures id in After(s, ops).items && After(s, ops).items[id] == s.items[id]
  {
    if ops == [] {
    } else {
      var init := ops[..|ops| - 1];
      RunKeepsItem(s, init, id);
      RunValid(s, init);
      StepKeepsItem(After(s, init), ops[|ops| - 1], id);
    }
  }

  lemma GrantedItem(s: State, op: Op, id: string)
    requires Valid(s) && Granting(s, op, id)
    ensures var items := Step(s, op).0.items;
            && id in s.items && id in items
            && items[id] == Leased(s.items[id], op.worker, UntilMs(s, op))
            && !s.items[id].acked && s.items[id].tokenEpoch == op.epoch
  {
  }

  lemma AckingIff(s: State, op: Op, id: string)
    requires op.OpAck? && op.eventId == id && id != "" && op.worker != "" && id in s.items
    ensures Acking(s, op, id) <==> s.items[id].tokenEpoch == op.epoch && !LeaseBlocks(s.items[id], op.worker, NowMs(op))
  {
  }

  lemma AckAfterGrant(s1: State, grant: Op, s2: State, ack: Op, id: string)
    requires Valid(s1) && Granting(s1, grant, id)
    requires id in s2.items && s2.items[id] == Step(s1, grant).0.items[id]
    requires ack.OpAck? && ack.eventId == id && ack.worker != ""
    ensures Acking(s2, ack, id)
       <==> ack.epoch == grant.epoch && (ack.worker == grant.worker || UntilMs(s1, grant) <= NowMs(ack))
  {
    GrantedItem(s1, grant, id);
    AckingIff(s2, ack, id);
  }

  /** Between a grant and the next grant or acknowledgement of the item, an acknowledgement
      succeeds exactly when it carries the granted epoch and comes from the worker that
      holds the lease, or reads its clock when the lease is over. */
  lemma AckWhileLeased(s: State, grant: Op, ops: seq<Op>, ack: Op, id: string)
    requires Valid(s) && Granting(s, grant, id) && Untouched(Step(s, grant).0, ops, id)
    requires ack.OpAck? && ack.eventId == id && ack.worker != ""
    ensures Acking(After(Step(s, grant).0, ops), ack, id)
       <==> ack.epoch == grant.epoch && (ack.worker == grant.worker || UntilMs(s, grant) <= NowMs(ack))
  {
    GrantedItem(s, grant, id);
    StepValid(s, grant);
    RunKeepsItem(Step(s, grant).0, ops, id);
    AckAfterGrant(s, grant, After(Step(s, grant).0, ops), ack, id);
  }
}
