/** Pruning cannot be observed: the queue refines a ledger that keeps every item for ever. */
module QueueRefinement {
  import opened Times
  import opened Lists
  import opened QueueSpec
  import opened QueueRuns

  /** The reference queue: all items in the order of their first insertion. It never prunes
      and needs no separate set of ids seen. */
  datatype Ledger = Ledger(order: seq<string>, items: map<string, Item>, lease: int)

  ghost function LedgerEnqueue(l: Ledger, it: Item): (Ledger, EnqueueReply) {
    if it.eventId == "" then (l, EnqueueBadInput)
    else if it.eventId in l.items then (l, Enqueued(false))
    else (l.(order := l.order + [it.eventId], items := l.items[it.eventId := it]), Enqueued(true))
  }

  ghost function LedgerGrants(l: Ledger, epoch: nat, limit: int, now: Instant): (r: seq<string>)
    ensures forall id :: id in r ==> id in l.items
  {
    ReadyIdsMembers(l.order, l.items, epoch, UnixMilli(now));
    Take(ReadyIds(l.order, l.items, epoch, UnixMilli(now)), Clamp(limit))
  }

  ghost function LedgerPoll(l: Ledger, worker: string, epoch: nat, limit: int, now: Instant): (Ledger, PollReply) {
    if worker == "" then (l, PollBadInput)
    else
      LedgerHandOut(l, LedgerGrants(l, epoch, limit, now), worker, UnixMilli(now + l.lease))
  }

  ghost function LedgerHandOut(l: Ledger, ids: seq<string>, worker: string, untilMs: int): (Ledger, PollReply)
    requires forall id :: id in ids ==> id in l.items
  {
    var items := GrantAll(l.items, ids, worker, untilMs);
    (l.(items := items), Polled(Pick(items, ids)))
  }

  ghost function LedgerAck(l: Ledger, id: string, epoch: nat, worker: string, msg: string, now: Instant)
    : (Ledger, AckReply)
  {
    if id == "" || worker == "" then (l, AckBadInput)
    else if id !in l.items then (l, AckNotFound)
    else if l.items[id].tokenEpoch != epoch || LeaseBlocks(l.items[id], worker, UnixMilli(now)) then
      (l, AckConflict(l.items[id]))
    else
      var it := AckedBy(l.items[id], worker, msg, UnixMilli(now));
      (l.(items := l.items[id := it]), Acked(it))
  }

  ghost function LedgerStep(l: Ledger, op: Op): (Ledger, Reply) {
    match op
    case OpEnqueue(it) => var (l', r) := LedgerEnqueue(l, it); (l', ReEnqueue(r))
    case OpPoll(w, e, n, now) => var (l', r) := LedgerPoll(l, w, e, n, now); (l', RePoll(r))
    case OpAck(id, e, w, m, now) => var (l', r) := LedgerAck(l, id, e, w, m, now); (l', ReAck(r))
  }

  ghost function LedgerAfter(l: Ledger, ops: seq<Op>): Ledger {
    if ops == [] then l else LedgerStep(LedgerAfter(l, ops[..|ops| - 1]), ops[|ops| - 1]).0
  }

  /** `order` and `held` are what is left of `history` and `all` when some acknowledged
      entries are dropped. */
  ghost predicate Remnant(order: seq<string>, held: map<string, Item>, history: seq<string>, all: map<string, Item>) {
    && NoDup(history)
    && (forall id :: id in history <==> id in all)
    && order == Kept(history, held.Keys)
    && (forall id :: id in held ==> id in all && all[id] == held[id])
    && (forall id :: id in all && id !in held ==> all[id].acked)
  }

  ghost predicate Refines(s: State, l: Ledger) {
    s.lease == l.lease && s.seen == l.items.Keys && Remnant(s.order, s.items, l.order, l.items)
  }

  /** `id` was inserted, acknowledged, and dropped by a prune. */
  ghost predicate PrunedAway(s: State, l: Ledger, id: string) {
    id in s.seen && id !in s.items && id in l.items && l.items[id].acked
  }

  /** Both queues answer alike; only an acknowledgement of a pruned item tells them apart. */
  ghost predicate SameAnswer(s: State, l: Ledger, op: Op) {
    var r := Step(s, op).1;
    if op.OpAck? && op.worker != "" && PrunedAway(s, l, op.eventId) && op.eventId != ""
    then r == ReAck(AckNotFound)
    else r == LedgerStep(l, op).1
  }

  lemma {:induction false} SameReadyIds(order: seq<string>, all: map<string, Item>, held: map<string, Item>,
        epoch: nat, nowMs: int)
    requires forall id :: id in order ==> id in all
    requires forall id :: id in held ==> id in all && all[id] == held[id]
    requires forall id :: id in all && id !in held ==> all[id].acked
    ensures ReadyIds(Kept(order, held.Keys), held, epoch, nowMs) == ReadyIds(order, all, epoch, nowMs)
  {
    if order == [] {
    } else {
      var init, last := order[..|order| - 1], order[|order| - 1];
      SameReadyIds(init, all, held, epoch, nowMs);
      if last in held {
        assert Kept(order, held.Keys)[..|Kept(init, held.Keys)|] == Kept(init, held.Keys);
      } else {
        assert Kept(order, held.Keys) == Kept(init, held.Keys);
      }
    }
  }

  lemma PruneRemnant(order: seq<string>, held: map<string, Item>, history: seq<string>, all: map<string, Item>)
    requires Remnant(order, held, history, all)
    ensures Remnant(Kept(order, Unacked(held).Keys), Unacked(held), history, all)
  {
    KeptKept(history, held.Keys, Unacked(held).Keys);
  }

  lemma InsertRemnant(order: seq<string>, held: map<string, Item>, history: seq<string>, all: map<string, Item>,
        id: string, it: Item)
    requires Remnant(order, held, history, all) && id !in all
    ensures Remnant(order + [id], held[id := it], history + [id], all[id := it])
  {
    KeysUpdate(held, id, it);
    NoDupSnoc(history, id);
    KeptInsert(history, id, held.Keys);
  }

  lemma InsertRefines(s: State, l: Ledger, it: Item)
    requires Refines(s, l) && it.eventId !in s.seen
    ensures var id := it.eventId;
            Refines(s.(order := s.order + [id], items := s.items[id := it], seen := s.seen + {id}),
                    l.(order := l.order + [id], items := l.items[id := it]))
  {
    InsertRemnant(s.order, s.items, l.order, l.items, it.eventId, it);
    KeysUpdate(l.items, it.eventId, it);
  }

  lemma PruneRefines(s: State, l: Ledger)
    requires Refines(s, l)
    ensures Refines(Prune(s), l)
  {
    PruneRemnant(s.order, s.items, l.order, l.items);
  }

  lemma EnqueueRefines(s: State, l: Ledger, it: Item)
    requires Refines(s, l)
    ensures Enqueue(s, it).1 == LedgerEnqueue(l, it).1
    ensures Refines(Enqueue(s, it).0, LedgerEnqueue(l, it).0)
  {
    if it.eventId != "" && it.eventId !in s.seen {
      var id := it.eventId;
      var s' := s.(order := s.order + [id], items := s.items[id := it], seen := s.seen + {id});
      var l' := l.(order := l.order + [id], items := l.items[id := it]);
      InsertRefines(s, l, it);
      PruneRefines(s', l');
    }
  }

  lemma GrantRemnant(order: seq<string>, held: map<string, Item>, history: seq<string>, all: map<string, Item>,
                     ids: seq<string>, worker: string, untilMs: int)
    requires Remnant(order, held, history, all) && forall id :: id in ids ==> id in held
    ensures var held', all' := GrantAll(held, ids, worker, untilMs), GrantAll(all, ids, worker, untilMs);
            Remnant(order, held', history, all') && Pick(held', ids) == Pick(all', ids)
  {
  }

  lemma SameGrants(s: State, l: Ledger, epoch: nat, limit: int, now: Instant)
    requires Refines(s, l)
    ensures Grants(s, epoch, limit, now) == LedgerGrants(l, epoch, limit, now)
  {
    SameReadyIds(l.order, l.items, s.items, epoch, UnixMilli(now));
  }

  lemma HandOutRefines(s: State, l: Ledger, ids: seq<string>, worker: string, untilMs: int)
    requires Refines(s, l) && forall id :: id in ids ==> id in s.items
    ensures HandOut(s, ids, worker, untilMs).1 == LedgerHandOut(l, ids, worker, untilMs).1
    ensures Refines(HandOut(s, ids, worker, untilMs).0, LedgerHandOut(l, ids, worker, untilMs).0)
  {
    GrantRemnant(s.order, s.items, l.order, l.items, ids, worker, untilMs);
  }

  lemma PollsAreHandOuts(s: State, l: Ledger, worker: string, epoch: nat, limit: int, now: Instant, ids: seq<string>)
    requires worker != "" && ids == Grants(s, epoch, limit, now) == LedgerGrants(l, epoch, limit, now)
    ensures Poll(s, worker, epoch, limit, now) == HandOut(s, ids, worker, UnixMilli(now + s.lease))
    ensures LedgerPoll(l, worker, epoch, limit, now) == LedgerHandOut(l, ids, worker, UnixMilli(now + l.lease))
  {
  }

  lemma PollRefines(s: State, l: Ledger, worker: string, epoch: nat, limit: int, now: Instant)
    requires Refines(s, l) && worker != ""
    ensures Poll(s, worker, epoch, limit, now).1 == LedgerPoll(l, worker, epoch, limit, now).1
    ensures Refines(Poll(s, worker, epoch, limit, now).0, LedgerPoll(l, worker, epoch, limit, now).0)
  {
    var ids := Grants(s, epoch, limit, now);
    SameGrants(s, l, epoch, limit, now);
    PollsAreHandOuts(s, l, worker, epoch, limit, now, ids);
    HandOutRefines(s, l, ids, worker, UnixMilli(now + s.lease));
  }

  lemma SetRemnant(order: seq<string>, held: map<string, Item>, history: seq<string>, all: map<string, Item>,
        id: string, it: Item)
    requires Remnant(order, held, history, all) && id in all
    ensures id in held ==> Remnant(order, held[id := it], history, all[id := it])
    ensures id !in held && it.acked ==> Remnant(order, held, history, all[id := it])
  {
    if id in held {
      assert held[id := it].Keys == held.Keys;
    }
  }

  lemma AckRefines(s: State, l: Ledger, op: Op)
    requires Refines(s, l) && op.OpAck?
    ensures SameAnswer(s, l, op)
    ensures Refines(Step(s, op).0, LedgerStep(l, op).0)
  {
    if op.eventId in l.items {
      var it := AckedBy(l.items[op.eventId], op.worker, op.msg, UnixMilli(op.now));
      SetRemnant(s.order, s.items, l.order, l.items, op.eventId, it);
      assert l.items[op.eventId := it].Keys == l.items.Keys;
    }
  }

  lemma StepRefines(s: State, l: Ledger, op: Op)
    requires Refines(s, l)
    ensures SameAnswer(s, l, op)
    ensures Refines(Step(s, op).0, LedgerStep(l, op).0)
  {
    match op
    case OpEnqueue(it) => EnqueueRefines(s, l, it);
    case OpPoll(w, e, n, now) => if w != "" { PollRefines(s, l, w, e, n, now); }
    case OpAck(_, _, _, _, _) => AckRefines(s, l, op);
  }

  /** After any run from an empty queue, with any capacity, the queue still refines the
      ledger that served the same requests, and it answers the next request alike. */
  lemma {:induction false} PruningUnobservable(lease: int, maxItems: nat, ops: seq<Op>, next: Op)
    ensures var s := After(Empty(lease, maxItems), ops);
            var l := LedgerAfter(Ledger([], map[], Empty(lease, maxItems).lease), ops);
            Refines(s, l) && SameAnswer(s, l, next)
  {
    var s, l := After(Empty(lease, maxItems), ops), LedgerAfter(Ledger([], map[], Empty(lease, maxItems).lease), ops);
    if ops == [] {
    } else {
      var init := ops[..|ops| - 1];
      PruningUnobservable(lease, maxItems, init, next);
      StepRefines(After(Empty(lease, maxItems), init),
                  LedgerAfter(Ledger([], map[], Empty(lease, maxItems).lease), init), ops[|ops| - 1]);
    }
    StepRefines(s, l, next);
  }
}
