/** Who is served when: what polls hand out, what acknowledgements record and how far the queue
    grows, in terms of the items and the requests alone. */
module QueueService {
  import opened Times
  import opened Lists
  import opened QueueSpec
  import opened QueueRuns

  // ---------------------------------------------------------------- the order of service

  ghost predicate Before(order: seq<string>, x: string, y: string) {
    exists i, j :: 0 <= i < j < |order| && order[i] == x && order[j] == y
  }

  lemma BeforeSnoc(order: seq<string>, z: string)
    ensures forall x, y :: Before(order, x, y) ==> Before(order + [z], x, y)
    ensures forall x :: x in order ==> Before(order + [z], x, z)
  {
    var more := order + [z];
    forall x, y | Before(order, x, y)
      ensures Before(more, x, y)
    {
      var i, j :| 0 <= i < j < |order| && order[i] == x && order[j] == y;
      assert more[i] == x && more[j] == y;
    }
    forall x | x in order
      ensures Before(more, x, z)
    {
      var i :| 0 <= i < |order| && order[i] == x;
      assert more[i] == x && more[|order|] == z;
    }
  }

  lemma NotBeforeItself(order: seq<string>, x: string)
    requires NoDup(order)
    ensures !Before(order, x, x)
  {
  }

  ghost predicate InOrder(order: seq<string>, ids: seq<string>) {
    forall a, b :: 0 <= a < b < |ids| ==> Before(order, ids[a], ids[b])
  }

  lemma {:induction false} ReadyInOrder(order: seq<string>, items: map<string, Item>, epoch: nat, nowMs: int)
    ensures InOrder(order, ReadyIds(order, items, epoch, nowMs))
  {
    if order == [] {
    } else {
      var init, last := order[..|order| - 1], order[|order| - 1];
      var ids := ReadyIds(init, items, epoch, nowMs);
      ReadyInOrder(init, items, epoch, nowMs);
      ReadyIdsMembers(init, items, epoch, nowMs);
      BeforeSnoc(init, last);
      assert order == init + [last];
      assert InOrder(order, ids);
    }
  }

  /** How many items a poll with this limit may hand out. */
  function Room(limit: int): nat {
    if 1 <= limit <= 512 then limit else 64
  }

  /** The poll spends its limit on items that stand before `id`. */
  ghost predicate FullBefore(s: State, poll: Op, id: string)
    requires poll.OpPoll? && poll.worker != ""
  {
    var out := Poll(s, poll.worker, poll.epoch, poll.limit, poll.now).1;
    out.Polled? && |out.items| == Room(poll.limit) && forall it :: it in out.items ==> Before(s.order, it.eventId, id)
  }

  lemma TakeHolds(ids: seq<string>, n: nat)
    ensures forall k :: 0 <= k < |ids| && k < n ==> ids[k] in Take(ids, n)
  {
    forall k | 0 <= k < |ids| && k < n
      ensures ids[k] in Take(ids, n)
    {
      assert Take(ids, n)[k] == ids[k];
    }
  }

  lemma TakenOrFull(order: seq<string>, ids: seq<string>, n: nat, id: string)
    requires InOrder(order, ids) && id in ids && id !in Take(ids, n)
    ensures |Take(ids, n)| == n && forall x :: x in Take(ids, n) ==> Before(order, x, id)
  {
    var k :| 0 <= k < |ids| && ids[k] == id;
    TakeHolds(ids, n);
    assert n <= k;
    forall x | x in Take(ids, n)
      ensures Before(order, x, id)
    {
      var a :| 0 <= a < |Take(ids, n)| && Take(ids, n)[a] == x;
      assert ids[a] == x;
    }
  }

  lemma ReplyNames(s: State, poll: Op)
    requires Valid(s) && poll.OpPoll? && poll.worker != ""
    ensures var ids, r := Grants(s, poll.epoch, poll.limit, poll.now),
                          Poll(s, poll.worker, poll.epoch, poll.limit, poll.now).1;
            r.Polled? && |r.items| == |ids| && forall i :: 0 <= i < |ids| ==> r.items[i].eventId == ids[i]
  {
  }

  lemma GrantedNotFull(s: State, poll: Op, id: string)
    requires Valid(s) && Granting(s, poll, id)
    ensures !FullBefore(s, poll, id)
  {
    ReplyNames(s, poll);
    var ids := Grants(s, poll.epoch, poll.limit, poll.now);
    var k :| 0 <= k < |ids| && ids[k] == id;
    var out := Poll(s, poll.worker, poll.epoch, poll.limit, poll.now).1.items;
    assert out[k] in out && out[k].eventId == id;
    NotBeforeItself(s.order, id);
  }

  lemma RefusedFull(s: State, poll: Op, id: string)
    requires Valid(s) && id in s.items && poll.OpPoll? && poll.worker != "" && !Granting(s, poll, id)
    requires Ready(s.items[id], poll.epoch, NowMs(poll))
    ensures FullBefore(s, poll, id)
  {
    var ids := ReadyIds(s.order, s.items, poll.epoch, NowMs(poll));
    ReadyInOrder(s.order, s.items, poll.epoch, NowMs(poll));
    ReadyIdsMembers(s.order, s.items, poll.epoch, NowMs(poll));
    TakenOrFull(s.order, ids, Room(poll.limit), id);
    ReplyNames(s, poll);
  }

  /** A poll hands out an item exactly if the item is not acknowledged, is of the epoch asked
      for, has no live lease, and the limit is not spent on items before it. */
  lemma GrantedExactly(s: State, poll: Op, id: string)
    requires Valid(s) && id in s.items && poll.OpPoll? && poll.worker != ""
    ensures Granting(s, poll, id) <==>
            && !s.items[id].acked && s.items[id].tokenEpoch == poll.epoch
            && (s.items[id].worker == "" || s.items[id].leaseUntilMs <= NowMs(poll))
            && !FullBefore(s, poll, id)
  {
    if Granting(s, poll, id) {
      GrantedNotFull(s, poll, id);
    } else if Ready(s.items[id], poll.epoch, NowMs(poll)) {
      RefusedFull(s, poll, id);
    }
  }

  /** An item that was handed out and not touched since is handed out again, if the limit leaves
      room, exactly when the epochs agree and the lease is over. */
  lemma RedeliveredExactly(s: State, grant: Op, ops: seq<Op>, poll: Op, id: string)
    requires Valid(s) && Granting(s, grant, id) && Untouched(Step(s, grant).0, ops, id)
    requires poll.OpPoll? && poll.worker != ""
    ensures var s1 := After(Step(s, grant).0, ops);
            !FullBefore(s1, poll, id) ==>
              (Granting(s1, poll, id) <==> poll.epoch == grant.epoch && UntilMs(s, grant) <= NowMs(poll))
  {
    var s1 := After(Step(s, grant).0, ops);
    GrantedItem(s, grant, id);
    StepValid(s, grant);
    RunValid(Step(s, grant).0, ops);
    RunKeepsItem(Step(s, grant).0, ops, id);
    GrantedExactly(s1, poll, id);
  }

  lemma InsertedItem(s: State, it: Item)
    requires Valid(s) && it.eventId != "" && it.eventId !in s.seen && !it.acked
    ensures Enqueue(s, it).1 == Enqueued(true)
    ensures var s' := Enqueue(s, it).0;
            && Valid(s') && it.eventId in s'.items && s'.items[it.eventId] == it
            && s'.order != [] && s'.order[|s'.order| - 1] == it.eventId
  {
    EnqueueValid(s, it);
    KeptSnoc(s.order, it.eventId, Unacked(s.items[it.eventId := it]).Keys);
  }

  /** A new item that nobody had is handed out by such a poll exactly when the epochs agree. */
  lemma DeliveredExactly(s: State, it: Item, ops: seq<Op>, poll: Op)
    requires Valid(s) && it.eventId != "" && it.eventId !in s.seen && !it.acked && it.worker == ""
    requires Untouched(Enqueue(s, it).0, ops, it.eventId) && poll.OpPoll? && poll.worker != ""
    ensures var s1 := After(Enqueue(s, it).0, ops);
            !FullBefore(s1, poll, it.eventId) ==> (Granting(s1, poll, it.eventId) <==> poll.epoch == it.tokenEpoch)
  {
    InsertedItem(s, it);
    RunValid(Enqueue(s, it).0, ops);
    RunKeepsItem(Enqueue(s, it).0, ops, it.eventId);
    GrantedExactly(After(Enqueue(s, it).0, ops), poll, it.eventId);
  }

  // ---------------------------------------------------------------- refusals

  /** An enqueue is refused without an id, and changes nothing for an id that was seen before. */
  lemma EnqueueAnswered(s: State, it: Item)
    ensures var (s', r) := Enqueue(s, it);
            && (r.EnqueueBadInput? <==> it.eventId == "")
            && (r == Enqueued(true) <==> it.eventId != "" && it.eventId !in s.seen)
            && (r != Enqueued(true) ==> s' == s)
  {
  }

  /** The item is of another epoch or under the live lease of another worker. */
  predicate Refused(it: Item, ack: Op)
    requires ack.OpAck?
  {
    || it.tokenEpoch != ack.epoch
    || (it.worker != "" && it.worker != ack.worker && NowMs(ack) < it.leaseUntilMs && !it.acked)
  }

  /** An acknowledgement is refused without id or worker, for an unknown id, and for an item of
      another epoch or under the live lease of another worker; then nothing changes. */
  lemma AckAnswered(s: State, ack: Op)
    requires ack.OpAck?
    ensures var (s', r) := Ack(s, ack.eventId, ack.epoch, ack.worker, ack.msg, ack.now);
            var named, known := ack.eventId != "" && ack.worker != "", ack.eventId in s.items;
            && (r.AckBadInput? <==> !named)
            && (r.AckNotFound? <==> named && !known)
            && (r.AckConflict? <==> named && known && Refused(s.items[ack.eventId], ack))
            && (r.AckConflict? ==> r.item == s.items[ack.eventId])
            && (!r.Acked? ==> s' == s)
  {
  }

  // ---------------------------------------------------------------- acknowledgements

  /** A successful acknowledgement records who, when and what message, and changes nothing else. */
  lemma AckRecords(s: State, ack: Op, id: string)
    requires Valid(s) && Acking(s, ack, id)
    ensures var (s', r) := Step(s, ack);
            && id in s.items && s'.items.Keys == s.items.Keys && s'.order == s.order && s'.seen == s.seen
            && r == ReAck(Acked(s'.items[id]))
            && (forall x :: x in s.items && x != id ==> s'.items[x] == s.items[x])
            && s'.items[id]
               == s.items[id].(acked := true, ackBy := ack.worker, ackMsg := ack.msg, ackUnixMs := NowMs(ack))
  {
  }

  /** The item is acknowledged or gone for good. */
  ghost predicate Done(s: State, id: string) {
    id in s.seen && (id in s.items ==> s.items[id].acked)
  }

  lemma StepDone(s: State, op: Op, id: string)
    requires Valid(s) && Done(s, id)
    ensures Done(Step(s, op).0, id) && !Granting(s, op, id)
  {
  }

  lemma {:induction false} RunDone(s: State, ops: seq<Op>, id: string)
    requires Valid(s) && Done(s, id)
    ensures Done(After(s, ops), id)
  {
    if ops == [] {
    } else {
      RunDone(s, ops[..|ops| - 1], id);
      RunValid(s, ops[..|ops| - 1]);
      StepDone(After(s, ops[..|ops| - 1]), ops[|ops| - 1], id);
    }
  }

  /** After a successful acknowledgement nobody is handed the item again. */
  lemma AckedNeverGranted(s: State, ack: Op, id: string, ops: seq<Op>, poll: Op)
    requires Valid(s) && Acking(s, ack, id)
    ensures !Granting(After(Step(s, ack).0, ops), poll, id)
  {
    AckRecords(s, ack, id);
    StepValid(s, ack);
    RunDone(Step(s, ack).0, ops, id);
    RunValid(Step(s, ack).0, ops);
    StepDone(After(Step(s, ack).0, ops), poll, id);
  }

  /** A new queue has nothing and has seen nothing; its lease is the one asked for if positive,
      and one minute otherwise. */
  lemma NewQueueExactly(lease: int, maxItems: nat)
    ensures var s := Empty(lease, maxItems);
            && s.order == [] && s.items == map[] && s.seen == {} && s.maxItems == maxItems
            && s.lease == if 0 < lease then lease else MINUTE
  {
  }

  // ---------------------------------------------------------------- the size of the queue

  /** An insertion drops nothing while the queue is within its capacity, and drops exactly the
      acknowledged items when it would exceed it. */
  lemma InsertionPrunesExactly(s: State, it: Item, id: string)
    requires Valid(s) && it.eventId != "" && it.eventId !in s.seen && id in s.items
    ensures var s' := Enqueue(s, it).0;
            && (id in s'.items <==> |s.order| < s.maxItems || !s.items[id].acked)
            && (id in s'.items ==> s'.items[id] == s.items[id])
  {
  }
}
