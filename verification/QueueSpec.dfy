/** The value and the operations of the per-filesystem work queue: dedupe by event id, worker leases, epoch fencing,
    acknowledgement, and pruning of acknowledged items. */
module QueueSpec {
  import opened Times
  import opened Lists

  datatype Item = Item(
    eventId: string, nodeId: string, tsUnixMs: int, kind: string, summary: string,
    worker: string, leaseUntilMs: int,
    acked: bool, ackBy: string, ackMsg: string, ackUnixMs: int,
    tokenEpoch: nat)

  datatype EnqueueReply = Enqueued(inserted: bool) | EnqueueBadInput
  datatype PollReply = Polled(items: seq<Item>) | PollBadInput
  datatype AckReply = Acked(item: Item) | AckConflict(item: Item) | AckNotFound | AckBadInput

  const DEFAULT_LEASE := 60 * SECOND
  const DEFAULT_MAX_ITEMS := 100_000

  /** The value of a queue. `lease` is in nanoseconds. */
  datatype State = State(
    order: seq<string>, items: map<string, Item>, seen: set<string>,
    lease: int, maxItems: nat)

  /** `order` lists the keys of `items` once each; `seen` remembers every id ever inserted. */
  ghost predicate Valid(s: State) {
    && NoDup(s.order)
    && (forall id :: id in s.order <==> id in s.items)
    && s.items.Keys <= s.seen
    && "" !in s.seen
    && (forall id :: id in s.items ==> s.items[id].eventId == id)
    && 0 < s.lease
  }

  function Empty(lease: int, maxItems: nat): State {
    State([], map[], {}, if lease <= 0 then DEFAULT_LEASE else lease, maxItems)
  }

  predicate Ready(it: Item, epoch: nat, nowMs: int) {
    !it.acked && it.tokenEpoch == epoch && (it.worker == "" || it.leaseUntilMs <= nowMs)
  }

  /** The ids in `order` whose items are ready for a worker, oldest first. */
  ghost function ReadyIds(order: seq<string>, items: map<string, Item>, epoch: nat, nowMs: int): seq<string> {
    if order == [] then []
    else
      var last := order[|order| - 1];
      ReadyIds(order[..|order| - 1], items, epoch, nowMs)
      + (if last in items && Ready(items[last], epoch, nowMs) then [last] else [])
  }

  lemma {:induction false} ReadyIdsMembers(order: seq<string>, items: map<string, Item>, epoch: nat, nowMs: int)
    ensures forall id :: id in ReadyIds(order, items, epoch, nowMs)
                    <==> id in order && id in items && Ready(items[id], epoch, nowMs)
  {
    if order == [] {
    } else {
      ReadyIdsMembers(order[..|order| - 1], items, epoch, nowMs);
      assert order == order[..|order| - 1] + [order[|order| - 1]];
    }
  }

  function Clamp(limit: int): nat {
    if limit <= 0 || limit > 512 then 64 else limit
  }

  /** The ids a poll hands out: the first `Clamp(limit)` ready ones. */
  ghost function Grants(s: State, epoch: nat, limit: int, now: Instant): (r: seq<string>)
    ensures forall id :: id in r ==> id in s.order && id in s.items && Ready(s.items[id], epoch, UnixMilli(now))
  {
    ReadyIdsMembers(s.order, s.items, epoch, UnixMilli(now));
    Take(ReadyIds(s.order, s.items, epoch, UnixMilli(now)), Clamp(limit))
  }

  function Leased(it: Item, worker: string, untilMs: int): Item {
    it.(worker := worker, leaseUntilMs := untilMs)
  }

  ghost function GrantAll(items: map<string, Item>, ids: seq<string>, worker: string, untilMs: int)
    : (r: map<string, Item>)
    ensures r.Keys == items.Keys
  {
    map id | id in items :: if id in ids then Leased(items[id], worker, untilMs) else items[id]
  }

  ghost function Pick(items: map<string, Item>, ids: seq<string>): (r: seq<Item>)
    requires forall id :: id in ids ==> id in items
    ensures |r| == |ids| && forall i :: 0 <= i < |r| ==> r[i] == items[ids[i]]
  {
    seq(|ids|, i requires 0 <= i < |ids| => items[ids[i]])
  }

  ghost function Unacked(items: map<string, Item>): (r: map<string, Item>) {
    map id | id in items && !items[id].acked :: items[id]
  }

  ghost function Prune(s: State): State {
    s.(order := Kept(s.order, Unacked(s.items).Keys), items := Unacked(s.items))
  }

  ghost function Enqueue(s: State, it: Item): (State, EnqueueReply) {
    if it.eventId == "" then (s, EnqueueBadInput)
    else if it.eventId in s.seen then (s, Enqueued(false))
    else
      var s' := s.(order := s.order + [it.eventId], items := s.items[it.eventId := it], seen := s.seen + {it.eventId});
      (if |s'.order| > s.maxItems then Prune(s') else s', Enqueued(true))
  }

  /** Lease the items `ids` to `worker` and reply with them. */
  ghost function HandOut(s: State, ids: seq<string>, worker: string, untilMs: int): (State, PollReply)
    requires forall id :: id in ids ==> id in s.items
  {
    var items := GrantAll(s.items, ids, worker, untilMs);
    (s.(items := items), Polled(Pick(items, ids)))
  }

  ghost function Poll(s: State, worker: string, epoch: nat, limit: int, now: Instant): (State, PollReply) {
    if worker == "" then (s, PollBadInput)
    else HandOut(s, Grants(s, epoch, limit, now), worker, UnixMilli(now + s.lease))
  }

  predicate LeaseBlocks(it: Item, worker: string, nowMs: int) {
    it.worker != "" && it.worker != worker && it.leaseUntilMs > nowMs && !it.acked
  }

  function AckedBy(it: Item, worker: string, msg: string, nowMs: int): Item {
    it.(acked := true, ackBy := worker, ackMsg := msg, ackUnixMs := nowMs)
  }

  function Ack(s: State, eventId: string, epoch: nat, worker: string, msg: string, now: Instant): (State, AckReply) {
    if eventId == "" || worker == "" then (s, AckBadInput)
    else if eventId !in s.items then (s, AckNotFound)
    else if s.items[eventId].tokenEpoch != epoch || LeaseBlocks(s.items[eventId], worker, UnixMilli(now)) then
      (s, AckConflict(s.items[eventId]))
    else
      var it := AckedBy(s.items[eventId], worker, msg, UnixMilli(now));
      (s.(items := s.items[eventId := it]), Acked(it))
  }
}
