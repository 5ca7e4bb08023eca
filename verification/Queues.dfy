/** The queue as the program keeps it: three fields updated in place. */
module Queues {
  import opened Times
  import opened Lists
  import opened QueueSpec

  lemma {:induction false} ReadyIdsPrefix(order: seq<string>, n: nat, items: map<string, Item>, epoch: nat, nowMs: int)
    requires n <= |order|
    ensures ReadyIds(order[..n], items, epoch, nowMs) <= ReadyIds(order, items, epoch, nowMs)
    decreases |order|
  {
    if n < |order| {
      ReadyIdsPrefix(order[..|order| - 1], n, items, epoch, nowMs);
      assert order[..|order| - 1][..n] == order[..n];
    } else {
      assert order[..n] == order;
    }
  }

  lemma GrantNone(items: map<string, Item>, worker: string, untilMs: int)
    ensures GrantAll(items, [], worker, untilMs) == items
    ensures Pick(items, []) == []
  {
  }

  /** Granting one more id touches that one entry only. */
  lemma GrantStep(items: map<string, Item>, ids: seq<string>, id: string, worker: string, untilMs: int)
    requires forall x :: x in ids ==> x in items
    requires id in items && id !in ids
    ensures var before := GrantAll(items, ids, worker, untilMs);
            var after := GrantAll(items, ids + [id], worker, untilMs);
            && before[id] == items[id]
            && after == before[id := Leased(items[id], worker, untilMs)]
            && Pick(after, ids + [id]) == Pick(before, ids) + [after[id]]
  {
  }

  /** What the loop of `Poll` has done to `s` when it has looked at `i` entries. */
  ghost predicate Scanned(s: State, i: nat, items: map<string, Item>, out: seq<Item>,
                          worker: string, epoch: nat, nowMs: int, untilMs: int)
  {
    && i <= |s.order|
    && var ids := ReadyIds(s.order[..i], s.items, epoch, nowMs);
    && (forall id :: id in ids ==> id in s.items)
    && items == GrantAll(s.items, ids, worker, untilMs)
    && out == Pick(items, ids)
  }

  lemma ScanStart(s: State, worker: string, epoch: nat, nowMs: int, untilMs: int)
    ensures Scanned(s, 0, s.items, [], worker, epoch, nowMs, untilMs)
  {
    GrantNone(s.items, worker, untilMs);
  }

  /** Looking at one more entry leases it if it is ready, and changes nothing otherwise. */
  lemma ScanStep(s: State, i: nat, items: map<string, Item>, out: seq<Item>,
                 worker: string, epoch: nat, nowMs: int, untilMs: int)
    requires Valid(s) && i < |s.order| && Scanned(s, i, items, out, worker, epoch, nowMs, untilMs)
    ensures var id := s.order[i];
            && id in items
            && if Ready(items[id], epoch, nowMs)
               then var it := Leased(items[id], worker, untilMs);
                    Scanned(s, i + 1, items[id := it], out + [it], worker, epoch, nowMs, untilMs)
               else Scanned(s, i + 1, items, out, worker, epoch, nowMs, untilMs)
  {
    var id := s.order[i];
    var ids := ReadyIds(s.order[..i], s.items, epoch, nowMs);
    ReadyIdsStep(s.order, i, s.items, epoch, nowMs);
    GrantStep(s.items, ids, id, worker, untilMs);
  }

  lemma ReadyIdsStep(order: seq<string>, i: nat, items: map<string, Item>, epoch: nat, nowMs: int)
    requires NoDup(order) && i < |order|
    ensures var ids := ReadyIds(order[..i], items, epoch, nowMs);
            && order[i] !in ids
            && ReadyIds(order[..i + 1], items, epoch, nowMs)
               == ids + (if order[i] in items && Ready(items[order[i]], epoch, nowMs) then [order[i]] else [])
  {
    ReadyIdsMembers(order[..i], items, epoch, nowMs);
    assert order[..i + 1][..i] == order[..i];
  }

  /** A scan that ran to the end, or that found enough, is a poll. */
  lemma ScanDone(s: State, i: nat, items: map<string, Item>, out: seq<Item>,
                 worker: string, epoch: nat, limit: int, now: Instant)
    requires Scanned(s, i, items, out, worker, epoch, UnixMilli(now), UnixMilli(now + s.lease))
    requires |out| <= Clamp(limit) && (i == |s.order| || |out| == Clamp(limit))
    requires worker != ""
    ensures QueueSpec.Poll(s, worker, epoch, limit, now) == (s.(items := items), Polled(out))
  {
    var nowMs := UnixMilli(now);
    ReadyIdsPrefix(s.order, i, s.items, epoch, nowMs);
    if i == |s.order| {
      assert s.order[..i] == s.order;
    }
    assert Take(ReadyIds(s.order, s.items, epoch, nowMs), Clamp(limit))
         == ReadyIds(s.order[..i], s.items, epoch, nowMs);
  }

  /** The items left when the entries of `done` have been swept. */
  ghost function Swept(items: map<string, Item>, done: seq<string>): map<string, Item> {
    map id | id in items && !(id in done && items[id].acked) :: items[id]
  }

  lemma SweptStep(order: seq<string>, items: map<string, Item>, i: nat)
    requires NoDup(order) && i < |order| && order[i] in items
    ensures var id := order[i];
            var before := Swept(items, order[..i]);
            var kept := Kept(order[..i], Unacked(items).Keys);
            && id in before && before[id] == items[id]
            && Swept(items, order[..i + 1]) == (if items[id].acked then before - {id} else before)
            && Kept(order[..i + 1], Unacked(items).Keys) == if items[id].acked then kept else kept + [id]
  {
    assert order[..i + 1] == order[..i] + [order[i]];
    KeptSnoc(order[..i], order[i], Unacked(items).Keys);
  }

  lemma SweptAll(order: seq<string>, items: map<string, Item>)
    requires forall id :: id in order <==> id in items
    ensures Swept(items, order) == Unacked(items)
  {
  }

  class Queue {
    var order: seq<string>
    var items: map<string, Item>
    var seen: set<string>
    const lease: int
    const maxItems: nat

    ghost function View(): State
      reads this
    {
      State(order, items, seen, lease, maxItems)
    }

    constructor (lease: int, maxItems: nat)
      ensures View() == Empty(lease, maxItems)
      ensures Valid(View())
    {
      order, items, seen := [], map[], {};
      this.lease := if lease <= 0 then DEFAULT_LEASE else lease;
      this.maxItems := maxItems;
    }

    method Enqueue(it: Item) returns (reply: EnqueueReply)
      requires Valid(View())
      modifies this
      ensures (View(), reply) == QueueSpec.Enqueue(old(View()), it)
    {
      if it.eventId == "" {
        return EnqueueBadInput;
      }
      if it.eventId in seen {
        return Enqueued(false);
      }
      items := items[it.eventId := it];
      order := order + [it.eventId];
      seen := seen + {it.eventId};
      if |order| > maxItems {
        PruneLocked();
      }
      reply := Enqueued(true);
    }

    method PruneLocked()
      requires NoDup(order)
      requires forall id :: id in order <==> id in items
      modifies this`order, this`items
      ensures View() == Prune(old(View()))
    {
      ghost var items0 := items;
      var newOrder := [];
      var i := 0;
      while i < |order|
        invariant 0 <= i <= |order|
        invariant order == old(order)
        invariant newOrder == Kept(order[..i], Unacked(items0).Keys)
        invariant items == Swept(items0, order[..i])
      {
        var id := order[i];
        SweptStep(order, items0, i);
        if id !in items {
        } else if items[id].acked {
          items := items - {id};
        } else {
          newOrder := newOrder + [id];
        }
        i := i + 1;
      }
      SweptAll(order, items0);
      assert order[..i] == order;
      order := newOrder;
    }

    method Poll(worker: string, epoch: nat, limit: int, now: Instant) returns (reply: PollReply)
      requires Valid(View())
      modifies this`items
      ensures (View(), reply) == QueueSpec.Poll(old(View()), worker, epoch, limit, now)
    {
      if worker == "" {
        return PollBadInput;
      }
      var max := limit;
      if limit <= 0 || limit > 512 {
        max := 64;
      }
      ghost var s := View();
      var out, i := Scan(worker, epoch, max, UnixMilli(now), UnixMilli(now + lease));
      ScanDone(s, i, items, out, worker, epoch, limit, now);
      reply := Polled(out);
      assert View() == s.(items := items);
    }

    /** The loop of `Poll`: lease ready items in order until `max` are found or the order is exhausted. */
    method Scan(worker: string, epoch: nat, max: nat, nowMs: int, leaseUntil: int)
      returns (out: seq<Item>, i: nat)
      requires Valid(View())
      modifies this`items
      ensures Scanned(old(View()), i, items, out, worker, epoch, nowMs, leaseUntil)
      ensures |out| <= max && (i == |order| || |out| == max)
    {
      ghost var s := View();
      out, i := [], 0;
      ScanStart(s, worker, epoch, nowMs, leaseUntil);
      while i < |order| && |out| < max
        invariant i <= |order| && |out| <= max
        invariant Scanned(s, i, items, out, worker, epoch, nowMs, leaseUntil)
        decreases |order| - i
      {
        var id := order[i];
        ScanStep(s, i, items, out, worker, epoch, nowMs, leaseUntil);
        if id !in items {
        } else if items[id].acked {
        } else if items[id].tokenEpoch != epoch {
        } else if items[id].worker == "" || items[id].leaseUntilMs <= nowMs {
          items := items[id := items[id].(worker := worker, leaseUntilMs := leaseUntil)];
          out := out + [items[id]];
        }
        i := i + 1;
      }
    }

    method Ack(eventId: string, epoch: nat, worker: string, msg: string, now: Instant) returns (reply: AckReply)
      modifies this`items
      ensures (View(), reply) == QueueSpec.Ack(old(View()), eventId, epoch, worker, msg, now)
    {
      if eventId == "" || worker == "" {
        return AckBadInput;
      }
      if eventId !in items {
        return AckNotFound;
      }
      var it := items[eventId];
      if it.tokenEpoch != epoch {
        return AckConflict(it);
      }
      var nowMs := UnixMilli(now);
      if it.worker != "" && it.worker != worker && it.leaseUntilMs > nowMs && !it.acked {
        return AckConflict(it);
      }
      it := it.(acked := true, ackBy := worker, ackMsg := msg, ackUnixMs := nowMs);
      items := items[eventId := it];
      reply := Acked(it);
    }
  }
}
