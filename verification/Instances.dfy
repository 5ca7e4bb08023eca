/** The instance as the program keeps it: fields updated in place under one lock.
    `at` is the clock read under the lock, `now` the clock the caller read before. */
module Instances {
  import opened Times
  import opened Lists
  import opened Tokens
  import opened InstanceSpec
  import QueueSpec
  import Queues
  import QueueRuns

  /** The events after number `after` among the first `n` of the retained ones. */
  ghost function Found(log: seq<Event>, max: nat, after: nat, n: nat): seq<Event>
    requires n <= |Retained(log, max)|
  {
    var base := |log| - |Retained(log, max)|;
    var lo := Max(after, base);
    if base + n <= lo then [] else log[lo..base + n]
  }

  lemma FoundStep(log: seq<Event>, max: nat, after: nat, n: nat)
    requires Numbered(log) && n < |Retained(log, max)|
    ensures var ev := Retained(log, max)[n];
            Found(log, max, after, n + 1) == Found(log, max, after, n) + (if ev.seqNo > after then [ev] else [])
  {
  }

  lemma DeliveryIsSlice(log: seq<Event>, max: nat, after: nat, limit: int)
    ensures var lo := Max(after, |log| - |Retained(log, max)|);
            Delivery(log, max, after, limit) == if lo >= |log| then [] else log[lo..Min(lo + PollLimit(limit), |log|)]
  {
  }

  class Instance {
    var lastAccess: Instant
    var lastSeen: map<string, Instant>
    var seqNo: nat
    var events: seq<Event>
    const maxEvents: nat
    var tok: Token
    const q: Queues.Queue
    /** The whole history, of which `events` keeps the end. */
    ghost var log: seq<Event>

    ghost predicate Valid()
      reads this, q
    {
      && QueueSpec.Valid(q.View())
      && seqNo == |log|
      && events == Retained(log, maxEvents)
      && Numbered(log)
    }

    ghost function View(): World
      reads this, q
    {
      World(tok, log, q.View(), lastSeen, lastAccess)
    }

    constructor (at: Instant)
      ensures Valid() && fresh(q)
      ensures View() == New(at) && maxEvents == MAX_EVENTS
    {
      lastAccess, lastSeen := at, map[];
      seqNo, events, maxEvents := 0, [], MAX_EVENTS;
      tok := NO_TOKEN;
      q := new Queues.Queue(60 * SECOND, QueueSpec.DEFAULT_MAX_ITEMS);
      log := [];
    }

    method Touch(at: Instant)
      requires Valid()
      modifies this`lastAccess
      ensures Valid() && View() == old(View()).(lastAccess := at)
    {
      lastAccess := at;
    }

    method RecordHeartbeat(at: Instant, from: string, node: string, site: string, role: string, ts: Instant)
      requires Valid()
      modifies this
      ensures Valid() && View() == InstanceSpec.RecordHeartbeat(old(View()), at, from, node, site, role, ts)
    {
      lastAccess := at;
      var key := node;
      if key == "" {
        key := from;
      }
      lastSeen := lastSeen[key := ts];
      AppendEvent(HeartbeatEvent(seqNo + 1, UnixMilli(ts), from, node, site, role));
    }

    method TokenStatus(at: Instant, now: Instant) returns (reply: TokenReply)
      requires Valid()
      modifies this
      ensures Valid() && (View(), reply) == InstanceSpec.TokenStatus(old(View()), at, now)
    {
      lastAccess := at;
      ExpireIfNeeded(now);
      reply := TokenOk(tok);
    }

    method TokenClaim(at: Instant, now: Instant, node: string, lease: int) returns (reply: TokenReply)
      requires Valid()
      modifies this
      ensures Valid() && (View(), reply) == InstanceSpec.TokenClaim(old(View()), at, now, node, lease)
    {
      lastAccess := at;
      ExpireIfNeeded(now);
      if tok.holder == "" {
        tok := tok.(epoch := tok.epoch + 1);
        tok := tok.(holder := node);
        tok := tok.(issuedAt := now);
        tok := tok.(expiresAt := now + lease);
        RecordTokenEvent(now, Claim);
        return TokenOk(tok);
      }
      if tok.holder == node {
        tok := tok.(expiresAt := now + lease);
        RecordTokenEvent(now, Renew);
        return TokenOk(tok);
      }
      reply := TokenConflict(tok);
    }

    method TokenRenew(at: Instant, now: Instant, node: string, lease: int) returns (reply: TokenReply)
      requires Valid()
      modifies this
      ensures Valid() && (View(), reply) == InstanceSpec.TokenRenew(old(View()), at, now, node, lease)
    {
      lastAccess := at;
      ExpireIfNeeded(now);
      if tok.holder == "" {
        return TokenNotHeld(tok);
      }
      if tok.holder != node {
        return TokenConflict(tok);
      }
      tok := tok.(expiresAt := now + lease);
      RecordTokenEvent(now, Renew);
      reply := TokenOk(tok);
    }

    method TokenRelease(at: Instant, now: Instant, node: string) returns (reply: TokenReply)
      requires Valid()
      modifies this
      ensures Valid() && (View(), reply) == InstanceSpec.TokenRelease(old(View()), at, now, node)
    {
      lastAccess := at;
      ExpireIfNeeded(now);
      if tok.holder == "" {
        return TokenOk(tok);
      }
      if tok.holder != node {
        return TokenConflict(tok);
      }
      tok := tok.(holder := "", issuedAt := ZERO_TIME, expiresAt := ZERO_TIME);
      RecordTokenEvent(now, Release);
      reply := TokenOk(tok);
    }

    method ExpireIfNeeded(now: Instant)
      requires Valid()
      modifies this`tok, this`seqNo, this`events, this`log
      ensures Valid() && View() == InstanceSpec.ExpireIfNeeded(old(View()), now)
    {
      if tok.holder != "" && !(now < tok.expiresAt) {
        tok := tok.(holder := "", issuedAt := ZERO_TIME, expiresAt := ZERO_TIME);
        RecordTokenEvent(now, Expire);
      }
    }

    method RecordTokenEvent(now: Instant, action: TokenAction)
      requires Valid()
      modifies this`seqNo, this`events, this`log
      ensures Valid() && View() == Record(old(View()), now, action)
    {
      var expiresMs := 0;
      if tok.expiresAt != ZERO_TIME {
        expiresMs := UnixMilli(tok.expiresAt);
      }
      AppendEvent(TokenEvent(seqNo + 1, UnixMilli(now), action, tok.holder, tok.epoch, expiresMs));
    }

    method QueueEnqueue(at: Instant, stamp: Instant, it: QueueSpec.Item) returns (reply: QueueSpec.EnqueueReply)
      requires Valid()
      modifies this, q
      ensures View() == InstanceSpec.QueueEnqueue(old(View()), at, stamp, it).0
      ensures reply == InstanceSpec.QueueEnqueue(old(View()), at, stamp, it).1
      ensures Valid()
    {
      QueueRuns.EnqueueValid(q.View(), it);
      lastAccess := at;
      reply := q.Enqueue(it);
      if reply == QueueSpec.Enqueued(true) {
        AppendEvent(QueueEvent(seqNo + 1, UnixMilli(stamp), EnqueueAction, it.eventId, it.nodeId, ""));
      }
    }

    method QueuePoll(at: Instant, worker: string, epoch: nat, limit: int, now: Instant)
      returns (reply: QueueSpec.PollReply)
      requires Valid()
      modifies this, q
      ensures View() == InstanceSpec.QueuePoll(old(View()), at, worker, epoch, limit, now).0
      ensures reply == InstanceSpec.QueuePoll(old(View()), at, worker, epoch, limit, now).1
      ensures Valid()
    {
      QueueRuns.StepValid(q.View(), QueueRuns.OpPoll(worker, epoch, limit, now));
      lastAccess := at;
      reply := q.Poll(worker, epoch, limit, now);
      if reply.Polled? && |reply.items| > 0 {
        AppendEvent(QueueEvent(seqNo + 1, UnixMilli(now), PollAction, "", "", worker));
      }
    }

    method QueueAck(at: Instant, eventId: string, epoch: nat, worker: string, msg: string, now: Instant)
      returns (reply: QueueSpec.AckReply)
      requires Valid()
      modifies this, q
      ensures View() == InstanceSpec.QueueAck(old(View()), at, eventId, epoch, worker, msg, now).0
      ensures reply == InstanceSpec.QueueAck(old(View()), at, eventId, epoch, worker, msg, now).1
      ensures Valid()
    {
      QueueRuns.StepValid(q.View(), QueueRuns.OpAck(eventId, epoch, worker, msg, now));
      lastAccess := at;
      reply := q.Ack(eventId, epoch, worker, msg, now);
      if reply.Acked? {
        AppendEvent(QueueEvent(seqNo + 1, UnixMilli(now), AckAction, eventId, "", worker));
      }
    }

    method Poll(at: Instant, after: nat, limit: int) returns (latest: nat, out: seq<Event>)
      requires Valid()
      modifies this`lastAccess
      ensures Valid() && View() == old(View()).(lastAccess := at)
      ensures latest == |log| && out == Delivery(log, maxEvents, after, limit)
    {
      lastAccess := at;
      var max := limit;
      if limit <= 0 || limit > 512 {
        max := 128;
      }
      latest := seqNo;
      out := Select(events, log, maxEvents, after, max);
      DeliveryIsSlice(log, maxEvents, after, limit);
    }

    /** The loop of `Poll`: the first `max` of `events`, the end of `log`, numbered above `after`. */
    static method Select(events: seq<Event>, ghost log: seq<Event>, ghost capacity: nat, after: nat, max: nat)
      returns (out: seq<Event>)
      requires Numbered(log) && events == Retained(log, capacity)
      ensures var lo := Max(after, |log| - |events|);
              out == if lo >= |log| then [] else log[lo..Min(lo + max, |log|)]
    {
      out := [];
      var i := 0;
      while i < |events| && |out| < max
        invariant 0 <= i <= |events| && |out| <= max
        invariant out == Found(log, capacity, after, i)
      {
        FoundStep(log, capacity, after, i);
        if events[i].seqNo > after {
          out := out + [events[i]];
        }
        i := i + 1;
      }
    }

    method AppendEvent(ev: Event)
      requires Valid() && ev.seqNo == seqNo + 1
      modifies this`seqNo, this`events, this`log
      ensures Valid() && log == old(log) + [ev]
    {
      seqNo := seqNo + 1;
      events := events + [ev];
      log := log + [ev];
      if |events| > maxEvents {
        events := events[|events| - maxEvents..];
      }
    }
  }
}
