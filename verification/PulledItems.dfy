/** Items pulled from peers carry epoch 0: when they are ever handed out. */
module PulledItems {
  import opened Times
  import opened Lists
  import opened InstanceSpec
  import opened EpochFence
  import QueueSpec
  import QueueRuns
  import Tenure

  /** A pending change as a peer reports it. */
  datatype PendingChange = PendingChange(eventId: string, nodeId: string, tsUnixMs: int, kind: string, summary: string)

  /** The queue item built for it: not leased, not acknowledged, and of epoch 0. */
  function PulledItem(x: PendingChange): QueueSpec.Item {
    QueueSpec.Item(x.eventId, x.nodeId, x.tsUnixMs, x.kind, x.summary, "", 0, false, "", "", 0, 0)
  }

  // ---------------------------------------------------------------- clearing the way for one item

  lemma {:induction false} SysAfterConcat(s: Sys, a: seq<Act>, b: seq<Act>)
    ensures SysAfter(s, a + b) == SysAfter(SysAfter(s, a), b)
  {
    if b == [] {
      assert a + b == a;
    } else {
      SysAfterConcat(s, a, b[..|b| - 1]);
      InitOfConcat(a, b);
    }
  }

  lemma {:induction false} Above(ids: set<nat>) returns (n: nat)
    ensures forall x :: x in ids ==> x < n
  {
    if ids == {} {
      n := 0;
    } else {
      var x :| x in ids;
      var m := Above(ids - {x});
      n := Max(m, x + 1);
      assert forall y :: y in ids ==> y == x || y in ids - {x};
    }
  }

  lemma OneAct(s: Sys, a: Act)
    ensures SysAfter(s, [a]) == SysStep(s, a)
  {
    assert [a][..0] == [];
  }

  lemma TwoActs(s: Sys, a: Act, b: Act)
    ensures SysAfter(s, [a, b]) == SysStep(SysStep(s, a), b)
  {
    OneAct(s, a);
    assert [a, b][..1] == [a];
  }

  /** The other items and the token's epoch are as before; the item is closed. */
  ghost predicate Closed(s: Sys, s': Sys, id: string) {
    && QueueSpec.Valid(s'.w.q) && s'.w.tok.epoch == s.w.tok.epoch
    && s'.w.q.items.Keys == s.w.q.items.Keys
    && (id in s'.w.q.items ==> s'.w.q.items[id].acked)
    && forall x :: x in s.w.q.items && x != id ==> s'.w.q.items[x] == s.w.q.items[x]
  }

  lemma AckCloses(s: Sys, rid: nat, id: string)
    requires QueueSpec.Valid(s.w.q) && id in s.w.q.items && rid in s.pending
    requires var p := s.pending[rid];
             && p.PendingAck? && p.eventId == id && p.worker != ""
             && s.w.q.items[id].tokenEpoch == p.epoch
             && !QueueSpec.LeaseBlocks(s.w.q.items[id], p.worker, UnixMilli(p.now))
    ensures Closed(s, SysStep(s, Finish(rid, 0)), id)
  {
    var op := QueueOp(s.pending[rid], 0);
    StepOnQueue(s.w, op);
    QueueRuns.StepValid(s.w.q, OnQueue(op));
  }

  /** An acknowledgement by the item's own worker goes through. */
  lemma AckOne(s: Sys, id: string) returns (acts: seq<Act>)
    requires QueueSpec.Valid(s.w.q) && id in Unserved(s, s.w.tok.epoch)
    ensures Closed(s, SysAfter(s, acts), id)
  {
    var rid := Above(s.pending.Keys);
    var worker := if s.w.q.items[id].worker == "" then "w" else s.w.q.items[id].worker;
    var begin := BeginAck(rid, 0, 0, id, worker, "");
    StatusEvolves(s.w, 0, 0);
    acts := [begin, Finish(rid, 0)];
    TwoActs(s, begin, Finish(rid, 0));
    AckCloses(SysStep(s, begin), rid, id);
  }

  /** The waiting poll `rid`, finished now, hands out item `id`. */
  ghost predicate HandsOut(s: Sys, rid: nat, id: string) {
    rid in s.pending && s.pending[rid].PendingPoll? && Serves(s, rid, id)
  }

  /** With nothing else of its epoch left, a poll with a late enough clock hands the item out. */
  lemma PollAlone(s: Sys, id: string) returns (acts: seq<Act>, rid: nat)
    requires QueueSpec.Valid(s.w.q) && Unserved(s, s.w.tok.epoch) == {id}
    ensures HandsOut(SysAfter(s, acts), rid, id)
  {
    rid := Above(s.pending.Keys);
    assert id in Unserved(s, s.w.tok.epoch);
    var now := s.w.q.items[id].leaseUntilMs * MILLISECOND;
    var begin := BeginPoll(rid, 0, now, "w", 1);
    StatusEvolves(s.w, 0, now);
    acts := [begin];
    OneAct(s, begin);
    var s1 := SysStep(s, begin);
    assert Unserved(s1, s.w.tok.epoch) == Unserved(s, s.w.tok.epoch);
    var id' := CanServeServes(s1, rid, id);
  }

  lemma {:induction false} ServeAmong(s: Sys, id: string) returns (acts: seq<Act>, rid: nat)
    requires QueueSpec.Valid(s.w.q) && id in Unserved(s, s.w.tok.epoch)
    ensures HandsOut(SysAfter(s, acts), rid, id)
    decreases |Unserved(s, s.w.tok.epoch)|
  {
    var others := Unserved(s, s.w.tok.epoch) - {id};
    if others == {} {
      acts, rid := PollAlone(s, id);
    } else {
      var x :| x in others;
      var first := AckOne(s, x);
      var s' := SysAfter(s, first);
      assert Unserved(s', s'.w.tok.epoch) == Unserved(s, s.w.tok.epoch) - {x};
      var later;
      later, rid := ServeAmong(s', id);
      acts := first + later;
      SysAfterConcat(s, first, later);
    }
  }

  // ---------------------------------------------------------------- when an item is ever handed out

  /** In some continuation a poll hands out this item. */
  ghost predicate HandedOutLater(s: Sys, id: string) {
    exists acts, rid :: HandsOut(SysAfter(s, acts), rid, id)
  }

  /** A claim whose clock is past the expiry opens the next epoch and leaves the queue alone. */
  lemma ClaimOpensNext(s: Sys) returns (act: Act)
    ensures SysStep(s, act) == s.(w := SysStep(s, act).w)
    ensures SysStep(s, act).w.q == s.w.q && SysStep(s, act).w.tok.epoch == s.w.tok.epoch + 1
  {
    act := Direct(ClaimToken(0, s.w.tok.expiresAt, "n", 0));
  }

  lemma {:induction false} ServeInTime(s: Sys, id: string) returns (acts: seq<Act>, rid: nat)
    requires QueueSpec.Valid(s.w.q) && id in s.w.q.items && !s.w.q.items[id].acked
    requires s.w.tok.epoch <= s.w.q.items[id].tokenEpoch
    ensures HandsOut(SysAfter(s, acts), rid, id)
    decreases s.w.q.items[id].tokenEpoch - s.w.tok.epoch
  {
    if s.w.tok.epoch == s.w.q.items[id].tokenEpoch {
      acts, rid := ServeAmong(s, id);
    } else {
      var claim := ClaimOpensNext(s);
      var later;
      later, rid := ServeInTime(SysStep(s, claim), id);
      acts := [claim] + later;
      OneAct(s, claim);
      SysAfterConcat(s, [claim], later);
    }
  }

  /** An item whose epoch is not over can always still be handed out, whatever else is ready;
      one of an epoch that is over, once its readers have finished, never. */
  lemma HandedOutExactly(s: Sys, id: string)
    requires QueueSpec.Valid(s.w.q) && id in s.w.q.items && !s.w.q.items[id].acked
    requires forall rid :: rid in s.pending ==> s.pending[rid].epoch != s.w.q.items[id].tokenEpoch
    ensures HandedOutLater(s, id) <==> s.w.tok.epoch <= s.w.q.items[id].tokenEpoch
  {
    if s.w.tok.epoch <= s.w.q.items[id].tokenEpoch {
      var acts, rid := ServeInTime(s, id);
    } else {
      forall acts, rid
        ensures !HandsOut(SysAfter(s, acts), rid, id)
      {
        HarmlessFrozen(s, acts, id);
        if Serves(SysAfter(s, acts), rid, id) {
          ServesOnlyIfCan(SysAfter(s, acts), rid, id);
        }
      }
    }
  }

  // ---------------------------------------------------------------- items pulled from peers

  /** The queue after a change that is new to it was pulled. */
  ghost function Pulled(s: Sys, at: Instant, stamp: Instant, x: PendingChange): Sys {
    SysStep(s, Direct(EnqueueItem(at, stamp, PulledItem(x))))
  }

  lemma PulledIsQueued(s: Sys, at: Instant, stamp: Instant, x: PendingChange)
    requires QueueSpec.Valid(s.w.q) && x.eventId != "" && x.eventId !in s.w.q.seen
    ensures var s1 := Pulled(s, at, stamp, x);
            && QueueSpec.Valid(s1.w.q) && s1.w.tok == s.w.tok && s1.pending == s.pending
            && x.eventId in s1.w.q.items && s1.w.q.items[x.eventId] == PulledItem(x)
            && x.eventId in s1.w.q.seen
  {
    QueueRuns.EnqueueValid(s.w.q, PulledItem(x));
    StepOnQueue(s.w, EnqueueItem(at, stamp, PulledItem(x)));
  }

  /** When no waiting request read the epoch before the first claim, a change pulled from a peer
      is ever handed out if and only if the token was never claimed. */
  lemma PulledItemServedExactly(s: Sys, at: Instant, stamp: Instant, x: PendingChange)
    requires QueueSpec.Valid(s.w.q) && x.eventId != "" && x.eventId !in s.w.q.seen
    requires forall rid :: rid in s.pending ==> s.pending[rid].epoch != 0
    ensures HandedOutLater(Pulled(s, at, stamp, x), x.eventId) <==> s.w.tok.epoch == 0
  {
    PulledIsQueued(s, at, stamp, x);
    HandedOutExactly(Pulled(s, at, stamp, x), x.eventId);
  }

  /** A change pulled from a peer after the first claim is queued and then never handed out:
      its epoch 0 is over. Its id stays in use, so it cannot be queued again either. */
  lemma PulledItemBlocksId(s: Sys, at: Instant, stamp: Instant, x: PendingChange, acts: seq<Act>,
                           again: QueueSpec.Item)
    requires QueueSpec.Valid(s.w.q) && x.eventId != "" && x.eventId !in s.w.q.seen
    requires Fenced(s, 0) && again.eventId == x.eventId
    ensures var s2 := SysAfter(Pulled(s, at, stamp, x), acts);
            && x.eventId in s2.w.q.items && s2.w.q.items[x.eventId] == PulledItem(x)
            && QueueSpec.Enqueue(s2.w.q, again).1 == QueueSpec.Enqueued(false)
  {
    PulledIsQueued(s, at, stamp, x);
    FencedItemFrozen(Pulled(s, at, stamp, x), acts, x.eventId);
  }
}
