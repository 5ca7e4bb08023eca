/** Queue requests read the token epoch in one critical section and use it in a later one.
    The fence must hold under every interleaving of such requests. */
module EpochFence {
  import opened Times
  import opened Tokens
  import opened InstanceSpec
  import QueueSpec
  import QueueRuns
  import Tenure

  /** A request between its two critical sections. */
  datatype Pending =
    | PendingPoll(epoch: nat, worker: string, limit: int, now: Instant)
    | PendingAck(epoch: nat, eventId: string, worker: string, msg: string, now: Instant)

  datatype Sys = Sys(w: World, pending: map<nat, Pending>)

  datatype Act =
    | Direct(op: Op)
    | BeginPoll(rid: nat, at: Instant, now: Instant, worker: string, limit: int)
    | BeginAck(rid: nat, at: Instant, now: Instant, eventId: string, worker: string, msg: string)
    | Finish(rid: nat, at: Instant)

  /** Polls and acknowledgements reach the queue through `Finish` only. */
  ghost predicate Enabled(s: Sys, act: Act) {
    match act
    case Direct(op) => !op.PollItems? && !op.AckItem?
    case BeginPoll(rid, _, _, _, _) => rid !in s.pending
    case BeginAck(rid, _, _, _, _, _) => rid !in s.pending
    case Finish(rid, _) => rid in s.pending
  }

  ghost function QueueOp(p: Pending, at: Instant): Op {
    match p
    case PendingPoll(epoch, worker, limit, now) => PollItems(at, worker, epoch, limit, now)
    case PendingAck(epoch, id, worker, msg, now) => AckItem(at, id, epoch, worker, msg, now)
  }

  /** One critical section. A section that is not enabled is never entered. */
  ghost function SysStep(s: Sys, act: Act): Sys {
    if !Enabled(s, act) then s else
    match act
    case Direct(op) => s.(w := Step(s.w, op))
    case BeginPoll(rid, at, now, worker, limit) =>
      var w' := TokenStatus(s.w, at, now).0;
      Sys(w', s.pending[rid := PendingPoll(w'.tok.epoch, worker, limit, now)])
    case BeginAck(rid, at, now, id, worker, msg) =>
      var w' := TokenStatus(s.w, at, now).0;
      Sys(w', s.pending[rid := PendingAck(w'.tok.epoch, id, worker, msg, now)])
    case Finish(rid, at) => Sys(Step(s.w, QueueOp(s.pending[rid], at)), s.pending - {rid})
  }

  ghost function SysAfter(s: Sys, acts: seq<Act>): Sys {
    if acts == [] then s else SysStep(SysAfter(s, acts[..|acts| - 1]), acts[|acts| - 1])
  }

  // ---------------------------------------------------------------- where an epoch comes from

  /** Act number `k` began request `rid` while `epoch` was the current epoch. */
  ghost predicate ReadAt(w: World, acts: seq<Act>, k: nat, rid: nat, epoch: nat) {
    && k < |acts|
    && (acts[k].BeginPoll? || acts[k].BeginAck?) && acts[k].rid == rid
    && Enabled(SysAfter(Sys(w, map[]), acts[..k]), acts[k])
    && SysAfter(Sys(w, map[]), acts[..k + 1]).w.tok.epoch == epoch
  }

  /** The epoch a waiting request carries was current when that request read it. */
  lemma {:induction false} PendingEpochWasCurrent(w: World, acts: seq<Act>, rid: nat) returns (k: nat)
    requires rid in SysAfter(Sys(w, map[]), acts).pending
    ensures ReadAt(w, acts, k, rid, SysAfter(Sys(w, map[]), acts).pending[rid].epoch)
  {
    assert acts != [];
    var init, last := acts[..|acts| - 1], acts[|acts| - 1];
    var s := SysAfter(Sys(w, map[]), init);
    if (last.BeginPoll? || last.BeginAck?) && last.rid == rid && rid !in s.pending {
      k := |acts| - 1;
      assert acts[..k + 1] == acts && acts[..k] == init;
    } else {
      k := PendingEpochWasCurrent(w, init, rid);
      assert init[..k + 1] == acts[..k + 1] && init[..k] == acts[..k];
    }
  }

  lemma {:induction false} SysValid(s: Sys, acts: seq<Act>)
    requires QueueSpec.Valid(s.w.q)
    ensures QueueSpec.Valid(SysAfter(s, acts).w.q)
  {
    if acts == [] {
    } else {
      var init, last := acts[..|acts| - 1], acts[|acts| - 1];
      SysValid(s, init);
      var s' := SysAfter(s, init);
      if Enabled(s', last) {
        match last
        case Direct(op) => QueueStaysValid(s'.w, op);
        case BeginPoll(_, at, now, _, _) => StatusEvolves(s'.w, at, now);
        case BeginAck(_, at, now, _, _, _) => StatusEvolves(s'.w, at, now);
        case Finish(rid, at) => QueueStaysValid(s'.w, QueueOp(s'.pending[rid], at));
      }
    }
  }

  lemma QueueStaysValid(w: World, op: Op)
    requires QueueSpec.Valid(w.q)
    ensures QueueSpec.Valid(Step(w, op).q)
  {
    StepOnQueue(w, op);
    if op.EnqueueItem? || op.PollItems? || op.AckItem? {
      QueueRuns.StepValid(w.q, OnQueue(op));
    }
  }

  /** Whatever interleaves, a poll hands out and an acknowledgement closes only items whose
      epoch was current when that request read it. */
  lemma OnlyCurrentEpochsServed(w: World, acts: seq<Act>, rid: nat, at: Instant) returns (k: nat)
    requires QueueSpec.Valid(w.q)
    requires rid in SysAfter(Sys(w, map[]), acts).pending
    ensures var s := SysAfter(Sys(w, map[]), acts);
            var p := s.pending[rid];
            && ReadAt(w, acts, k, rid, p.epoch)
            && (p.PendingPoll? ==>
                  var r := QueuePoll(s.w, at, p.worker, p.epoch, p.limit, p.now).1;
                  r.Polled? ==> forall it :: it in r.items ==> it.tokenEpoch == p.epoch)
            && (p.PendingAck? ==>
                  var r := QueueAck(s.w, at, p.eventId, p.epoch, p.worker, p.msg, p.now).1;
                  r.Acked? ==> r.item.tokenEpoch == p.epoch)
  {
    SysValid(Sys(w, map[]), acts);
    k := PendingEpochWasCurrent(w, acts, rid);
  }

  // ---------------------------------------------------------------- the fence

  /** Epoch `e` is over and no waiting request still carries it. */
  ghost predicate Fenced(s: Sys, e: nat) {
    e < s.w.tok.epoch && forall rid :: rid in s.pending ==> s.pending[rid].epoch != e
  }

  lemma StatusEvolves(w: World, at: Instant, now: Instant)
    ensures TokenStatus(w, at, now).0.tok.epoch == w.tok.epoch
    ensures TokenStatus(w, at, now).0.q == w.q
  {
  }

  lemma FenceStays(s: Sys, act: Act, e: nat)
    requires Fenced(s, e)
    ensures Fenced(SysStep(s, act), e)
  {
    match act
    case Direct(op) => Tenure.StepEvolves(s.w, op);
    case BeginPoll(_, at, now, _, _) => StatusEvolves(s.w, at, now);
    case BeginAck(_, at, now, _, _, _) => StatusEvolves(s.w, at, now);
    case Finish(rid, at) =>
      if rid in s.pending {
        Tenure.StepEvolves(s.w, QueueOp(s.pending[rid], at));
      }
  }

  /** The part of a request that concerns the queue. */
  ghost function OnQueue(op: Op): QueueRuns.Op
    requires op.EnqueueItem? || op.PollItems? || op.AckItem?
  {
    match op
    case EnqueueItem(_, _, it) => QueueRuns.OpEnqueue(it)
    case PollItems(_, worker, epoch, limit, now) => QueueRuns.OpPoll(worker, epoch, limit, now)
    case AckItem(_, id, epoch, worker, msg, now) => QueueRuns.OpAck(id, epoch, worker, msg, now)
  }

  lemma StepOnQueue(w: World, op: Op)
    ensures Step(w, op).q
         == if op.EnqueueItem? || op.PollItems? || op.AckItem? then QueueRuns.Step(w.q, OnQueue(op)).0 else w.q
  {
  }

  // ---------------------------------------------------------------- who can still serve an old item

  /** A waiting request could hand out or acknowledge this item as it is now. */
  ghost predicate CanServe(p: Pending, id: string, it: QueueSpec.Item) {
    && p.worker != "" && !it.acked && it.tokenEpoch == p.epoch
    && match p
       case PendingPoll(epoch, _, _, now) => QueueSpec.Ready(it, epoch, UnixMilli(now))
       case PendingAck(_, eventId, worker, _, now) =>
         eventId == id && !QueueSpec.LeaseBlocks(it, worker, UnixMilli(now))
  }

  /** The waiting request `rid`, finished now, hands out or acknowledges item `id`. */
  ghost predicate Serves(s: Sys, rid: nat, id: string) {
    rid in s.pending &&
    var op := OnQueue(QueueOp(s.pending[rid], 0));
    QueueRuns.Granting(s.w.q, op, id) || QueueRuns.Acking(s.w.q, op, id)
  }

  lemma ServesOnlyIfCan(s: Sys, rid: nat, id: string)
    requires QueueSpec.Valid(s.w.q) && id in s.w.q.items && !s.w.q.items[id].acked && Serves(s, rid, id)
    ensures CanServe(s.pending[rid], id, s.w.q.items[id])
  {
    var op := OnQueue(QueueOp(s.pending[rid], 0));
    if op.OpAck? {
      QueueRuns.AckingIff(s.w.q, op, id);
    }
  }

  /** A poll that finds an item ready hands out some item of its epoch; the limit may spare
      this one. */
  lemma CanServeServes(s: Sys, rid: nat, id: string) returns (id': string)
    requires QueueSpec.Valid(s.w.q) && id in s.w.q.items && rid in s.pending
    requires CanServe(s.pending[rid], id, s.w.q.items[id])
    ensures Serves(s, rid, id') && id' in Unserved(s, s.w.q.items[id].tokenEpoch)
  {
    var op := OnQueue(QueueOp(s.pending[rid], 0));
    if op.OpAck? {
      QueueRuns.AckingIff(s.w.q, op, id);
      id' := id;
    } else {
      var ms := UnixMilli(op.now);
      QueueSpec.ReadyIdsMembers(s.w.q.order, s.w.q.items, op.epoch, ms);
      assert id in QueueSpec.ReadyIds(s.w.q.order, s.w.q.items, op.epoch, ms);
      var ids := QueueSpec.Grants(s.w.q, op.epoch, op.limit, op.now);
      id' := ids[0];
      assert id' in ids;
    }
  }

  /** The un-acknowledged items of an epoch. */
  ghost function Unserved(s: Sys, e: nat): set<string> {
    set id | id in s.w.q.items && !s.w.q.items[id].acked && s.w.q.items[id].tokenEpoch == e
  }

  /** No waiting request can serve this item of an epoch that is over. */
  ghost predicate Harmless(s: Sys, id: string) {
    && QueueSpec.Valid(s.w.q)
    && id in s.w.q.items && !s.w.q.items[id].acked && s.w.q.items[id].tokenEpoch < s.w.tok.epoch
    && forall rid :: rid in s.pending ==> !CanServe(s.pending[rid], id, s.w.q.items[id])
  }

  lemma HarmlessDirect(s: Sys, op: Op, id: string)
    requires Harmless(s, id) && !op.PollItems? && !op.AckItem?
    ensures Harmless(s.(w := Step(s.w, op)), id) && Step(s.w, op).q.items[id] == s.w.q.items[id]
  {
    StepOnQueue(s.w, op);
    Tenure.StepEvolves(s.w, op);
    if op.EnqueueItem? {
      QueueRuns.StepValid(s.w.q, OnQueue(op));
      QueueRuns.StepKeepsItem(s.w.q, OnQueue(op), id);
    }
  }

  lemma HarmlessFinish(s: Sys, rid: nat, at: Instant, id: string)
    requires Harmless(s, id) && rid in s.pending
    ensures Harmless(SysStep(s, Finish(rid, at)), id)
    ensures SysStep(s, Finish(rid, at)).w.q.items[id] == s.w.q.items[id]
  {
    var op := QueueOp(s.pending[rid], at);
    if Serves(s, rid, id) {
      ServesOnlyIfCan(s, rid, id);
    }
    assert OnQueue(op) == OnQueue(QueueOp(s.pending[rid], 0));
    StepOnQueue(s.w, op);
    Tenure.StepEvolves(s.w, op);
    QueueRuns.StepValid(s.w.q, OnQueue(op));
    QueueRuns.StepKeepsItem(s.w.q, OnQueue(op), id);
  }

  lemma HarmlessStep(s: Sys, act: Act, id: string)
    requires Harmless(s, id)
    ensures Harmless(SysStep(s, act), id) && SysStep(s, act).w.q.items[id] == s.w.q.items[id]
  {
    if Enabled(s, act) {
      match act
      case Direct(op) => HarmlessDirect(s, op, id);
      case BeginPoll(_, at, now, _, _) => StatusEvolves(s.w, at, now);
      case BeginAck(_, at, now, _, _, _) => StatusEvolves(s.w, at, now);
      case Finish(rid, at) => HarmlessFinish(s, rid, at, id);
    }
  }

  /** An item of an epoch that is over stays as it is for ever when no waiting request can
      serve it: no interleaving ever leases, acknowledges or prunes it. */
  lemma {:induction false} HarmlessFrozen(s: Sys, acts: seq<Act>, id: string)
    requires Harmless(s, id)
    ensures Harmless(SysAfter(s, acts), id) && SysAfter(s, acts).w.q.items[id] == s.w.q.items[id]
  {
    if acts == [] {
    } else {
      HarmlessFrozen(s, acts[..|acts| - 1], id);
      HarmlessStep(SysAfter(s, acts[..|acts| - 1]), acts[|acts| - 1], id);
    }
  }

  /** In some continuation an item of epoch `e` that is queued now is handed out or acknowledged. */
  ghost predicate ServedLater(s: Sys, e: nat) {
    exists acts, rid, id :: id in Unserved(s, e) && Serves(SysAfter(s, acts), rid, id)
  }

  /** Some waiting request can serve one of these items now. */
  ghost predicate ServableNow(s: Sys, e: nat) {
    exists rid, id :: rid in s.pending && id in Unserved(s, e) && CanServe(s.pending[rid], id, s.w.q.items[id])
  }

  /** Of the items of an epoch that is over, some is ever handed out or acknowledged if and only
      if a request that is waiting now can serve one now. */
  lemma OldEpochServedExactly(s: Sys, e: nat)
    requires QueueSpec.Valid(s.w.q) && e < s.w.tok.epoch
    ensures ServedLater(s, e) <==> ServableNow(s, e)
  {
    if rid, id :| rid in s.pending && id in Unserved(s, e) && CanServe(s.pending[rid], id, s.w.q.items[id]) {
      var id' := CanServeServes(s, rid, id);
      assert SysAfter(s, []) == s;
      assert Serves(SysAfter(s, []), rid, id');
    } else if acts, rid, id :| id in Unserved(s, e) && Serves(SysAfter(s, acts), rid, id) {
      HarmlessFrozen(s, acts, id);
      ServesOnlyIfCan(SysAfter(s, acts), rid, id);
      assert false;
    }
  }

  /** In particular, once the readers of an epoch that is over have finished its items are frozen. */
  lemma {:induction false} FencedItemFrozen(s: Sys, acts: seq<Act>, id: string)
    requires QueueSpec.Valid(s.w.q) && id in s.w.q.items && !s.w.q.items[id].acked
    requires Fenced(s, s.w.q.items[id].tokenEpoch)
    ensures var s' := SysAfter(s, acts);
            && QueueSpec.Valid(s'.w.q) && Fenced(s', s.w.q.items[id].tokenEpoch)
            && id in s'.w.q.items && s'.w.q.items[id] == s.w.q.items[id]
  {
    HarmlessFrozen(s, acts, id);
    if acts == [] {
    } else {
      var init := acts[..|acts| - 1];
      FencedItemFrozen(s, init, id);
      FenceStays(SysAfter(s, init), acts[|acts| - 1], s.w.q.items[id].tokenEpoch);
    }
  }

  /** Such a request exists whenever a poll that found an item ready is overtaken by the claim
      that opens the next epoch: it still hands out an item of the old one. */
  lemma LateReaderServesOldEpoch(s: Sys, begin: Act, claim: Op, id: string) returns (id': string)
    requires QueueSpec.Valid(s.w.q) && begin.BeginPoll? && begin.rid !in s.pending && begin.worker != ""
    requires id in s.w.q.items && QueueSpec.Ready(s.w.q.items[id], s.w.tok.epoch, UnixMilli(begin.now))
    requires claim.ClaimToken? && Expired(SysStep(s, begin).w.tok, claim.now)
    ensures var s' := SysStep(SysStep(s, begin), Direct(claim));
            && s'.w.tok.epoch == s.w.tok.epoch + 1
            && id' in Unserved(s', s.w.tok.epoch) && Serves(s', begin.rid, id')
  {
    StatusEvolves(s.w, begin.at, begin.now);
    var s1 := SysStep(s, begin);
    StepOnQueue(s1.w, claim);
    var s' := SysStep(s1, Direct(claim));
    assert s'.w.q == s.w.q && s'.pending == s1.pending;
    id' := CanServeServes(s', begin.rid, id);
  }
}
