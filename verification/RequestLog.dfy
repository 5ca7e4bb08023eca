/** What requests leave in the event history and in the table of sightings. */
module RequestLog {
  import opened Times
  import opened Tokens
  import opened InstanceSpec
  import opened EpochFence
  import opened Tenure
  import opened TokenAnswers
  import QueueSpec
  import QueueRuns

  // ---------------------------------------------------------------- queue requests

  /** An enqueue is recorded exactly when it inserts, with the id and the node of the item. */
  lemma EnqueueLogged(w: World, op: Op)
    requires op.EnqueueItem?
    ensures var it := op.it;
            Step(w, op).log == w.log +
              if it.eventId == "" || it.eventId in w.q.seen then []
              else [QueueEvent(|w.log| + 1, UnixMilli(op.stamp), EnqueueAction, it.eventId, it.nodeId, "")]
  {
  }

  /** A poll is recorded exactly when it hands something out, with its worker. */
  lemma PollLogged(w: World, op: Op)
    requires op.PollItems? && QueueSpec.Valid(w.q)
    ensures Step(w, op).log == w.log +
              if exists id :: QueueRuns.Granting(w.q, OnQueue(op), id)
              then [QueueEvent(|w.log| + 1, UnixMilli(op.now), PollAction, "", "", op.worker)] else []
  {
    if op.worker != "" {
      QueueRuns.GrantIsReply(w.q, OnQueue(op));
      var out := QueueSpec.Poll(w.q, op.worker, op.epoch, op.limit, op.now).1.items;
      if out != [] {
        assert out[0] in out;
        assert QueueRuns.Granting(w.q, OnQueue(op), out[0].eventId);
      }
    }
  }

  /** An acknowledgement is recorded exactly when it succeeds, with its id and worker. */
  lemma AckLogged(w: World, op: Op)
    requires op.AckItem?
    ensures Step(w, op).log == w.log +
              if QueueRuns.Acking(w.q, OnQueue(op), op.eventId)
              then [QueueEvent(|w.log| + 1, UnixMilli(op.now), AckAction, op.eventId, "", op.worker)] else []
  {
  }

  // ---------------------------------------------------------------- token requests

  /** A claim or a renewal that is answered yes ends the history with an event that names the
      node, its epoch and the end of its lease. */
  lemma GrantLogged(w: World, op: Op)
    requires Asks(op) && Named(op) && AnswerOf(w, op).TokenOk?
    ensures var log, end := Step(w, op).log, op.now + op.lease;
            && log != []
            && log[|log| - 1]
               == TokenEvent(|log|, UnixMilli(op.now), if Active(w.tok, op.now) then Renew else Claim, op.node,
                             AnswerOf(w, op).tok.epoch, if end == ZERO_TIME then 0 else UnixMilli(end))
  {
  }

  /** A release that finds the node's lease running ends the history with an event that names
      nobody. */
  lemma ReleaseLogged(w: World, op: Op)
    requires op.ReleaseToken? && Active(w.tok, op.now) && w.tok.holder == op.node
    ensures Step(w, op).log
         == w.log + [TokenEvent(|w.log| + 1, UnixMilli(op.now), Release, "", w.tok.epoch, 0)]
  {
  }

  /** A token request that meets a lease which is over records its end first. */
  lemma ExpiryLogged(w: World, op: Op)
    requires IsTokenRequest(op) && w.tok.holder != "" && w.tok.expiresAt <= op.now
    ensures w.log + [TokenEvent(|w.log| + 1, UnixMilli(op.now), Expire, "", w.tok.epoch, 0)] <= Step(w, op).log
  {
  }

  /** While another node's lease runs nothing that a node asks for is recorded. */
  lemma RefusalNotLogged(w: World, op: Op)
    requires IsTokenRequest(op) && !op.Status? && Active(w.tok, op.now) && w.tok.holder != op.node
    ensures Step(w, op).log == w.log
  {
  }

  // ---------------------------------------------------------------- heartbeats

  function Sender(op: Op): string
    requires op.Heartbeat?
  {
    if op.node == "" then op.from else op.node
  }

  /** The last heartbeat of a node in a run is number `i`. */
  ghost predicate LastHeartbeat(ops: seq<Op>, node: string, i: nat) {
    && i < |ops| && ops[i].Heartbeat? && Sender(ops[i]) == node
    && forall j :: i < j < |ops| && ops[j].Heartbeat? ==> Sender(ops[j]) != node
  }

  /** In every run the table of sightings shows the time of each node's last heartbeat. */
  lemma {:induction false} LastSeenExactly(w: World, ops: seq<Op>, node: string, i: nat)
    requires LastHeartbeat(ops, node, i)
    ensures node in After(w, ops).lastSeen && After(w, ops).lastSeen[node] == ops[i].ts
  {
    var init := ops[..|ops| - 1];
    if i < |init| {
      assert LastHeartbeat(init, node, i);
      LastSeenExactly(w, init, node, i);
      StepKeepsSighting(After(w, init), ops[|ops| - 1], node);
    }
  }

  lemma StepKeepsSighting(w: World, op: Op, node: string)
    requires op.Heartbeat? ==> Sender(op) != node
    ensures node in Step(w, op).lastSeen <==> node in w.lastSeen
    ensures node in w.lastSeen ==> Step(w, op).lastSeen[node] == w.lastSeen[node]
  {
  }

  /** A heartbeat is always recorded, as it was sent. */
  lemma HeartbeatLogged(w: World, op: Op)
    requires op.Heartbeat?
    ensures Step(w, op).log
         == w.log + [HeartbeatEvent(|w.log| + 1, UnixMilli(op.ts), op.from, op.node, op.site, op.role)]
  {
  }
}
