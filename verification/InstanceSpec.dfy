/** The value and the operations of one instance: token, work queue and event history. */
module InstanceSpec {
  import opened Times
  import opened Lists
  import opened Tokens
  import QueueSpec

  datatype TokenAction = Claim | Renew | Release | Expire
  datatype QueueAction = EnqueueAction | PollAction | AckAction

  datatype Event =
    | HeartbeatEvent(seqNo: nat, tsMs: int, from: string, nodeId: string, site: string, role: string)
    | TokenEvent(seqNo: nat, tsMs: int, action: TokenAction, holder: string, epoch: nat, expiresMs: int)
    | QueueEvent(seqNo: nat, tsMs: int, queueAction: QueueAction, eventId: string, nodeId: string, worker: string)

  const MAX_EVENTS := 4096

  /** `log` is the whole history. The program keeps only its end; see `Retained`. */
  datatype World = World(
    tok: Token, log: seq<Event>, q: QueueSpec.State,
    lastSeen: map<string, Instant>, lastAccess: Instant)

  function New(at: Instant): World {
    World(NO_TOKEN, [], QueueSpec.Empty(60 * SECOND, QueueSpec.DEFAULT_MAX_ITEMS), map[], at)
  }

  /** The part of a history that a log of capacity `max` still holds. */
  function Retained(log: seq<Event>, max: nat): seq<Event> {
    if |log| > max then log[|log| - max..] else log
  }

  /** Events carry consecutive sequence numbers from 1. */
  ghost predicate Numbered(log: seq<Event>) {
    forall i :: 0 <= i < |log| ==> log[i].seqNo == i + 1
  }

  // ---------------------------------------------------------------- token

  function Record(w: World, now: Instant, action: TokenAction): World {
    w.(log := w.log + [TokenEvent(|w.log| + 1, UnixMilli(now), action, w.tok.holder, w.tok.epoch, ExpiresMs(w.tok))])
  }

  function ExpireIfNeeded(w: World, now: Instant): World {
    if w.tok.holder != "" && !(now < w.tok.expiresAt)
    then Record(w.(tok := Vacated(w.tok)), now, Expire)
    else w
  }

  /** Every token request first notes the access and drops a holder whose lease ran out. */
  function Enter(w: World, at: Instant, now: Instant): World {
    ExpireIfNeeded(w.(lastAccess := at), now)
  }

  function TokenStatus(w: World, at: Instant, now: Instant): (World, TokenReply) {
    var w' := Enter(w, at, now);
    (w', TokenOk(w'.tok))
  }

  function GrantFree(w: World, now: Instant, node: string, lease: int): World {
    Record(w.(tok := Token(node, now, now + lease, w.tok.epoch + 1)), now, Claim)
  }

  function Extend(w: World, now: Instant, lease: int): World {
    Record(w.(tok := w.tok.(expiresAt := now + lease)), now, Renew)
  }

  function TokenClaim(w: World, at: Instant, now: Instant, node: string, lease: int): (World, TokenReply) {
    var w' := Enter(w, at, now);
    if w'.tok.holder == "" then
      var g := GrantFree(w', now, node, lease);
      (g, TokenOk(g.tok))
    else if w'.tok.holder == node then
      var x := Extend(w', now, lease);
      (x, TokenOk(x.tok))
    else (w', TokenConflict(w'.tok))
  }

  function TokenRenew(w: World, at: Instant, now: Instant, node: string, lease: int): (World, TokenReply) {
    var w' := Enter(w, at, now);
    if w'.tok.holder == "" then (w', TokenNotHeld(w'.tok))
    else if w'.tok.holder != node then (w', TokenConflict(w'.tok))
    else
      var x := Extend(w', now, lease);
      (x, TokenOk(x.tok))
  }

  function TokenRelease(w: World, at: Instant, now: Instant, node: string): (World, TokenReply) {
    var w' := Enter(w, at, now);
    if w'.tok.holder == "" then (w', TokenOk(w'.tok))
    else if w'.tok.holder != node then (w', TokenConflict(w'.tok))
    else
      var r := Record(w'.(tok := Vacated(w'.tok)), now, Release);
      (r, TokenOk(r.tok))
  }

  // ---------------------------------------------------------------- heartbeat and queue

  function RecordHeartbeat(w: World, at: Instant, from: string, node: string, site: string, role: string,
        ts: Instant): World {
    w.(lastAccess := at,
       lastSeen := w.lastSeen[if node == "" then from else node := ts],
       log := w.log + [HeartbeatEvent(|w.log| + 1, UnixMilli(ts), from, node, site, role)])
  }

  ghost function QueueEnqueue(w: World, at: Instant, stamp: Instant, it: QueueSpec.Item)
    : (World, QueueSpec.EnqueueReply)
  {
    var (q', r) := QueueSpec.Enqueue(w.q, it);
    var w' := w.(lastAccess := at, q := q');
    if r == QueueSpec.Enqueued(true)
    then (w'.(log := w.log + [QueueEvent(|w.log| + 1, UnixMilli(stamp), EnqueueAction, it.eventId, it.nodeId, "")]), r)
    else (w', r)
  }

  ghost function QueuePoll(w: World, at: Instant, worker: string, epoch: nat, limit: int, now: Instant)
    : (World, QueueSpec.PollReply)
  {
    var (q', r) := QueueSpec.Poll(w.q, worker, epoch, limit, now);
    var w' := w.(lastAccess := at, q := q');
    if r.Polled? && r.items != []
    then (w'.(log := w.log + [QueueEvent(|w.log| + 1, UnixMilli(now), PollAction, "", "", worker)]), r)
    else (w', r)
  }

  function QueueAck(w: World, at: Instant, eventId: string, epoch: nat, worker: string, msg: string,
        now: Instant): (World, QueueSpec.AckReply) {
    var (q', r) := QueueSpec.Ack(w.q, eventId, epoch, worker, msg, now);
    var w' := w.(lastAccess := at, q := q');
    if r.Acked?
    then (w'.(log := w.log + [QueueEvent(|w.log| + 1, UnixMilli(now), AckAction, eventId, "", worker)]), r)
    else (w', r)
  }

  // ---------------------------------------------------------------- reading the event log

  function PollLimit(limit: int): nat {
    if limit <= 0 || limit > 512 then 128 else limit
  }

  /** What a client that has seen `after` receives: the next events still retained. */
  function Delivery(log: seq<Event>, max: nat, after: nat, limit: int): seq<Event> {
    var lo := Max(after, |log| - max);
    if lo >= |log| then [] else log[lo..Min(lo + PollLimit(limit), |log|)]
  }

  // ---------------------------------------------------------------- runs

  /** The requests an instance serves under its lock. Reading the event log is a `Touch`. */
  datatype Op =
    | Touch(at: Instant)
    | Heartbeat(at: Instant, from: string, node: string, site: string, role: string, ts: Instant)
    | Status(at: Instant, now: Instant)
    | ClaimToken(at: Instant, now: Instant, node: string, lease: int)
    | RenewToken(at: Instant, now: Instant, node: string, lease: int)
    | ReleaseToken(at: Instant, now: Instant, node: string)
    | EnqueueItem(at: Instant, stamp: Instant, it: QueueSpec.Item)
    | PollItems(at: Instant, worker: string, epoch: nat, limit: int, now: Instant)
    | AckItem(at: Instant, eventId: string, epoch: nat, worker: string, msg: string, now: Instant)

  ghost function Step(w: World, op: Op): World {
    match op
    case Touch(at) => w.(lastAccess := at)
    case Heartbeat(at, from, node, site, role, ts) => RecordHeartbeat(w, at, from, node, site, role, ts)
    case Status(at, now) => TokenStatus(w, at, now).0
    case ClaimToken(at, now, node, lease) => TokenClaim(w, at, now, node, lease).0
    case RenewToken(at, now, node, lease) => TokenRenew(w, at, now, node, lease).0
    case ReleaseToken(at, now, node) => TokenRelease(w, at, now, node).0
    case EnqueueItem(at, stamp, it) => QueueEnqueue(w, at, stamp, it).0
    case PollItems(at, worker, epoch, limit, now) => QueuePoll(w, at, worker, epoch, limit, now).0
    case AckItem(at, id, epoch, worker, msg, now) => QueueAck(w, at, id, epoch, worker, msg, now).0
  }

  ghost function After(w: World, ops: seq<Op>): World {
    if ops == [] then w else Step(After(w, ops[..|ops| - 1]), ops[|ops| - 1])
  }

  /** The router rejects token requests without a node id. */
  predicate Named(op: Op) {
    (op.ClaimToken? || op.RenewToken? || op.ReleaseToken?) ==> op.node != ""
  }
}
