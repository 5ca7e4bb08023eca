/** The event history and the state account for each other, in every run. */
module InstanceAudit {
  import opened Times
  import opened Lists
  import opened Tokens
  import opened InstanceSpec
  import QueueSpec
  import QueueRuns

  // ---------------------------------------------------------------- reading the history

  ghost function TokenHistory(log: seq<Event>): seq<Event> {
    if log == [] then []
    else
      var last := log[|log| - 1];
      TokenHistory(log[..|log| - 1]) + (if last.TokenEvent? then [last] else [])
  }

  ghost function EnqueuedIds(log: seq<Event>): seq<string> {
    if log == [] then []
    else
      var last := log[|log| - 1];
      EnqueuedIds(log[..|log| - 1])
      + (if last.QueueEvent? && last.queueAction == EnqueueAction then [last.eventId] else [])
  }

  ghost function Count(h: seq<Event>, action: TokenAction): nat {
    if h == [] then 0
    else
      var last := h[|h| - 1];
      Count(h[..|h| - 1], action) + (if last.TokenEvent? && last.action == action then 1 else 0)
  }

  /** Nobody holds the token after the token events `h`. */
  ghost predicate Free(h: seq<Event>) {
    h == [] || (h[|h| - 1].TokenEvent? && (h[|h| - 1].action == Release || h[|h| - 1].action == Expire))
  }

  /** `h` is a prefix of (claim renew* (release | expire))*. Each claim opens the next epoch
      for one holder, renewals stay with that holder, and the closing event names nobody. */
  ghost predicate Tenures(h: seq<Event>) {
    h != [] ==>
      var init, last := h[..|h| - 1], h[|h| - 1];
      && Tenures(init)
      && last.TokenEvent?
      && match last.action
         case Claim => Free(init) && last.holder != "" && last.epoch == (if init == [] then 0 else EpochOf(init)) + 1
         case Renew => !Free(init) && last.holder == HolderOf(init) && last.epoch == EpochOf(init)
         case Release => !Free(init) && last.holder == "" && last.epoch == EpochOf(init) && last.expiresMs == 0
         case Expire => !Free(init) && last.holder == "" && last.epoch == EpochOf(init) && last.expiresMs == 0
  }

  ghost function EpochOf(h: seq<Event>): nat
    requires h != []
  {
    if h[|h| - 1].TokenEvent? then h[|h| - 1].epoch else 0
  }

  ghost function HolderOf(h: seq<Event>): string
    requires h != []
  {
    if h[|h| - 1].TokenEvent? then h[|h| - 1].holder else ""
  }

  /** The token is what the last token event says it is. */
  ghost predicate Shows(h: seq<Event>, tok: Token) {
    && (Free(h) <==> tok.holder == "")
    && (tok.holder == "" ==> tok.expiresAt == ZERO_TIME)
    && if h == [] then tok == NO_TOKEN
       else h[|h| - 1].TokenEvent? && h[|h| - 1].holder == tok.holder && h[|h| - 1].epoch == tok.epoch
            && h[|h| - 1].expiresMs == ExpiresMs(tok)
  }

  ghost predicate TokenAccounts(h: seq<Event>, tok: Token) {
    && Tenures(h) && Shows(h, tok)
    && tok.epoch == Count(h, Claim)
    && Count(h, Claim) == Count(h, Release) + Count(h, Expire) + (if tok.holder != "" then 1 else 0)
  }

  /** The ids ever inserted are those of the enqueue events, once each and in that order. */
  ghost predicate QueueAccounts(ids: seq<string>, q: QueueSpec.State) {
    && QueueSpec.Valid(q)
    && NoDup(ids)
    && (forall id :: id in ids <==> id in q.seen)
    && q.order == Kept(ids, q.items.Keys)
  }

  ghost predicate Accounts(w: World) {
    Numbered(w.log) && TokenAccounts(TokenHistory(w.log), w.tok) && QueueAccounts(EnqueuedIds(w.log), w.q)
  }

  // ---------------------------------------------------------------- single events

  lemma HistorySnoc(log: seq<Event>, ev: Event)
    ensures TokenHistory(log + [ev]) == if ev.TokenEvent? then TokenHistory(log) + [ev] else TokenHistory(log)
    ensures EnqueuedIds(log + [ev])
         == if ev.QueueEvent? && ev.queueAction == EnqueueAction then EnqueuedIds(log) + [ev.eventId]
            else EnqueuedIds(log)
  {
    assert (log + [ev])[..|log|] == log;
  }

  lemma CountSnoc(h: seq<Event>, ev: Event, action: TokenAction)
    ensures Count(h + [ev], action) == Count(h, action) + (if ev.TokenEvent? && ev.action == action then 1 else 0)
  {
    assert (h + [ev])[..|h|] == h;
  }

  /** One token event moves history and token together. */
  lemma TokenEventAccounts(h: seq<Event>, tok: Token, ev: Event, tok': Token)
    requires TokenAccounts(h, tok) && ev.TokenEvent?
    requires ev.holder == tok'.holder && ev.epoch == tok'.epoch && ev.expiresMs == ExpiresMs(tok')
    requires Moves(tok, ev.action, tok')
    ensures TokenAccounts(h + [ev], tok')
  {
    assert (h + [ev])[..|h|] == h;
    CountSnoc(h, ev, Claim);
    CountSnoc(h, ev, Release);
    CountSnoc(h, ev, Expire);
  }

  ghost predicate Moves(tok: Token, action: TokenAction, tok': Token) {
    match action
    case Claim => tok.holder == "" && tok'.holder != "" && tok'.epoch == tok.epoch + 1
    case Renew => tok.holder != "" && tok'.holder == tok.holder && tok'.epoch == tok.epoch
    case Release => tok.holder != "" && tok' == Vacated(tok)
    case Expire => tok.holder != "" && tok' == Vacated(tok)
  }

  lemma RecordAccounts(w: World, w': World, now: Instant, action: TokenAction)
    requires Accounts(w) && Moves(w.tok, action, w'.tok)
    requires w'.q == w.q
    requires w'.log
         == w.log + [TokenEvent(|w.log| + 1, UnixMilli(now), action, w'.tok.holder, w'.tok.epoch, ExpiresMs(w'.tok))]
    ensures Accounts(w')
  {
    var ev := TokenEvent(|w.log| + 1, UnixMilli(now), action, w'.tok.holder, w'.tok.epoch, ExpiresMs(w'.tok));
    HistorySnoc(w.log, ev);
    TokenEventAccounts(TokenHistory(w.log), w.tok, ev, w'.tok);
  }

  lemma EnterAccounts(w: World, at: Instant, now: Instant)
    requires Accounts(w)
    ensures Accounts(Enter(w, at, now))
    ensures Enter(w, at, now).tok == Settled(w.tok, now)
  {
    if w.tok.holder != "" && !(now < w.tok.expiresAt) {
      RecordAccounts(w, Enter(w, at, now), now, Expire);
    }
  }

  lemma GrantFreeAccounts(w: World, now: Instant, node: string, lease: int)
    requires Accounts(w) && w.tok.holder == "" && node != ""
    ensures Accounts(GrantFree(w, now, node, lease))
  {
    RecordAccounts(w, GrantFree(w, now, node, lease), now, Claim);
  }

  lemma ExtendAccounts(w: World, now: Instant, lease: int)
    requires Accounts(w) && w.tok.holder != ""
    ensures Accounts(Extend(w, now, lease))
  {
    RecordAccounts(w, Extend(w, now, lease), now, Renew);
  }

  lemma VacateAccounts(w: World, now: Instant)
    requires Accounts(w) && w.tok.holder != ""
    ensures Accounts(Record(w.(tok := Vacated(w.tok)), now, Release))
  {
    RecordAccounts(w, Record(w.(tok := Vacated(w.tok)), now, Release), now, Release);
  }

  lemma ClaimAccounts(w: World, op: Op)
    requires op.ClaimToken? && Named(op) && Accounts(Enter(w, op.at, op.now))
    ensures Accounts(Step(w, op))
  {
    var e := Enter(w, op.at, op.now);
    if e.tok.holder == "" {
      GrantFreeAccounts(e, op.now, op.node, op.lease);
    } else {
      ExtendAccounts(e, op.now, op.lease);
    }
  }

  lemma RenewAccounts(w: World, op: Op)
    requires op.RenewToken? && Accounts(Enter(w, op.at, op.now))
    ensures Accounts(Step(w, op))
  {
    var e := Enter(w, op.at, op.now);
    if e.tok.holder != "" {
      ExtendAccounts(e, op.now, op.lease);
    }
  }

  lemma ReleaseAccounts(w: World, op: Op)
    requires op.ReleaseToken? && Accounts(Enter(w, op.at, op.now))
    ensures Accounts(Step(w, op))
  {
    var e := Enter(w, op.at, op.now);
    if e.tok.holder != "" {
      VacateAccounts(e, op.now);
    }
  }

  lemma TokenRequestAccounts(w: World, op: Op)
    requires Accounts(w) && Named(op)
    requires op.Status? || op.ClaimToken? || op.RenewToken? || op.ReleaseToken?
    ensures Accounts(Step(w, op))
  {
    EnterAccounts(w, op.at, op.now);
    match op
    case Status(_, _) =>
    case ClaimToken(_, _, _, _) => ClaimAccounts(w, op);
    case RenewToken(_, _, _, _) => RenewAccounts(w, op);
    case ReleaseToken(_, _, _) => ReleaseAccounts(w, op);
  }

  // ---------------------------------------------------------------- queue requests

  lemma PruneQueueAccounts(ids: seq<string>, q: QueueSpec.State)
    requires QueueAccounts(ids, q)
    ensures QueueAccounts(ids, QueueSpec.Prune(q))
  {
    QueueRuns.PruneValid(q);
    KeptKept(ids, q.items.Keys, QueueSpec.Unacked(q.items).Keys);
  }

  lemma InsertQueueAccounts(ids: seq<string>, q: QueueSpec.State, it: QueueSpec.Item)
    requires QueueAccounts(ids, q) && it.eventId != "" && it.eventId !in q.seen
    ensures QueueAccounts(ids + [it.eventId],
              q.(order := q.order + [it.eventId], items := q.items[it.eventId := it], seen := q.seen + {it.eventId}))
  {
    var id := it.eventId;
    InsertValid(q, it);
    NoDupSnoc(ids, id);
    KeysUpdate(q.items, id, it);
    KeptInsert(ids, id, q.items.Keys);
  }

  lemma InsertValid(q: QueueSpec.State, it: QueueSpec.Item)
    requires QueueSpec.Valid(q) && it.eventId != "" && it.eventId !in q.seen
    ensures var id := it.eventId;
            QueueSpec.Valid(q.(order := q.order + [id], items := q.items[id := it], seen := q.seen + {id}))
  {
    NoDupSnoc(q.order, it.eventId);
  }

  lemma EnqueueQueueAccounts(ids: seq<string>, q: QueueSpec.State, it: QueueSpec.Item)
    requires QueueAccounts(ids, q)
    ensures var (q', r) := QueueSpec.Enqueue(q, it);
            QueueAccounts(if r == QueueSpec.Enqueued(true) then ids + [it.eventId] else ids, q')
  {
    if it.eventId != "" && it.eventId !in q.seen {
      InsertQueueAccounts(ids, q, it);
      PruneQueueAccounts(ids + [it.eventId],
        q.(order := q.order + [it.eventId], items := q.items[it.eventId := it], seen := q.seen + {it.eventId}));
    }
  }

  lemma EnqueueAccounts(w: World, at: Instant, stamp: Instant, it: QueueSpec.Item)
    requires Accounts(w)
    ensures Accounts(QueueEnqueue(w, at, stamp, it).0)
  {
    EnqueueQueueAccounts(EnqueuedIds(w.log), w.q, it);
    HistorySnoc(w.log, QueueEvent(|w.log| + 1, UnixMilli(stamp), EnqueueAction, it.eventId, it.nodeId, ""));
  }

  /** A request that keeps the queued ids and logs nothing, or one event of another kind. */
  lemma OtherEventAccounts(w: World, w': World, ev: Event)
    requires Accounts(w) && w'.tok == w.tok && QueueSpec.Valid(w'.q)
    requires w'.q.order == w.q.order && w'.q.items.Keys == w.q.items.Keys && w'.q.seen == w.q.seen
    requires ev.seqNo == |w.log| + 1 && !ev.TokenEvent? && !(ev.QueueEvent? && ev.queueAction == EnqueueAction)
    requires w'.log == w.log || w'.log == w.log + [ev]
    ensures Accounts(w')
  {
    HistorySnoc(w.log, ev);
  }

  lemma PollAccounts(w: World, at: Instant, worker: string, epoch: nat, limit: int, now: Instant)
    requires Accounts(w)
    ensures Accounts(QueuePoll(w, at, worker, epoch, limit, now).0)
  {
    QueueRuns.StepValid(w.q, QueueRuns.OpPoll(worker, epoch, limit, now));
    QueueRuns.StepKeepsIds(w.q, QueueRuns.OpPoll(worker, epoch, limit, now));
    OtherEventAccounts(w, QueuePoll(w, at, worker, epoch, limit, now).0,
      QueueEvent(|w.log| + 1, UnixMilli(now), PollAction, "", "", worker));
  }

  lemma AckAccounts(w: World, at: Instant, id: string, epoch: nat, worker: string, msg: string, now: Instant)
    requires Accounts(w)
    ensures Accounts(QueueAck(w, at, id, epoch, worker, msg, now).0)
  {
    QueueRuns.StepValid(w.q, QueueRuns.OpAck(id, epoch, worker, msg, now));
    QueueRuns.StepKeepsIds(w.q, QueueRuns.OpAck(id, epoch, worker, msg, now));
    OtherEventAccounts(w, QueueAck(w, at, id, epoch, worker, msg, now).0,
      QueueEvent(|w.log| + 1, UnixMilli(now), AckAction, id, "", worker));
  }

  lemma StepAccounts(w: World, op: Op)
    requires Accounts(w) && Named(op)
    ensures Accounts(Step(w, op))
  {
    match op
    case Touch(_) =>
    case Heartbeat(_, from, node, site, role, ts) =>
      OtherEventAccounts(w, Step(w, op), HeartbeatEvent(|w.log| + 1, UnixMilli(ts), from, node, site, role));
    case Status(_, _) => TokenRequestAccounts(w, op);
    case ClaimToken(_, _, _, _) => TokenRequestAccounts(w, op);
    case RenewToken(_, _, _, _) => TokenRequestAccounts(w, op);
    case ReleaseToken(_, _, _) => TokenRequestAccounts(w, op);
    case EnqueueItem(at, stamp, it) => EnqueueAccounts(w, at, stamp, it);
    case PollItems(at, worker, epoch, limit, now) => PollAccounts(w, at, worker, epoch, limit, now);
    case AckItem(at, id, epoch, worker, msg, now) => AckAccounts(w, at, id, epoch, worker, msg, now);
  }

  // ---------------------------------------------------------------- every run

  /** In every run of a new instance the history accounts for the token and the queue. */
  lemma {:induction false} HistoryAccountsForState(at: Instant, ops: seq<Op>)
    requires forall op :: op in ops ==> Named(op)
    ensures Accounts(After(New(at), ops))
  {
    if ops == [] {
    } else {
      HistoryAccountsForState(at, ops[..|ops| - 1]);
      StepAccounts(After(New(at), ops[..|ops| - 1]), ops[|ops| - 1]);
    }
  }

  /** There are as many enqueue events as ids ever seen. */
  lemma EnqueueEventsCountSeen(w: World)
    requires Accounts(w)
    ensures |EnqueuedIds(w.log)| == |w.q.seen|
  {
    NoDupCardinality(EnqueuedIds(w.log));
    assert w.q.seen == set id | id in EnqueuedIds(w.log);
  }

  /** Read in the history alone: an epoch has one holder, and once vacated it stays so. */
  lemma {:induction false} EpochHasOneHolder(h: seq<Event>, i: nat, j: nat)
    requires Tenures(h) && i <= j < |h|
    ensures h[i].TokenEvent? && h[j].TokenEvent? && h[i].epoch <= h[j].epoch
    ensures h[i].epoch == h[j].epoch ==> h[j].holder == h[i].holder || h[j].holder == ""
    ensures h[j].holder == "" <==> Free(h[..j + 1])
  {
    var init := h[..|h| - 1];
    if j < |h| - 1 {
      EpochHasOneHolder(init, i, j);
      assert init[..j + 1] == h[..j + 1];
    } else {
      assert h[..j + 1] == h;
      if i < j {
        EpochHasOneHolder(init, i, j - 1);
        assert init[..j] == init;
      } else if init != [] {
        EpochHasOneHolder(init, |init| - 1, |init| - 1);
        assert init[..|init|] == init;
      }
    }
  }

  /** The history only ever grows at its end. */
  lemma {:induction false} HistoryGrows(w: World, ops: seq<Op>)
    ensures w.log <= After(w, ops).log
  {
    if ops == [] {
    } else {
      HistoryGrows(w, ops[..|ops| - 1]);
      StepGrows(After(w, ops[..|ops| - 1]), ops[|ops| - 1]);
    }
  }

  lemma StepGrows(w: World, op: Op)
    ensures w.log <= Step(w, op).log
  {
  }
}
