/** Tenures in time as the event history shows them. */
module TenureHistory {
  import opened Times
  import opened Tokens
  import opened InstanceSpec
  import opened InstanceAudit
  import opened Tenure

  /** Every lease that is granted ends at a time that an event can show. */
  predicate Dated(op: Op) {
    op.ClaimToken? || op.RenewToken? ==> op.now + op.lease != ZERO_TIME
  }

  ghost predicate DatedToken(tok: Token) {
    tok.holder != "" ==> tok.expiresAt != ZERO_TIME
  }

  ghost predicate TokenEvents(h: seq<Event>) {
    forall i :: 0 <= i < |h| ==> h[i].TokenEvent?
  }

  /** Times do not run backwards, and a tenure that expired did so at or after the expiry shown
      by the event before. */
  ghost predicate Spaced(h: seq<Event>) {
    && TokenEvents(h)
    && (forall i, j :: 0 <= i < j < |h| ==> h[i].tsMs <= h[j].tsMs)
    && (forall i, j :: 0 <= i < j < |h| && j == i + 1 && h[j].action == Expire ==> h[i].expiresMs <= h[j].tsMs)
  }

  ghost predicate NotAfter(h: seq<Event>, ms: int) {
    forall i :: 0 <= i < |h| ==> h[i].tsMs <= ms
  }

  /** A claim comes at or after the last expiry of every earlier tenure that was not released. */
  ghost predicate ClaimsAfterExpiries(h: seq<Event>) {
    && TokenEvents(h)
    && forall i, j, k :: 0 <= i < j < k < |h| && j == i + 1 && h[j].action == Expire && h[k].action == Claim
                         ==> h[i].expiresMs <= h[k].tsMs
  }

  lemma EventSpaced(h: seq<Event>, ev: Event)
    requires Spaced(h) && ev.TokenEvent? && NotAfter(h, ev.tsMs)
    requires ev.action == Expire && h != [] ==> h[|h| - 1].expiresMs <= ev.tsMs
    ensures Spaced(h + [ev]) && NotAfter(h + [ev], ev.tsMs)
  {
  }

  ghost predicate Timed(h: seq<Event>, ms: int) {
    Spaced(h) && NotAfter(h, ms)
  }

  /** What one request maintains of the history up to a time. */
  ghost predicate Punctual(w: World, ms: int) {
    Accounts(w) && DatedToken(w.tok) && Timed(TokenHistory(w.log), ms)
  }

  /** The expiry of a held token is what the last event shows. */
  lemma ExpiryShown(w: World)
    requires Accounts(w) && DatedToken(w.tok) && w.tok.holder != ""
    ensures var h := TokenHistory(w.log);
            h != [] && h[|h| - 1].TokenEvent? && h[|h| - 1].expiresMs == UnixMilli(w.tok.expiresAt)
  {
  }

  /** What a request does to a token that has been settled. */
  function ActionOf(tok: Token, op: Op): TokenAction {
    if op.ClaimToken? && tok.holder == "" then Claim else if op.ReleaseToken? then Release else Renew
  }

  /** `w'` has one event more than `e`, which shows the token. */
  ghost predicate Records(e: World, w': World, now: Instant, action: TokenAction) {
    w'.log == e.log + [TokenEvent(|e.log| + 1, UnixMilli(now), action, w'.tok.holder, w'.tok.epoch, ExpiresMs(w'.tok))]
  }

  lemma RecordPunctual(w: World, w': World, now: Instant, action: TokenAction)
    requires Punctual(w, UnixMilli(now)) && Accounts(w') && DatedToken(w'.tok)
    requires action == Expire ==> w.tok.holder != "" && w.tok.expiresAt <= now
    requires Records(w, w', now, action)
    ensures Punctual(w', UnixMilli(now))
  {
    if action == Expire {
      ExpiryShown(w);
      UnixMilliMonotone(w.tok.expiresAt, now);
    }
    var ev := TokenEvent(|w.log| + 1, UnixMilli(now), action, w'.tok.holder, w'.tok.epoch, ExpiresMs(w'.tok));
    LogTimed(w.log, ev);
  }

  lemma LogTimed(log: seq<Event>, ev: Event)
    requires ev.TokenEvent? && Timed(TokenHistory(log), ev.tsMs)
    requires var h := TokenHistory(log); ev.action == Expire && h != [] ==> h[|h| - 1].expiresMs <= ev.tsMs
    ensures Timed(TokenHistory(log + [ev]), ev.tsMs)
  {
    HistorySnoc(log, ev);
    EventSpaced(TokenHistory(log), ev);
  }

  lemma EnterPunctual(w: World, at: Instant, now: Instant)
    requires Punctual(w, UnixMilli(now))
    ensures Punctual(Enter(w, at, now), UnixMilli(now))
  {
    EnterAccounts(w, at, now);
    if w.tok.holder != "" && !(now < w.tok.expiresAt) {
      RecordPunctual(w, Enter(w, at, now), now, Expire);
    }
  }

  /** After it has dropped an expired holder, a token request records at most one more event. */
  lemma TokenRequestRecords(w: World, op: Op)
    requires IsTokenRequest(op) && Dated(op) && DatedToken(w.tok)
    ensures var e, w' := Enter(w, op.at, op.now), Step(w, op);
            DatedToken(w'.tok) && (w' == e || Records(e, w', op.now, ActionOf(e.tok, op)))
  {
    var e := Enter(w, op.at, op.now);
    match op
    case Status(_, _) =>
    case ClaimToken(_, now, node, lease) =>
      if e.tok.holder == "" {
        assert Step(w, op) == GrantFree(e, now, node, lease);
      }
    case RenewToken(_, _, _, _) =>
    case ReleaseToken(_, _, _) =>
  }

  lemma TokenRequestPunctual(w: World, op: Op)
    requires IsTokenRequest(op) && Named(op) && Dated(op) && Punctual(w, UnixMilli(op.now))
    ensures Punctual(Step(w, op), UnixMilli(op.now))
  {
    EnterPunctual(w, op.at, op.now);
    TokenRequestAccounts(w, op);
    TokenRequestRecords(w, op);
    var e, w' := Enter(w, op.at, op.now), Step(w, op);
    if w' != e {
      RecordPunctual(e, w', op.now, ActionOf(e.tok, op));
    }
  }

  lemma OtherRequestHistory(w: World, op: Op)
    requires !IsTokenRequest(op)
    ensures Step(w, op).tok == w.tok && TokenHistory(Step(w, op).log) == TokenHistory(w.log)
  {
    var log' := Step(w, op).log;
    if log' != w.log {
      HistorySnoc(w.log, log'[|w.log|]);
      assert log' == w.log + [log'[|w.log|]];
    }
  }

  lemma OtherRequestPunctual(w: World, op: Op, ms: int)
    requires !IsTokenRequest(op) && Named(op) && Punctual(w, ms)
    ensures Punctual(Step(w, op), ms)
  {
    StepAccounts(w, op);
    OtherRequestHistory(w, op);
  }

  lemma {:induction false} RunPunctual(at: Instant, ops: seq<Op>, ms: int)
    requires NamedRun(ops) && (forall i :: 0 <= i < |ops| ==> Dated(ops[i]))
    requires Nondecreasing(Readings(ops)) && forall t :: t in Readings(ops) ==> UnixMilli(t) <= ms
    ensures Punctual(After(New(at), ops), ms)
  {
    if ops == [] {
    } else {
      var init, last := ops[..|ops| - 1], ops[|ops| - 1];
      var w := After(New(at), init);
      if IsTokenRequest(last) {
        var rs := Readings(init);
        assert Readings(ops) == rs + [last.now];
        forall t | t in rs
          ensures UnixMilli(t) <= UnixMilli(last.now)
        {
          var i :| 0 <= i < |rs| && rs[i] == t;
          assert Readings(ops)[i] == t && Readings(ops)[|rs|] == last.now;
          UnixMilliMonotone(t, last.now);
        }
        assert forall i :: 0 <= i < |rs| ==> Readings(ops)[i] == rs[i];
        RunPunctual(at, init, UnixMilli(last.now));
        TokenRequestPunctual(w, last);
        assert last.now in Readings(ops);
      } else {
        RunPunctual(at, init, ms);
        OtherRequestPunctual(w, last, ms);
      }
    }
  }

  lemma SpacedClaims(h: seq<Event>)
    requires Spaced(h)
    ensures ClaimsAfterExpiries(h)
  {
  }

  /** In the history of a new instance whose token requests read clocks that do not run
      backwards, every claim is dated at or after the last expiry of each earlier tenure,
      unless a release closed that tenure. */
  lemma HistoryTenuresApart(at: Instant, ops: seq<Op>)
    requires NamedRun(ops) && (forall i :: 0 <= i < |ops| ==> Dated(ops[i])) && Nondecreasing(Readings(ops))
    ensures ClaimsAfterExpiries(TokenHistory(After(New(at), ops).log))
  {
    var rs := Readings(ops);
    var ms := if rs == [] then 0 else UnixMilli(rs[|rs| - 1]);
    forall t | t in rs
      ensures UnixMilli(t) <= ms
    {
      var i :| 0 <= i < |rs| && rs[i] == t;
      UnixMilliMonotone(t, rs[|rs| - 1]);
    }
    RunPunctual(at, ops, ms);
    SpacedClaims(TokenHistory(After(New(at), ops).log));
  }
}
