/** What the answers to token requests promise, in terms of the token and the clock they met. */
module TokenAnswers {
  import opened Times
  import opened Tokens
  import opened InstanceSpec
  import opened Tenure

  // ---------------------------------------------------------------- single requests

  /** The token that a node gets: it keeps its tenure if it has one, or opens the next epoch. */
  function Held(tok: Token, now: Instant, node: string, lease: int): Token {
    if Active(tok, now) then tok.(expiresAt := now + lease) else Token(node, now, now + lease, tok.epoch + 1)
  }

  /** A claim is refused exactly while another node's lease runs; otherwise the node holds the
      token until the clock it read plus the lease. */
  lemma ClaimAnswered(w: World, at: Instant, now: Instant, node: string, lease: int)
    requires node != ""
    ensures var (w', r) := TokenClaim(w, at, now, node, lease);
            && r.tok == w'.tok
            && (r.TokenConflict? <==> Active(w.tok, now) && w.tok.holder != node)
            && (r.TokenConflict? || r.TokenOk?)
            && (r.TokenOk? ==> w'.tok == Held(w.tok, now, node, lease) && w'.tok.holder == node)
            && (r.TokenConflict? ==> w'.tok == w.tok)
  {
  }

  /** Only the node whose lease runs can renew it. */
  lemma RenewAnswered(w: World, at: Instant, now: Instant, node: string, lease: int)
    ensures var (w', r) := TokenRenew(w, at, now, node, lease);
            && r.tok == w'.tok
            && (r.TokenNotHeld? <==> !Active(w.tok, now))
            && (r.TokenConflict? <==> Active(w.tok, now) && w.tok.holder != node)
            && (r.TokenOk? <==> Active(w.tok, now) && w.tok.holder == node)
            && (r.TokenOk? ==> w'.tok == w.tok.(expiresAt := now + lease))
            && (r.TokenConflict? ==> w'.tok == w.tok)
            && (r.TokenNotHeld? ==> w'.tok.holder == "" && w'.tok.epoch == w.tok.epoch)
  {
  }

  /** A release is refused exactly while another node's lease runs; otherwise nobody holds the
      token after it. */
  lemma ReleaseAnswered(w: World, at: Instant, now: Instant, node: string)
    ensures var (w', r) := TokenRelease(w, at, now, node);
            && r.tok == w'.tok
            && (r.TokenConflict? <==> Active(w.tok, now) && w.tok.holder != node)
            && (r.TokenConflict? || r.TokenOk?)
            && (r.TokenOk? ==> w'.tok.holder == "" && w'.tok.epoch == w.tok.epoch)
            && (r.TokenConflict? ==> w'.tok == w.tok)
  {
  }

  /** A status request shows the token while its lease runs, and a vacant one of the same epoch
      otherwise. */
  lemma StatusAnswered(w: World, at: Instant, now: Instant)
    ensures var (w', r) := TokenStatus(w, at, now);
            && r == TokenOk(w'.tok)
            && (Active(w.tok, now) ==> w'.tok == w.tok)
            && (!Active(w.tok, now) ==> w'.tok.holder == "" && w'.tok.epoch == w.tok.epoch)
  {
  }

  // ---------------------------------------------------------------- runs

  /** A claim or a renewal. */
  predicate Asks(op: Op) {
    op.ClaimToken? || op.RenewToken?
  }

  function AnswerOf(w: World, op: Op): TokenReply
    requires Asks(op)
  {
    if op.ClaimToken? then TokenClaim(w, op.at, op.now, op.node, op.lease).1
    else TokenRenew(w, op.at, op.now, op.node, op.lease).1
  }

  /** The lease that `node` has asked for last, if the one before ends at `end`. */
  function LeaseEnd(node: string, end: Instant, ops: seq<Op>): Instant {
    if ops == [] then end
    else
      var last := ops[|ops| - 1];
      if Asks(last) && last.node == node then last.now + last.lease else LeaseEnd(node, end, ops[..|ops| - 1])
  }

  /** Every token request reads a clock before the end of the lease that `node` asked for last,
      and `node` releases nothing. */
  ghost predicate InTime(node: string, end: Instant, ops: seq<Op>) {
    ops != [] ==>
      var init, last := ops[..|ops| - 1], ops[|ops| - 1];
      && InTime(node, end, init)
      && (IsTokenRequest(last) ==> last.now < LeaseEnd(node, end, init))
      && !(last.ReleaseToken? && last.node == node)
  }

  /** The token is as granted, but for its expiry. */
  ghost predicate HeldBy(w: World, node: string, epoch: nat, end: Instant) {
    w.tok.holder == node && w.tok.epoch == epoch && w.tok.expiresAt == end
  }

  lemma StepHeld(w: World, op: Op, node: string)
    requires node != "" && w.tok.holder == node && Named(op)
    ensures (Step(w, op).tok.holder == node && Step(w, op).tok.epoch == w.tok.epoch)
       <==> (IsTokenRequest(op) ==> op.now < w.tok.expiresAt) && !(op.ReleaseToken? && op.node == node)
    ensures Step(w, op).tok.holder == node && Step(w, op).tok.epoch == w.tok.epoch ==>
              Step(w, op).tok.expiresAt == if Asks(op) && op.node == node then op.now + op.lease else w.tok.expiresAt
  {
    TenureEndsExactly(w, op);
  }

  ghost predicate Has(w: World, node: string, epoch: nat) {
    w.tok.holder == node && w.tok.epoch == epoch
  }

  /** The node holds its epoch after every request of the run. */
  ghost predicate KeepsTenure(w: World, ops: seq<Op>, node: string, epoch: nat) {
    forall i :: 0 <= i <= |ops| ==> Has(After(w, ops[..i]), node, epoch)
  }

  lemma KeepsInit(w: World, ops: seq<Op>, node: string, epoch: nat)
    requires ops != []
    ensures KeepsTenure(w, ops, node, epoch)
       <==> KeepsTenure(w, ops[..|ops| - 1], node, epoch) && Has(After(w, ops), node, epoch)
  {
    var init := ops[..|ops| - 1];
    assert ops[..|ops|] == ops;
    if KeepsTenure(w, ops, node, epoch) {
      forall i | 0 <= i <= |init|
        ensures Has(After(w, init[..i]), node, epoch)
      {
        assert init[..i] == ops[..i];
      }
    }
    if KeepsTenure(w, init, node, epoch) && Has(After(w, ops), node, epoch) {
      forall i | 0 <= i <= |ops|
        ensures Has(After(w, ops[..i]), node, epoch)
      {
        assert i < |ops| ==> init[..i] == ops[..i];
      }
    }
  }

  lemma {:induction false} HeldThrough(w: World, ops: seq<Op>, node: string, end: Instant)
    requires node != "" && HeldBy(w, node, w.tok.epoch, end) && NamedRun(ops)
    ensures KeepsTenure(w, ops, node, w.tok.epoch) <==> InTime(node, end, ops)
    ensures InTime(node, end, ops) ==> HeldBy(After(w, ops), node, w.tok.epoch, LeaseEnd(node, end, ops))
  {
    if ops == [] {
    } else {
      var init, last := ops[..|ops| - 1], ops[|ops| - 1];
      HeldThrough(w, init, node, end);
      KeepsInit(w, ops, node, w.tok.epoch);
      if InTime(node, end, init) {
        StepHeld(After(w, init), last, node);
      }
    }
  }

  /** A node that was answered yes to a claim or a renewal holds the token, and holds it on as
      long as, and no longer than, every token request reads a clock before the end of the lease
      that it asked for last and it does not release. */
  lemma AnsweredHoldsExactly(w: World, op: Op, ops: seq<Op>)
    requires Asks(op) && Named(op) && NamedRun(ops) && AnswerOf(w, op).TokenOk?
    ensures HeldBy(Step(w, op), op.node, AnswerOf(w, op).tok.epoch, op.now + op.lease)
    ensures KeepsTenure(Step(w, op), ops, op.node, AnswerOf(w, op).tok.epoch)
       <==> InTime(op.node, op.now + op.lease, ops)
  {
    ClaimOrRenewHolds(w, op);
    HeldThrough(Step(w, op), ops, op.node, op.now + op.lease);
  }

  lemma ClaimOrRenewHolds(w: World, op: Op)
    requires Asks(op) && Named(op) && AnswerOf(w, op).TokenOk?
    ensures HeldBy(Step(w, op), op.node, AnswerOf(w, op).tok.epoch, op.now + op.lease)
  {
    if op.ClaimToken? {
      ClaimAnswered(w, op.at, op.now, op.node, op.lease);
    } else {
      RenewAnswered(w, op.at, op.now, op.node, op.lease);
    }
  }

  /** Two nodes are never answered yes unless in between the first one's lease was over for some
      token request, or it released. */
  lemma AnswersExclude(w: World, first: Op, ops: seq<Op>, second: Op)
    requires Asks(first) && Named(first) && NamedRun(ops) && Asks(second) && Named(second)
    requires AnswerOf(w, first).TokenOk? && AnswerOf(After(Step(w, first), ops), second).TokenOk?
    requires second.node != first.node
    ensures !InTime(first.node, first.now + first.lease, ops + [second])
  {
    var run := ops + [second];
    assert run[..|ops|] == ops;
    AnsweredHoldsExactly(w, first, run);
    ClaimOrRenewHolds(After(Step(w, first), ops), second);
    assert After(Step(w, first), run[..|run|]).tok.holder == second.node by {
      assert run[..|run|] == run;
    }
  }
}
