/** The lease token of one filesystem, and leadership read off it. */
module Tokens {
  import opened Times

  datatype Token = Token(holder: string, issuedAt: Instant, expiresAt: Instant, epoch: nat)

  const NO_TOKEN := Token("", ZERO_TIME, ZERO_TIME, 0)

  datatype TokenReply = TokenOk(tok: Token) | TokenConflict(tok: Token) | TokenNotHeld(tok: Token)

  predicate Active(t: Token, now: Instant) {
    t.holder != "" && now < t.expiresAt
  }

  predicate Expired(t: Token, now: Instant) {
    t.holder == "" || !(now < t.expiresAt)
  }

  function Vacated(t: Token): Token {
    t.(holder := "", issuedAt := ZERO_TIME, expiresAt := ZERO_TIME)
  }

  /** The token once a holder whose lease has run out is dropped. */
  function Settled(t: Token, now: Instant): (r: Token)
    ensures r == t || (Expired(t, now) && r.holder == "")
    ensures r.holder != "" <==> Active(t, now)
    ensures r.epoch == t.epoch
  {
    if t.holder != "" && !(now < t.expiresAt) then Vacated(t) else t
  }

  /** The expiry as an event shows it: absent, printed as 0, for the zero time. */
  function ExpiresMs(t: Token): int {
    if t.expiresAt == ZERO_TIME then 0 else UnixMilli(t.expiresAt)
  }

  // ---------------------------------------------------------------- leadership

  datatype Role = Logistics | Benchmark

  /** A leadership view over a token that may not be bound yet. */
  datatype LeaderState = Unbound(role: Role) | Bound(role: Role, tok: Token) {

    function Holder(now: Instant): string {
      if Unbound? || tok.holder == "" || tok.expiresAt < now then "" else tok.holder
    }

    function Epoch(): nat {
      if Unbound? then 0 else tok.epoch
    }

    predicate IsLeader(now: Instant, node: string) {
      Holder(now) == node
    }
  }

  /** The leader is the node that a status request would show as the holder,
      except at the very instant of expiry, where the leader is still the old one. */
  lemma LeaderIsHolder(role: Role, t: Token, now: Instant)
    ensures Bound(role, t).Holder(now) == Settled(t, now).holder <==> !(t.holder != "" && now == t.expiresAt)
    ensures Bound(role, t).Epoch() == Settled(t, now).epoch
  {
  }

  /** A node is the leader exactly while its lease runs, the instant of expiry included; the
      blank name is the leader exactly when no node is. */
  lemma LeaderExactly(role: Role, t: Token, now: Instant, node: string)
    ensures node != "" ==> (Bound(role, t).IsLeader(now, node) <==> t.holder == node && now <= t.expiresAt)
    ensures Bound(role, t).IsLeader(now, "") <==> forall n :: n != "" ==> !Bound(role, t).IsLeader(now, n)
    ensures Unbound(role).IsLeader(now, node) <==> node == ""
  {
    assert t.holder != "" && now <= t.expiresAt ==> Bound(role, t).IsLeader(now, t.holder);
  }
}
