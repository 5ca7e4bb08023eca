/** Mutual exclusion: an epoch has one holder, and tenures do not overlap in time exactly when
    the clocks read by the token requests do not run backwards in the order of the lock. */
module Tenure {
  import opened Times
  import opened Tokens
  import opened InstanceSpec
  import Lists

  /** How a token may develop: epochs never go back, and within one epoch the holder stays
      or the token is vacated for good. */
  ghost predicate Evolves(t: Token, t': Token) {
    t.epoch <= t'.epoch && (t.epoch == t'.epoch ==> t'.holder == t.holder || t'.holder == "")
  }

  lemma StepEvolves(w: World, op: Op)
    ensures Evolves(w.tok, Step(w, op).tok)
    ensures Step(w, op).tok.epoch <= w.tok.epoch + 1
  {
  }

  /** Between any two points of any run: whatever the clocks say, an epoch is never given
      to a second node, and an epoch that was vacated is never held again. */
  lemma {:induction false} OneHolderPerEpoch(w: World, ops: seq<Op>)
    ensures Evolves(w.tok, After(w, ops).tok)
  {
    if ops == [] {
    } else {
      OneHolderPerEpoch(w, ops[..|ops| - 1]);
      StepEvolves(After(w, ops[..|ops| - 1]), ops[|ops| - 1]);
    }
  }

  // ---------------------------------------------------------------- the end of a tenure

  predicate IsTokenRequest(op: Op) {
    op.Status? || op.ClaimToken? || op.RenewToken? || op.ReleaseToken?
  }

  /** The node of `tok` still holds its epoch in `tok'`. */
  ghost predicate StillHeld(tok: Token, tok': Token) {
    tok'.epoch == tok.epoch && tok'.holder == tok.holder
  }

  /** A tenure ends exactly when a token request reads the clock at or after the expiry, or
      its holder releases it earlier. No other request ends it. */
  lemma TenureEndsExactly(w: World, op: Op)
    requires w.tok.holder != "" && Named(op)
    ensures !StillHeld(w.tok, Step(w, op).tok)
       <==> IsTokenRequest(op) && (w.tok.expiresAt <= op.now || (op.ReleaseToken? && op.node == w.tok.holder))
  {
  }

  ghost predicate Releases(w: World, op: Op) {
    op.ReleaseToken? && op.node == w.tok.holder && op.now < w.tok.expiresAt
  }

  /** Request `op` ends a tenure that its holder did not release. */
  ghost predicate Lapses(w: World, op: Op) {
    w.tok.holder != "" && !StillHeld(w.tok, Step(w, op).tok) && !Releases(w, op)
  }

  // ---------------------------------------------------------------- the next tenure

  ghost predicate NamedRun(ops: seq<Op>) {
    forall i :: 0 <= i < |ops| ==> Named(ops[i])
  }

  /** The token requests of a run read clocks that do not run backwards, starting from `t`. */
  ghost predicate ClockFrom(t: Instant, ops: seq<Op>) {
    forall i :: 0 <= i < |ops| && IsTokenRequest(ops[i]) ==> t <= ops[i].now
  }

  /** Whoever holds the token does so in a later epoch than `past`, issued at or after its expiry. */
  ghost predicate Succeeds(past: Token, tok: Token) {
    past.epoch <= tok.epoch && (tok.holder != "" ==> past.epoch < tok.epoch && past.expiresAt <= tok.issuedAt)
  }

  lemma LapseSucceeded(w: World, end: Op)
    requires Named(end) && Lapses(w, end)
    ensures IsTokenRequest(end) && w.tok.expiresAt <= end.now && Succeeds(w.tok, Step(w, end).tok)
  {
    TenureEndsExactly(w, end);
  }

  lemma StepSucceeds(past: Token, w: World, op: Op)
    requires Succeeds(past, w.tok) && (IsTokenRequest(op) ==> past.expiresAt <= op.now)
    ensures Succeeds(past, Step(w, op).tok)
  {
  }

  lemma {:induction false} RunSucceeds(past: Token, w: World, ops: seq<Op>)
    requires Succeeds(past, w.tok) && ClockFrom(past.expiresAt, ops)
    ensures Succeeds(past, After(w, ops).tok)
  {
    if ops == [] {
    } else {
      RunSucceeds(past, w, ops[..|ops| - 1]);
      StepSucceeds(past, After(w, ops[..|ops| - 1]), ops[|ops| - 1]);
    }
  }

  /** After a tenure that was not released, whoever holds the token at any later point has a
      later epoch that was issued at or after the old expiry, provided no later token request
      read its clock before the request that ended the tenure. */
  lemma NextTenureAfterExpiry(w: World, end: Op, ops: seq<Op>)
    requires Named(end) && Lapses(w, end)
    requires IsTokenRequest(end) ==> ClockFrom(end.now, ops)
    ensures var t' := After(Step(w, end), ops).tok;
            t'.holder != "" ==> w.tok.epoch < t'.epoch && w.tok.expiresAt <= t'.issuedAt
  {
    LapseSucceeded(w, end);
    RunSucceeds(w.tok, Step(w, end), ops);
  }

  // ---------------------------------------------------------------- exactly when tenures stay apart

  /** The clocks that the token requests of a run read, in the order of the lock. */
  function Readings(ops: seq<Op>): seq<Instant> {
    if ops == [] then []
    else
      var last := ops[|ops| - 1];
      if IsTokenRequest(last) then Readings(ops[..|ops| - 1]) + [last.now] else Readings(ops[..|ops| - 1])
  }

  ghost predicate Nondecreasing(rs: seq<Instant>) {
    forall i, j :: 0 <= i < j < |rs| ==> rs[i] <= rs[j]
  }

  /** From the request that ends a tenure without a release on, the token is held only under
      later epochs that were issued at or after the expiry. */
  ghost predicate TenuresApart(w: World, ops: seq<Op>) {
    forall i, j :: 0 <= i < j <= |ops| && Lapses(After(w, ops[..i]), ops[i])
                   ==> Succeeds(After(w, ops[..i]).tok, After(w, ops[..j]).tok)
  }

  lemma {:induction false} AfterConcat(w: World, a: seq<Op>, b: seq<Op>)
    ensures After(w, a + b) == After(After(w, a), b)
  {
    if b == [] {
      assert a + b == a;
    } else {
      AfterConcat(w, a, b[..|b| - 1]);
      Lists.InitOfConcat(a, b);
    }
  }

  lemma {:induction false} ReadingsConcat(a: seq<Op>, b: seq<Op>)
    ensures Readings(a + b) == Readings(a) + Readings(b)
  {
    if b == [] {
      assert a + b == a;
    } else {
      ReadingsConcat(a, b[..|b| - 1]);
      Lists.InitOfConcat(a, b);
    }
  }

  lemma {:induction false} ReadingsMember(ops: seq<Op>, i: nat)
    requires i < |ops| && IsTokenRequest(ops[i])
    ensures ops[i].now in Readings(ops)
  {
    if i < |ops| - 1 {
      ReadingsMember(ops[..|ops| - 1], i);
    }
  }

  lemma OrderedFrom(ops: seq<Op>, i: nat, j: nat)
    requires i < j <= |ops| && IsTokenRequest(ops[i]) && Nondecreasing(Readings(ops))
    ensures ClockFrom(ops[i].now, ops[i + 1..j])
  {
    var rest := ops[i + 1..j];
    ReadingsSplit(ops, i, j);
    forall k | 0 <= k < |rest| && IsTokenRequest(rest[k])
      ensures ops[i].now <= rest[k].now
    {
      ReadingsMember(rest, k);
      LaterReading(Readings(ops[..i]), ops[i].now, Readings(rest), Readings(ops[j..]), rest[k].now);
    }
  }

  lemma ReadingsSplit(ops: seq<Op>, i: nat, j: nat)
    requires i < j <= |ops| && IsTokenRequest(ops[i])
    ensures Readings(ops) == Readings(ops[..i]) + [ops[i].now] + Readings(ops[i + 1..j]) + Readings(ops[j..])
  {
    Lists.SplitAround(ops, i, j);
    ReadingsConcat(ops[..i + 1] + ops[i + 1..j], ops[j..]);
    ReadingsConcat(ops[..i + 1], ops[i + 1..j]);
    Lists.OneMore(ops, i);
  }

  lemma LaterReading(a: seq<Instant>, t: Instant, b: seq<Instant>, c: seq<Instant>, u: Instant)
    requires Nondecreasing(a + [t] + b + c) && u in b
    ensures t <= u
  {
    var rs := a + [t] + b + c;
    var m :| 0 <= m < |b| && b[m] == u;
    assert rs[|a|] == t && rs[|a| + 1 + m] == u;
  }

  /** With clocks that do not run backwards tenures stay apart in every run. */
  lemma OrderedClocksKeepApart(w: World, ops: seq<Op>)
    requires NamedRun(ops) && Nondecreasing(Readings(ops))
    ensures TenuresApart(w, ops)
  {
    forall i, j | 0 <= i < j <= |ops| && Lapses(After(w, ops[..i]), ops[i])
      ensures Succeeds(After(w, ops[..i]).tok, After(w, ops[..j]).tok)
    {
      ApartAt(w, ops, i, j);
    }
  }

  lemma AfterSplit(w: World, ops: seq<Op>, i: nat, j: nat)
    requires i < j <= |ops|
    ensures After(w, ops[..j]) == After(Step(After(w, ops[..i]), ops[i]), ops[i + 1..j])
  {
    AfterConcat(w, ops[..i + 1], ops[i + 1..j]);
    assert ops[..i + 1][..i] == ops[..i] && ops[..i + 1] + ops[i + 1..j] == ops[..j];
  }

  lemma ApartAt(w: World, ops: seq<Op>, i: nat, j: nat)
    requires NamedRun(ops) && Nondecreasing(Readings(ops))
    requires i < j <= |ops| && Lapses(After(w, ops[..i]), ops[i])
    ensures Succeeds(After(w, ops[..i]).tok, After(w, ops[..j]).tok)
  {
    var wi := After(w, ops[..i]);
    LapseSucceeded(wi, ops[i]);
    OrderedFrom(ops, i, j);
    AfterSplit(w, ops, i, j);
    RunSucceeds(wi.tok, Step(wi, ops[i]), ops[i + 1..j]);
  }

  /** Status requests with the given clock readings. */
  function Statuses(rs: seq<Instant>): (r: seq<Op>)
    ensures |r| == |rs|
  {
    seq(|rs|, i requires 0 <= i < |rs| => Status(rs[i], rs[i]))
  }

  /** Status requests, with one claim by `b` at reading `d`. */
  function OneClaim(rs: seq<Instant>, d: nat): (r: seq<Op>)
    requires d < |rs|
    ensures |r| == |rs|
  {
    Statuses(rs[..d]) + [ClaimToken(rs[d], rs[d], "b", 1)] + Statuses(rs[d + 1..])
  }

  lemma {:induction false} StatusesRead(rs: seq<Instant>)
    ensures Readings(Statuses(rs)) == rs
  {
    if rs == [] {
    } else {
      StatusesRead(rs[..|rs| - 1]);
      assert Statuses(rs)[..|rs| - 1] == Statuses(rs[..|rs| - 1]);
    }
  }

  lemma OneClaimReads(rs: seq<Instant>, d: nat)
    requires d < |rs|
    ensures Readings(OneClaim(rs, d)) == rs && NamedRun(OneClaim(rs, d))
  {
    var claim := ClaimToken(rs[d], rs[d], "b", 1);
    StatusesRead(rs[..d]);
    StatusesRead(rs[d + 1..]);
    assert [claim][..0] == [];
    assert Readings([claim]) == [rs[d]];
    ReadingsConcat(Statuses(rs[..d]), [claim]);
    ReadingsConcat(Statuses(rs[..d]) + [claim], Statuses(rs[d + 1..]));
    assert rs == rs[..d] + [rs[d]] + rs[d + 1..];
  }

  /** Status requests leave a token alone until one reads a clock at or after its expiry. */
  lemma {:induction false} StatusesExpire(w: World, rs: seq<Instant>)
    ensures After(w, Statuses(rs)).tok
         == if w.tok.holder != "" && exists i :: 0 <= i < |rs| && w.tok.expiresAt <= rs[i]
            then Vacated(w.tok) else w.tok
  {
    if rs == [] {
    } else {
      StatusesExpire(w, rs[..|rs| - 1]);
      assert Statuses(rs)[..|rs| - 1] == Statuses(rs[..|rs| - 1]);
      if i :| 0 <= i < |rs| && w.tok.expiresAt <= rs[i] {
        assert i == |rs| - 1 || w.tok.expiresAt <= rs[..|rs| - 1][i];
      }
    }
  }

  /** The first reading that is no lower than a given one. */
  lemma {:induction false} FirstAsHigh(rs: seq<Instant>, i: nat) returns (k: nat)
    requires i < |rs|
    ensures k <= i && rs[i] <= rs[k] && forall m :: 0 <= m < k ==> rs[m] < rs[k]
    decreases i
  {
    k := i;
    if m :| 0 <= m < i && rs[i] <= rs[m] {
      k := FirstAsHigh(rs, m);
    }
  }

  /** A node that holds the token until `t`. */
  ghost function HeldUntil(t: Instant): World {
    Step(New(t - 1), ClaimToken(t - 1, t - 1, "a", 1))
  }

  /** A reading that runs backwards makes tenures overlap: the status request that read clock
      `k` drops the holder, and the claim that read the earlier clock `d` begins before the
      dropped lease has run out. */
  lemma StaleClockOverlaps(rs: seq<Instant>, k: nat, d: nat)
    requires k < d < |rs| && rs[d] < rs[k] && forall i :: 0 <= i < k ==> rs[i] < rs[k]
    ensures !TenuresApart(HeldUntil(rs[k]), OneClaim(rs, d))
  {
    var w, ops := HeldUntil(rs[k]), OneClaim(rs, d);
    assert w.tok == Token("a", rs[k] - 1, rs[k], 1);
    assert ops[..k] == Statuses(rs[..k]) && ops[..d] == Statuses(rs[..d]);
    StatusesExpire(w, rs[..k]);
    StatusesExpire(w, rs[..d]);
    assert rs[..d][k] == rs[k];
    assert After(w, ops[..k]).tok == w.tok && ops[k] == Status(rs[k], rs[k]);
    assert Lapses(After(w, ops[..k]), ops[k]);
    assert ops[..d + 1][..d] == ops[..d] && ops[d] == ClaimToken(rs[d], rs[d], "b", 1);
    assert After(w, ops[..d + 1]).tok == Token("b", rs[d], rs[d] + 1, 2);
  }

  /** Tenures stay apart in every run whose token requests read the clocks `rs` if and only if
      these do not run backwards. */
  lemma ApartExactly(rs: seq<Instant>)
    ensures (forall w, ops :: NamedRun(ops) && Readings(ops) == rs ==> TenuresApart(w, ops)) <==> Nondecreasing(rs)
  {
    if Nondecreasing(rs) {
      forall w, ops | NamedRun(ops) && Readings(ops) == rs
        ensures TenuresApart(w, ops)
      {
        OrderedClocksKeepApart(w, ops);
      }
    } else {
      var i, d :| 0 <= i < d < |rs| && rs[d] < rs[i];
      var k := FirstAsHigh(rs, i);
      OneClaimReads(rs, d);
      StaleClockOverlaps(rs, k, d);
    }
  }
}
