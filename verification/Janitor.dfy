/** The registry under its janitor: instances by address, so that a request can still hold
    one that a sweep has dropped. Every act reads the clock, which does not run backwards. */
module Janitor {
  import opened Times
  import opened Tokens
  import opened InstanceSpec

  /** The values the program is started with: the registry's ttl and the token lease. */
  const REGISTRY_TTL := 10 * MINUTE
  const TOKEN_LEASE := 30 * SECOND

  /** A request that has fetched the instance at `addr` at time `since`. */
  datatype Open = Open(addr: nat, since: Instant)

  /** `heap` holds every instance ever created, `names` their ids, `live` the registered ones. */
  datatype RegState = RegState(
    heap: seq<World>, names: seq<string>, live: map<string, nat>, open: map<nat, Open>, clock: Instant, ttl: int)

  ghost predicate Shaped(r: RegState) {
    && |r.names| == |r.heap|
    && (forall id :: id in r.live ==> r.live[id] < |r.heap| && r.names[r.live[id]] == id)
    && (forall rid :: rid in r.open ==> r.open[rid].addr < |r.heap|)
  }

  type Reg = r: RegState | Shaped(r) witness RegState([], [], map[], map[], 0, 0)

  datatype Act =
    | Fetch(t: Instant, rid: nat, id: string)
    | Serve(t: Instant, rid: nat, op: Op)
    | Close(t: Instant, rid: nat)
    | Sweep(t: Instant)

  function NewReg(t: Instant, ttl: int): Reg {
    RegState([], [], map[], map[], t, ttl)
  }

  /** A sweep at `t` drops the instances not accessed for longer than the ttl. */
  ghost predicate Idle(r: Reg, id: string, t: Instant)
    requires id in r.live
  {
    0 < r.ttl && r.ttl < t - r.heap[r.live[id]].lastAccess
  }

  ghost function Perform(r: Reg, act: Act): Reg {
    match act
    case Fetch(t, rid, id) =>
      if id in r.live then
        var a := r.live[id];
        r.(heap := r.heap[a := Step(r.heap[a], Touch(t))], open := r.open[rid := Open(a, t)], clock := t)
      else
        r.(heap := r.heap + [New(t)], names := r.names + [id], live := r.live[id := |r.heap|],
           open := r.open[rid := Open(|r.heap|, t)], clock := t)
    case Serve(t, rid, op) =>
      if rid in r.open then
        var a := r.open[rid].addr;
        r.(heap := r.heap[a := Step(r.heap[a], op)], clock := t)
      else r.(clock := t)
    case Close(t, rid) => r.(open := r.open - {rid}, clock := t)
    case Sweep(t) => r.(live := map id | id in r.live && !Idle(r, id, t) :: r.live[id], clock := t)
  }

  ghost function RegAfter(r: Reg, acts: seq<Act>): Reg {
    if acts == [] then r else Perform(RegAfter(r, acts[..|acts| - 1]), acts[|acts| - 1])
  }

  /** What the environment keeps to: clocks do not run backwards, request ids are fresh, a
      request is served within `delay` of its fetch, with clocks read no later than its service,
      and no token lease it takes is longer than `lease`. */
  ghost predicate Orderly(r: Reg, act: Act, delay: int, lease: int) {
    && r.clock <= act.t
    && (act.Fetch? ==> act.rid !in r.open)
    && (act.Serve? ==>
          && act.op.at == act.t
          && (act.rid in r.open ==> act.t - r.open[act.rid].since <= delay)
          && ((act.op.ClaimToken? || act.op.RenewToken?) ==> act.op.now <= act.t && act.op.lease <= lease)
          && (act.op.PollItems? ==> act.op.now <= act.t))
  }

  ghost predicate OrderlyRun(r: Reg, acts: seq<Act>, delay: int, lease: int) {
    acts != [] ==>
      var init := acts[..|acts| - 1];
      OrderlyRun(r, init, delay, lease) && Orderly(RegAfter(r, init), acts[|acts| - 1], delay, lease)
  }

  // ---------------------------------------------------------------- leases and accesses

  ghost predicate Bounded(w: World, lease: int) {
    w.tok.holder != "" ==> w.tok.expiresAt <= w.lastAccess + lease
  }

  /** Accesses and fetches are not in the future, and a token outlives the last access by at
      most the longest lease. */
  ghost predicate Calm(r: Reg, lease: int) {
    && (forall a :: 0 <= a < |r.heap| ==> r.heap[a].lastAccess <= r.clock && Bounded(r.heap[a], lease))
    && (forall rid :: rid in r.open ==> r.open[rid].since <= r.heap[r.open[rid].addr].lastAccess)
  }

  lemma StepBounded(w: World, op: Op, lease: int)
    requires Bounded(w, lease) && w.lastAccess <= op.at
    requires (op.ClaimToken? || op.RenewToken?) ==> op.now <= op.at && op.lease <= lease
    ensures Bounded(Step(w, op), lease) && Step(w, op).lastAccess == op.at
  {
  }

  lemma ActCalm(r: Reg, act: Act, delay: int, lease: int)
    requires Calm(r, lease) && Orderly(r, act, delay, lease)
    ensures Calm(Perform(r, act), lease)
  {
    match act
    case Fetch(t, _, id) =>
      if id in r.live {
        StepBounded(r.heap[r.live[id]], Touch(t), lease);
      }
    case Serve(_, _, _) => ServeCalm(r, act, delay, lease);
    case Close(_, _) =>
    case Sweep(_) =>
  }

  lemma ServeCalm(r: Reg, act: Act, delay: int, lease: int)
    requires Calm(r, lease) && act.Serve? && Orderly(r, act, delay, lease)
    ensures Calm(Perform(r, act), lease)
  {
    if act.rid in r.open {
      StepBounded(r.heap[r.open[act.rid].addr], act.op, lease);
    }
  }

  lemma {:induction false} RunCalm(r: Reg, acts: seq<Act>, delay: int, lease: int)
    requires Calm(r, lease) && OrderlyRun(r, acts, delay, lease)
    ensures Calm(RegAfter(r, acts), lease) && RegAfter(r, acts).ttl == r.ttl
  {
    if acts == [] {
    } else {
      RunCalm(r, acts[..|acts| - 1], delay, lease);
      ActCalm(RegAfter(r, acts[..|acts| - 1]), acts[|acts| - 1], delay, lease);
    }
  }

  // ---------------------------------------------------------------- dropped instances

  ghost predicate Registered(r: Reg, a: nat)
    requires a < |r.heap|
  {
    r.names[a] in r.live && r.live[r.names[a]] == a
  }

  /** A dropped instance has no active token, and a request that was fetched no longer than the
      ttl ago is on an instance that is still registered. */
  ghost predicate Sound(r: Reg) {
    && (forall a :: 0 <= a < |r.heap| && !Registered(r, a) ==> !Active(r.heap[a].tok, r.clock))
    && (forall rid :: rid in r.open && r.clock - r.open[rid].since <= r.ttl ==> Registered(r, r.open[rid].addr))
  }

  lemma FetchSound(r: Reg, act: Act)
    requires Sound(r) && act.Fetch? && r.clock <= act.t
    ensures Sound(Perform(r, act))
  {
    if act.id !in r.live {
      FetchNewSound(r, act);
    }
  }

  lemma FetchNewSound(r: Reg, act: Act)
    requires Sound(r) && act.Fetch? && r.clock <= act.t && act.id !in r.live
    ensures Sound(Perform(r, act))
  {
    var r' := Perform(r, act);
    forall a | 0 <= a < |r.heap|
      ensures r'.heap[a] == r.heap[a] && (Registered(r, a) ==> Registered(r', a))
    {
      FetchNewRegisters(r, act, a);
    }
    FetchNewRegisters(r, act, |r.heap|);
  }

  lemma FetchNewRegisters(r: Reg, act: Act, a: nat)
    requires act.Fetch? && act.id !in r.live && a <= |r.heap|
    ensures var r' := Perform(r, act);
            && a < |r'.heap|
            && (a < |r.heap| ==> r'.heap[a] == r.heap[a] && (Registered(r, a) <==> Registered(r', a)))
            && (a == |r.heap| ==> Registered(r', a))
  {
  }

  lemma ServeSound(r: Reg, act: Act, delay: int, lease: int)
    requires Sound(r) && act.Serve? && Orderly(r, act, delay, lease) && delay <= r.ttl
    ensures Sound(Perform(r, act))
  {
    var r' := Perform(r, act);
    forall a | 0 <= a < |r.heap|
      ensures Registered(r', a) <==> Registered(r, a)
      ensures !Registered(r, a) ==> r'.heap[a] == r.heap[a]
    {
    }
  }

  lemma SweepSound(r: Reg, act: Act, lease: int)
    requires Sound(r) && Calm(r, lease) && act.Sweep? && r.clock <= act.t && lease <= r.ttl + 1
    ensures Sound(Perform(r, act))
  {
  }

  lemma ActSound(r: Reg, act: Act, delay: int, lease: int)
    requires Sound(r) && Calm(r, lease) && Orderly(r, act, delay, lease)
    requires delay <= r.ttl && lease <= r.ttl + 1
    ensures Sound(Perform(r, act))
  {
    match act
    case Fetch(_, _, _) => FetchSound(r, act);
    case Serve(_, _, _) => ServeSound(r, act, delay, lease);
    case Close(_, _) =>
    case Sweep(_) => SweepSound(r, act, lease);
  }

  lemma {:induction false} RunSound(t: Instant, ttl: int, acts: seq<Act>, delay: int, lease: int)
    requires OrderlyRun(NewReg(t, ttl), acts, delay, lease) && delay <= ttl && lease <= ttl + 1
    ensures Sound(RegAfter(NewReg(t, ttl), acts))
  {
    if acts == [] {
    } else {
      var init := acts[..|acts| - 1];
      RunSound(t, ttl, init, delay, lease);
      RunCalm(NewReg(t, ttl), init, delay, lease);
      ActSound(RegAfter(NewReg(t, ttl), init), acts[|acts| - 1], delay, lease);
    }
  }

  // ---------------------------------------------------------------- one active token

  ghost predicate BothActive(r: Reg, a: nat, b: nat)
    requires a < |r.heap| && b < |r.heap|
  {
    r.names[a] == r.names[b] && Active(r.heap[a].tok, r.clock) && Active(r.heap[b].tok, r.clock)
  }

  /** Of all instances ever created for one filesystem id at most one has an active token. */
  ghost predicate OneActive(r: Reg) {
    forall a, b :: 0 <= a < |r.heap| && 0 <= b < |r.heap| && BothActive(r, a, b) ==> a == b
  }

  /** Sweeping and recreating instances never splits the lock. */
  ghost predicate NeverSplit(ttl: int, delay: int, lease: int) {
    forall t, acts :: OrderlyRun(NewReg(t, ttl), acts, delay, lease) ==> OneActive(RegAfter(NewReg(t, ttl), acts))
  }

  /** Without a ttl nothing is dropped. */
  lemma {:induction false} AllRegistered(t: Instant, ttl: int, acts: seq<Act>)
    requires ttl <= 0
    ensures var r := RegAfter(NewReg(t, ttl), acts);
            r.ttl == ttl && forall a :: 0 <= a < |r.heap| ==> Registered(r, a)
  {
    if acts == [] {
    } else {
      AllRegistered(t, ttl, acts[..|acts| - 1]);
      ActRegistered(RegAfter(NewReg(t, ttl), acts[..|acts| - 1]), acts[|acts| - 1]);
    }
  }

  lemma ActRegistered(r: Reg, act: Act)
    requires r.ttl <= 0 && forall a :: 0 <= a < |r.heap| ==> Registered(r, a)
    ensures var r' := Perform(r, act); forall a :: 0 <= a < |r'.heap| ==> Registered(r', a)
  {
    var r' := Perform(r, act);
    forall a | 0 <= a < |r'.heap|
      ensures Registered(r', a)
    {
      if act.Fetch? && act.id !in r.live {
        FetchNewRegisters(r, act, a);
      } else {
        assert Registered(r, a);
        assert r'.names == r.names && r'.live == r.live;
      }
    }
  }

  ghost predicate Unheld(r: Reg) {
    forall a :: 0 <= a < |r.heap| ==> r.heap[a].tok.holder == ""
  }

  /** When no request can be served in time, no token is ever held. */
  lemma {:induction false} NeverHeld(t: Instant, ttl: int, acts: seq<Act>, delay: int, lease: int)
    requires OrderlyRun(NewReg(t, ttl), acts, delay, lease) && delay < 0
    ensures Unheld(RegAfter(NewReg(t, ttl), acts))
  {
    if acts == [] {
    } else {
      var init := acts[..|acts| - 1];
      NeverHeld(t, ttl, init, delay, lease);
      RunCalm(NewReg(t, ttl), init, delay, lease);
      ActUnheld(RegAfter(NewReg(t, ttl), init), acts[|acts| - 1], delay, lease);
    }
  }

  lemma ActUnheld(r: Reg, act: Act, delay: int, lease: int)
    requires Unheld(r) && Calm(r, lease) && Orderly(r, act, delay, lease) && delay < 0
    ensures Unheld(Perform(r, act))
  {
    assert act.Serve? ==> act.rid !in r.open;
  }

  lemma RunExtends(r: Reg, acts: seq<Act>, act: Act, delay: int, lease: int)
    requires OrderlyRun(r, acts, delay, lease) && Orderly(RegAfter(r, acts), act, delay, lease)
    ensures OrderlyRun(r, acts + [act], delay, lease)
    ensures RegAfter(r, acts + [act]) == Perform(RegAfter(r, acts), act)
  {
    assert (acts + [act])[..|acts|] == acts;
  }

  /** Request 1 fetches an instance at time 0. */
  function Fetched(): seq<Act> {
    [] + [Fetch(0, 1, "fs")]
  }

  /** The only instance, fetched by request 1 at time 0. */
  ghost function Single(w: World, ttl: nat): Reg {
    RegState([w], ["fs"], map["fs" := 0], map[1 := Open(0, 0)], 0, ttl)
  }

  lemma FetchedState(ttl: nat, delay: int, lease: int)
    ensures OrderlyRun(NewReg(0, ttl), Fetched(), delay, lease)
    ensures RegAfter(NewReg(0, ttl), Fetched()) == Single(New(0), ttl)
  {
    RunExtends(NewReg(0, ttl), [], Fetch(0, 1, "fs"), delay, lease);
  }

  /** When the ttl has passed a sweep drops the instance, and request 2 fetches a new one. */
  function Replaced(before: seq<Act>, ttl: nat): seq<Act> {
    before + [Sweep(ttl + 1)] + [Fetch(ttl + 1, 2, "fs")]
  }

  lemma ReplacedState(before: seq<Act>, w: World, ttl: nat, delay: int, lease: int)
    requires 0 < ttl && w.lastAccess == 0 && OrderlyRun(NewReg(0, ttl), before, delay, lease)
    requires RegAfter(NewReg(0, ttl), before) == Single(w, ttl)
    ensures OrderlyRun(NewReg(0, ttl), Replaced(before, ttl), delay, lease)
    ensures RegAfter(NewReg(0, ttl), Replaced(before, ttl))
         == RegState([w, New(ttl + 1)], ["fs", "fs"], map["fs" := 1],
                     map[1 := Open(0, 0), 2 := Open(1, ttl + 1)], ttl + 1, ttl)
  {
    RunExtends(NewReg(0, ttl), before, Sweep(ttl + 1), delay, lease);
    SingleDropped(w, ttl);
    RunExtends(NewReg(0, ttl), before + [Sweep(ttl + 1)], Fetch(ttl + 1, 2, "fs"), delay, lease);
    DroppedReplaced(w, ttl);
  }

  lemma DroppedReplaced(w: World, ttl: nat)
    ensures Perform(Single(w, ttl).(live := map[], clock := ttl + 1), Fetch(ttl + 1, 2, "fs"))
         == RegState([w, New(ttl + 1)], ["fs", "fs"], map["fs" := 1],
                     map[1 := Open(0, 0), 2 := Open(1, ttl + 1)], ttl + 1, ttl)
  {
  }

  lemma SingleDropped(w: World, ttl: nat)
    requires 0 < ttl && w.lastAccess == 0
    ensures Perform(Single(w, ttl), Sweep(ttl + 1)) == Single(w, ttl).(live := map[], clock := ttl + 1)
  {
  }

  /** Request 2 claims the new token; the old instance is left as it was. */
  function Reclaimed(before: seq<Act>, ttl: nat): seq<Act> {
    Replaced(before, ttl) + [Serve(ttl + 1, 2, ClaimToken(ttl + 1, ttl + 1, "a", 1))]
  }

  lemma NewWorldClaims(ttl: nat)
    ensures Step(New(ttl + 1), ClaimToken(ttl + 1, ttl + 1, "a", 1)).tok == Token("a", ttl + 1, ttl + 2, 1)
  {
  }

  lemma ReclaimedState(before: seq<Act>, w: World, ttl: nat, delay: int, lease: int)
    requires 0 < ttl && 0 <= delay && 0 < lease && w.lastAccess == 0 && OrderlyRun(NewReg(0, ttl), before, delay, lease)
    requires RegAfter(NewReg(0, ttl), before) == Single(w, ttl)
    ensures OrderlyRun(NewReg(0, ttl), Reclaimed(before, ttl), delay, lease)
    ensures var r := RegAfter(NewReg(0, ttl), Reclaimed(before, ttl));
            && |r.heap| == 2 && r.names == ["fs", "fs"] && r.clock == ttl + 1
            && r.heap[0] == w && r.heap[1].tok == Token("a", ttl + 1, ttl + 2, 1)
            && r.open == map[1 := Open(0, 0), 2 := Open(1, ttl + 1)]
  {
    ReplacedState(before, w, ttl, delay, lease);
    NewWorldClaims(ttl);
    var claim := Serve(ttl + 1, 2, ClaimToken(ttl + 1, ttl + 1, "a", 1));
    RunExtends(NewReg(0, ttl), Replaced(before, ttl), claim, delay, lease);
  }

  /** Request 1 comes late. */
  function SlowRequest(ttl: nat): seq<Act> {
    Reclaimed(Fetched(), ttl) + [Serve(ttl + 1, 1, ClaimToken(ttl + 1, ttl + 1, "b", 1))]
  }

  lemma OldWorldClaims(ttl: nat)
    ensures Step(New(0), ClaimToken(ttl + 1, ttl + 1, "b", 1)).tok == Token("b", ttl + 1, ttl + 2, 1)
  {
  }

  /** A request served more than the ttl after its fetch claims the token of the dropped
      instance while the new instance of the same id has an active token too. */
  lemma SlowRequestSplitsLock(ttl: nat, delay: int, lease: int)
    requires 0 < ttl < delay && 0 < lease
    ensures OrderlyRun(NewReg(0, ttl), SlowRequest(ttl), delay, lease)
    ensures !OneActive(RegAfter(NewReg(0, ttl), SlowRequest(ttl)))
  {
    var claim := Serve(ttl + 1, 1, ClaimToken(ttl + 1, ttl + 1, "b", 1));
    FetchedState(ttl, delay, lease);
    ReclaimedState(Fetched(), New(0), ttl, delay, lease);
    OldWorldClaims(ttl);
    RunExtends(NewReg(0, ttl), Reclaimed(Fetched(), ttl), claim, delay, lease);
    var r := RegAfter(NewReg(0, ttl), SlowRequest(ttl));
    assert r.heap[0].tok == Token("b", ttl + 1, ttl + 2, 1);
    assert BothActive(r, 0, 1);
  }

  /** Request 1 takes a lease that outlives the ttl. */
  function Leased(ttl: nat): seq<Act> {
    Fetched() + [Serve(0, 1, ClaimToken(0, 0, "a", ttl + 2))]
  }

  ghost function LeasedWorld(ttl: nat): World {
    Step(New(0), ClaimToken(0, 0, "a", ttl + 2))
  }

  lemma LeasedState(ttl: nat, delay: int, lease: int)
    requires 0 <= delay && ttl + 1 < lease
    ensures OrderlyRun(NewReg(0, ttl), Leased(ttl), delay, lease)
    ensures RegAfter(NewReg(0, ttl), Leased(ttl)) == Single(LeasedWorld(ttl), ttl)
    ensures LeasedWorld(ttl).lastAccess == 0 && LeasedWorld(ttl).tok == Token("a", 0, ttl + 2, 1)
  {
    FetchedState(ttl, delay, lease);
    RunExtends(NewReg(0, ttl), Fetched(), Serve(0, 1, ClaimToken(0, 0, "a", ttl + 2)), delay, lease);
  }

  /** A lease of ttl + 2 outlives the sweep that drops its instance, and a new instance of the
      same id grants the token again. */
  lemma LongLeaseSplitsLock(ttl: nat, delay: int, lease: int)
    requires 0 < ttl && 0 <= delay && ttl + 1 < lease
    ensures OrderlyRun(NewReg(0, ttl), Reclaimed(Leased(ttl), ttl), delay, lease)
    ensures !OneActive(RegAfter(NewReg(0, ttl), Reclaimed(Leased(ttl), ttl)))
  {
    LeasedState(ttl, delay, lease);
    ReclaimedState(Leased(ttl), LeasedWorld(ttl), ttl, delay, lease);
    assert BothActive(RegAfter(NewReg(0, ttl), Reclaimed(Leased(ttl), ttl)), 0, 1);
  }

  lemma RegisteredOnce(r: Reg)
    requires forall a :: 0 <= a < |r.heap| && Active(r.heap[a].tok, r.clock) ==> Registered(r, a)
    ensures OneActive(r)
  {
    forall a, b | 0 <= a < |r.heap| && 0 <= b < |r.heap| && BothActive(r, a, b)
      ensures a == b
    {
      assert Registered(r, a) && Registered(r, b);
    }
  }

  lemma NotHeldOnce(r: Reg)
    requires Unheld(r)
    ensures OneActive(r)
  {
  }

  lemma CalmNeverActive(r: Reg, lease: int, a: nat)
    requires Calm(r, lease) && lease <= 0 && a < |r.heap|
    ensures !Active(r.heap[a].tok, r.clock)
  {
    assert Bounded(r.heap[a], lease);
  }

  lemma OneActiveWithin(t: Instant, ttl: int, acts: seq<Act>, delay: int, lease: int)
    requires OrderlyRun(NewReg(t, ttl), acts, delay, lease)
    requires ttl <= 0 || delay < 0 || lease <= 0 || (delay <= ttl && lease <= ttl + 1)
    ensures OneActive(RegAfter(NewReg(t, ttl), acts))
  {
    var r := RegAfter(NewReg(t, ttl), acts);
    if ttl <= 0 {
      AllRegistered(t, ttl, acts);
      RegisteredOnce(r);
    } else if delay < 0 {
      NeverHeld(t, ttl, acts, delay, lease);
      NotHeldOnce(r);
    } else if lease <= 0 {
      RunCalm(NewReg(t, ttl), acts, delay, lease);
      forall a | 0 <= a < |r.heap|
        ensures !Active(r.heap[a].tok, r.clock)
      {
        CalmNeverActive(r, lease, a);
      }
      RegisteredOnce(r);
    } else {
      RunSound(t, ttl, acts, delay, lease);
      RegisteredOnce(r);
    }
  }

  /** The lock is never split if and only if nothing is ever dropped, or nothing can be claimed,
      or requests are served within the ttl and leases are at most one longer than it. */
  lemma NeverSplitExactly(ttl: int, delay: int, lease: int)
    ensures NeverSplit(ttl, delay, lease)
       <==> ttl <= 0 || delay < 0 || lease <= 0 || (delay <= ttl && lease <= ttl + 1)
  {
    if ttl <= 0 || delay < 0 || lease <= 0 || (delay <= ttl && lease <= ttl + 1) {
      forall t, acts | OrderlyRun(NewReg(t, ttl), acts, delay, lease)
        ensures OneActive(RegAfter(NewReg(t, ttl), acts))
      {
        OneActiveWithin(t, ttl, acts, delay, lease);
      }
    } else if ttl < delay {
      SlowRequestSplitsLock(ttl, delay, lease);
    } else {
      LongLeaseSplitsLock(ttl, delay, lease);
    }
  }

  // ---------------------------------------------------------------- what a sweep drops

  /** A sweep drops only instances whose token has expired. */
  ghost predicate DropsOnlyExpired(r: Reg, at: Instant) {
    forall id :: id in r.live && id !in Perform(r, Sweep(at)).live ==> Expired(r.heap[r.live[id]].tok, at)
  }

  ghost predicate SweepsDropOnlyExpired(ttl: int, delay: int, lease: int) {
    forall t, acts, at :: OrderlyRun(NewReg(t, ttl), acts, delay, lease) && RegAfter(NewReg(t, ttl), acts).clock <= at
                          ==> DropsOnlyExpired(RegAfter(NewReg(t, ttl), acts), at)
  }

  lemma CalmDrops(r: Reg, lease: int, at: Instant)
    requires Calm(r, lease) && lease <= r.ttl + 1
    ensures DropsOnlyExpired(r, at)
  {
  }

  /** That holds in every run, however late requests are served, if and only if leases are at
      most one longer than the ttl, or nothing is dropped or served. */
  lemma DropsOnlyExpiredExactly(ttl: int, delay: int, lease: int)
    ensures SweepsDropOnlyExpired(ttl, delay, lease) <==> ttl <= 0 || delay < 0 || lease <= ttl + 1
  {
    if ttl <= 0 || delay < 0 || lease <= ttl + 1 {
      forall t, acts, at | OrderlyRun(NewReg(t, ttl), acts, delay, lease) && RegAfter(NewReg(t, ttl), acts).clock <= at
        ensures DropsOnlyExpired(RegAfter(NewReg(t, ttl), acts), at)
      {
        RunCalm(NewReg(t, ttl), acts, delay, lease);
        if delay < 0 {
          NeverHeld(t, ttl, acts, delay, lease);
        } else if 0 < ttl {
          CalmDrops(RegAfter(NewReg(t, ttl), acts), lease, at);
        }
      }
    } else {
      LongLeaseDropped(ttl, delay, lease);
    }
  }

  lemma LongLeaseDropped(ttl: nat, delay: int, lease: int)
    requires 0 < ttl && 0 <= delay && ttl + 1 < lease
    ensures OrderlyRun(NewReg(0, ttl), Leased(ttl), delay, lease)
    ensures var r := RegAfter(NewReg(0, ttl), Leased(ttl));
            r.clock <= ttl + 1 && !DropsOnlyExpired(r, ttl + 1)
  {
    LeasedState(ttl, delay, lease);
    var r := RegAfter(NewReg(0, ttl), Leased(ttl));
    assert "fs" in r.live && "fs" !in Perform(r, Sweep(ttl + 1)).live;
  }

  /** With the ttl and the token lease the program uses, sweeps never drop an active token, and
      the lock is never split exactly if every request is served within ten minutes. */
  lemma DeployedBounds(delay: int)
    ensures SweepsDropOnlyExpired(REGISTRY_TTL, delay, TOKEN_LEASE)
    ensures NeverSplit(REGISTRY_TTL, delay, TOKEN_LEASE) <==> delay <= REGISTRY_TTL
  {
    DropsOnlyExpiredExactly(REGISTRY_TTL, delay, TOKEN_LEASE);
    NeverSplitExactly(REGISTRY_TTL, delay, TOKEN_LEASE);
  }

  // ---------------------------------------------------------------- worker leases

  lemma {:induction false} AccessGrows(r: Reg, acts: seq<Act>, a: nat, delay: int, lease: int)
    requires Calm(r, lease) && OrderlyRun(r, acts, delay, lease) && a < |r.heap|
    ensures a < |RegAfter(r, acts).heap|
    ensures r.heap[a].lastAccess <= RegAfter(r, acts).heap[a].lastAccess
  {
    if acts == [] {
    } else {
      var init, last := acts[..|acts| - 1], acts[|acts| - 1];
      AccessGrows(r, init, a, delay, lease);
      RunCalm(r, init, delay, lease);
      ActAccess(RegAfter(r, init), last, a, delay, lease);
    }
  }

  lemma ActAccess(r: Reg, act: Act, a: nat, delay: int, lease: int)
    requires Calm(r, lease) && Orderly(r, act, delay, lease) && a < |r.heap|
    ensures a < |Perform(r, act).heap| && r.heap[a].lastAccess <= Perform(r, act).heap[a].lastAccess
  {
    if act.Serve? && act.rid in r.open {
      StepBounded(r.heap[r.open[act.rid].addr], act.op, lease);
    }
  }

  /** When a sweep drops an instance, every worker lease that a poll took there is over,
      provided worker leases are at most one longer than the ttl. */
  lemma SweepDropsNoWorkerLease(r: Reg, poll: Act, acts: seq<Act>, at: Instant, id: string, delay: int, lease: int)
    requires Calm(r, lease) && poll.Serve? && poll.op.PollItems? && Orderly(r, poll, delay, lease) && poll.rid in r.open
    requires OrderlyRun(Perform(r, poll), acts, delay, lease)
    requires var a, r2 := r.open[poll.rid].addr, RegAfter(Perform(r, poll), acts);
             && r.heap[a].q.lease <= r.ttl + 1
             && r2.clock <= at && id in r2.live && r2.live[id] == a && id !in Perform(r2, Sweep(at)).live
    ensures UnixMilli(poll.op.now + r.heap[r.open[poll.rid].addr].q.lease) <= UnixMilli(at)
  {
    var a := r.open[poll.rid].addr;
    ActCalm(r, poll, delay, lease);
    RunCalm(Perform(r, poll), acts, delay, lease);
    StepBounded(r.heap[a], poll.op, lease);
    AccessGrows(Perform(r, poll), acts, a, delay, lease);
    UnixMilliMonotone(poll.op.now + r.heap[a].q.lease, at);
  }

  lemma StepKeepsQueueLease(w: World, op: Op)
    ensures Step(w, op).q.lease == w.q.lease
  {
  }

  /** Every instance leases its items for a minute. */
  lemma {:induction false} WorkerLeaseFixed(t: Instant, ttl: int, acts: seq<Act>)
    ensures var r := RegAfter(NewReg(t, ttl), acts);
            r.ttl == ttl && forall a :: 0 <= a < |r.heap| ==> r.heap[a].q.lease == MINUTE
  {
    if acts == [] {
    } else {
      WorkerLeaseFixed(t, ttl, acts[..|acts| - 1]);
      var r, act := RegAfter(NewReg(t, ttl), acts[..|acts| - 1]), acts[|acts| - 1];
      if act.Serve? && act.rid in r.open {
        StepKeepsQueueLease(r.heap[r.open[act.rid].addr], act.op);
      }
    }
  }

  /** With the ttl the program uses no sweep ever drops a live worker lease. */
  lemma DeployedWorkerLeases(t: Instant, before: seq<Act>, poll: Act, acts: seq<Act>, at: Instant, id: string,
        delay: int, lease: int)
    requires OrderlyRun(NewReg(t, REGISTRY_TTL), before, delay, lease)
    requires var r := RegAfter(NewReg(t, REGISTRY_TTL), before);
             && poll.Serve? && poll.op.PollItems? && poll.rid in r.open && Orderly(r, poll, delay, lease)
             && OrderlyRun(Perform(r, poll), acts, delay, lease)
             && var r2 := RegAfter(Perform(r, poll), acts);
                && r2.clock <= at && id in r2.live && r2.live[id] == r.open[poll.rid].addr
                && id !in Perform(r2, Sweep(at)).live
    ensures UnixMilli(poll.op.now + MINUTE) <= UnixMilli(at)
  {
    var r := RegAfter(NewReg(t, REGISTRY_TTL), before);
    RunCalm(NewReg(t, REGISTRY_TTL), before, delay, lease);
    WorkerLeaseFixed(t, REGISTRY_TTL, before);
    SweepDropsNoWorkerLease(r, poll, acts, at, id, delay, lease);
  }
}
