/** A client that polls with the number of its last event gets the history in order. */
module EventDelivery {
  import opened Times
  import opened Lists
  import opened InstanceSpec
  import InstanceAudit

  /** One poll: the history at that time and the limit asked for. */
  datatype EventPoll = EventPoll(log: seq<Event>, limit: int)

  /** The client's cursor after some polls: the number of the last event it received. */
  ghost function Cursor(polls: seq<EventPoll>, max: nat): nat {
    if polls == [] then 0
    else
      var c := Cursor(polls[..|polls| - 1], max);
      var out := Delivery(polls[|polls| - 1].log, max, c, polls[|polls| - 1].limit);
      if out == [] then c else out[|out| - 1].seqNo
  }

  ghost function Received(polls: seq<EventPoll>, max: nat): seq<Event> {
    if polls == [] then []
    else
      var init, last := polls[..|polls| - 1], polls[|polls| - 1];
      Received(init, max) + Delivery(last.log, max, Cursor(init, max), last.limit)
  }

  /** The histories polled are numbered, and each extends the one before. */
  ghost predicate Growing(polls: seq<EventPoll>) {
    && (forall i :: 0 <= i < |polls| ==> Numbered(polls[i].log))
    && (forall i, j :: 0 <= i <= j < |polls| ==> polls[i].log <= polls[j].log)
  }

  /** At every poll the client is at most `max` events behind. */
  ghost predicate NeverLags(polls: seq<EventPoll>, max: nat) {
    polls != [] ==>
      var init := polls[..|polls| - 1];
      NeverLags(init, max) && |polls[|polls| - 1].log| <= Cursor(init, max) + max
  }

  lemma DeliveryNumbers(log: seq<Event>, max: nat, after: nat, limit: int)
    requires Numbered(log)
    ensures var out := Delivery(log, max, after, limit);
            forall i :: 0 <= i < |out| ==> out[i].seqNo == Max(after, |log| - max) + 1 + i
  {
  }

  /** The first number received tells exactly how many events were lost to the capacity. */
  lemma FirstNumberRevealsLoss(log: seq<Event>, max: nat, after: nat, limit: int)
    requires Numbered(log) && after <= |log|
    ensures var out := Delivery(log, max, after, limit);
            var lost := Max(0, |log| - max - after);
            && (out == [] <==> after == |log| || max == 0)
            && (out != [] ==> out[0].seqNo - after - 1 == lost)
            && (out != [] ==> out == log[after + lost..after + lost + |out|])
            && |out| == Min(if 1 <= limit <= 512 then limit else 128, |log| - after - lost)
  {
    DeliveryNumbers(log, max, after, limit);
  }

  /** One more poll appends the next events to what the client has. */
  lemma PollExtends(log: seq<Event>, max: nat, c: nat, limit: int)
    requires Numbered(log) && c <= |log| <= c + max
    ensures var out := Delivery(log, max, c, limit);
            var c' := if out == [] then c else out[|out| - 1].seqNo;
            c <= c' <= |log| && log[..c] + out == log[..c']
            && (c' == |log| || |out| == if 1 <= limit <= 512 then limit else 128)
  {
    var out := Delivery(log, max, c, limit);
    if out != [] {
      DeliveryNumbers(log, max, c, limit);
      assert log[..c] + log[c..c + |out|] == log[..c + |out|];
    }
  }

  lemma GrowingInit(polls: seq<EventPoll>, max: nat)
    requires polls != [] && Growing(polls) && NeverLags(polls, max)
    ensures var init, last := polls[..|polls| - 1], polls[|polls| - 1];
            && Growing(init) && NeverLags(init, max) && Numbered(last.log)
            && |last.log| <= Cursor(init, max) + max
            && (init != [] ==> init[|init| - 1].log <= last.log)
  {
  }

  lemma PrefixTake(a: seq<Event>, b: seq<Event>, c: nat)
    requires a <= b && c <= |a|
    ensures a[..c] == b[..c]
  {
  }

  /** A client that never lags by more than the capacity has received every event up to its
      cursor, once each and in order. */
  lemma {:induction false} EveryEventOnce(polls: seq<EventPoll>, max: nat)
    requires polls != [] && Growing(polls) && NeverLags(polls, max)
    ensures var log := polls[|polls| - 1].log;
            Cursor(polls, max) <= |log| && Received(polls, max) == log[..Cursor(polls, max)]
  {
    var init, last := polls[..|polls| - 1], polls[|polls| - 1];
    var c := Cursor(init, max);
    GrowingInit(polls, max);
    if init == [] {
    } else {
      EveryEventOnce(init, max);
      PrefixTake(init[|init| - 1].log, last.log, c);
    }
    PollExtends(last.log, max, c, last.limit);
  }

  // ---------------------------------------------------------------- a client of a running instance

  /** What happens at an instance: a request of anybody, or a poll of this client. */
  datatype Happening = Request(op: Op) | ClientPoll(at: Instant, limit: int)

  /** What it does to the instance. */
  function Served(h: Happening): Op {
    if h.Request? then h.op else Touch(h.at)
  }

  ghost function WorldAfter(start: Instant, hs: seq<Happening>): World {
    if hs == [] then New(start)
    else
      Step(WorldAfter(start, hs[..|hs| - 1]), Served(hs[|hs| - 1]))
  }

  /** The client's polls, each with the history of the instance at that time. */
  ghost function PollsOf(start: Instant, hs: seq<Happening>): seq<EventPoll> {
    if hs == [] then []
    else
      var init, last := hs[..|hs| - 1], hs[|hs| - 1];
      if last.Request? then PollsOf(start, init)
      else PollsOf(start, init) + [EventPoll(WorldAfter(start, init).log, last.limit)]
  }

  ghost predicate NamedRequests(hs: seq<Happening>) {
    forall i :: 0 <= i < |hs| && hs[i].Request? ==> Named(hs[i].op)
  }

  ghost predicate Behind(polls: seq<EventPoll>, log: seq<Event>) {
    forall i :: 0 <= i < |polls| ==> polls[i].log <= log
  }

  lemma PollsGrow(polls: seq<EventPoll>, poll: EventPoll)
    requires Growing(polls) && Numbered(poll.log)
    requires Behind(polls, poll.log)
    ensures Growing(polls + [poll]) && Behind(polls + [poll], poll.log)
  {
  }

  lemma {:induction false} PollsAreGrowing(start: Instant, hs: seq<Happening>)
    requires NamedRequests(hs)
    ensures Growing(PollsOf(start, hs)) && Behind(PollsOf(start, hs), WorldAfter(start, hs).log)
  {
    if hs == [] {
    } else {
      var init, last := hs[..|hs| - 1], hs[|hs| - 1];
      var w := WorldAfter(start, init);
      PollsAreGrowing(start, init);
      InstanceAudit.StepGrows(w, Served(last));
      if last.ClientPoll? {
        HistoryNumbered(start, init);
        PollsGrow(PollsOf(start, init), EventPoll(w.log, last.limit));
      }
    }
  }

  lemma {:induction false} HistoryNumbered(start: Instant, hs: seq<Happening>)
    requires NamedRequests(hs)
    ensures InstanceAudit.Accounts(WorldAfter(start, hs)) && Numbered(WorldAfter(start, hs).log)
  {
    if hs == [] {
    } else {
      HistoryNumbered(start, hs[..|hs| - 1]);
      InstanceAudit.StepAccounts(WorldAfter(start, hs[..|hs| - 1]), Served(hs[|hs| - 1]));
    }
  }

  /** A client of a new instance that never lags by more than the capacity has received, in
      whatever way its polls and other requests interleave, the history of the instance up to
      its cursor, once each and in order. */
  lemma ClientReceivesHistory(start: Instant, hs: seq<Happening>)
    requires NamedRequests(hs) && NeverLags(PollsOf(start, hs), MAX_EVENTS)
    ensures var log, c := WorldAfter(start, hs).log, Cursor(PollsOf(start, hs), MAX_EVENTS);
            c <= |log| && Received(PollsOf(start, hs), MAX_EVENTS) == log[..c]
  {
    var polls := PollsOf(start, hs);
    PollsAreGrowing(start, hs);
    if polls != [] {
      EveryEventOnce(polls, MAX_EVENTS);
      PrefixTake(polls[|polls| - 1].log, WorldAfter(start, hs).log, Cursor(polls, MAX_EVENTS));
    }
  }
}
