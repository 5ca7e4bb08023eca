/** Rebuilding the queue: pull pending changes from peers, enqueue them, count what was new. */
module Reconcile {
  import opened QueueSpec
  import opened PulledItems
  import Queues
  import QueueRuns

  /** What becomes of an enqueue request: answered, never delivered, or its answer is lost. */
  datatype Fate = Answered | NotDelivered | AnswerLost

  /** A pending change of a peer, with the fate of the request that offers it to the queue. */
  datatype Offer = Offer(change: PendingChange, fate: Fate)

  /** What comes of asking one peer: no address, an error, or its pending changes. */
  datatype PeerReply = BlankPeer | PullFailed | Pulled(offers: seq<Offer>)

  /** All changes pulled, in order. */
  ghost function Offers(replies: seq<PeerReply>): seq<Offer> {
    if replies == [] then []
    else
      var init, last := Offers(replies[..|replies| - 1]), replies[|replies| - 1];
      if last.Pulled? then init + last.offers else init
  }

  /** The ids that reach the queue, in order. */
  ghost function Arrived(os: seq<Offer>): seq<string> {
    if os == [] then []
    else
      var init, last := Arrived(os[..|os| - 1]), os[|os| - 1];
      if last.fate.NotDelivered? then init else init + [last.change.eventId]
  }

  /** The ids among `ids` that a queue which has seen `seen` would insert. */
  ghost function NewIds(ids: seq<string>, seen: set<string>): set<string> {
    set id | id in ids && id != "" && id !in seen
  }

  /** The new ids whose insertion was answered: the first request for the id to arrive was. */
  ghost function Counted(os: seq<Offer>, seen: set<string>): set<string> {
    if os == [] then {}
    else
      var init, last := os[..|os| - 1], os[|os| - 1];
      var id := last.change.eventId;
      if last.fate.Answered? && id != "" && id !in seen && id !in Arrived(init)
      then Counted(init, seen) + {id}
      else Counted(init, seen)
  }

  /** The item tells what the change tells; nobody has it or acknowledged it, and its epoch is 0. */
  predicate Carries(it: Item, x: PendingChange) {
    && it.eventId == x.eventId && it.nodeId == x.nodeId && it.tsUnixMs == x.tsUnixMs
    && it.kind == x.kind && it.summary == x.summary
    && it.worker == "" && it.leaseUntilMs == 0 && it.tokenEpoch == 0
    && !it.acked && it.ackBy == "" && it.ackMsg == "" && it.ackUnixMs == 0
  }

  lemma CarriesExactly(it: Item, x: PendingChange)
    ensures Carries(it, x) <==> it == PulledItem(x)
  {
  }

  /** The items built for a peer's changes, in order. */
  method PullPending(offers: seq<Offer>) returns (out: seq<Item>)
    ensures |out| == |offers| && forall i :: 0 <= i < |out| ==> Carries(out[i], offers[i].change)
  {
    out := [];
    var i := 0;
    while i < |offers|
      invariant 0 <= i <= |offers| && |out| == i
      invariant forall j :: 0 <= j < i ==> Carries(out[j], offers[j].change)
    {
      var x := offers[i].change;
      out := out + [Item(x.eventId, x.nodeId, x.tsUnixMs, x.kind, x.summary, "", 0, false, "", "", 0, 0)];
      i := i + 1;
    }
  }

  lemma ArrivedSnoc(os: seq<Offer>, o: Offer)
    ensures Arrived(os + [o]) == if o.fate.NotDelivered? then Arrived(os) else Arrived(os) + [o.change.eventId]
  {
    assert (os + [o])[..|os|] == os;
  }

  lemma NewIdsSnoc(ids: seq<string>, id: string, seen: set<string>)
    ensures var before := NewIds(ids, seen);
            NewIds(ids + [id], seen) == if id != "" && id !in seen then before + {id} else before
  {
  }

  lemma CountedSnoc(os: seq<Offer>, o: Offer, seen: set<string>)
    ensures var id := o.change.eventId;
            Counted(os + [o], seen)
              == if o.fate.Answered? && id != "" && id !in seen && id !in NewIds(Arrived(os), seen)
                 then Counted(os, seen) + {id} else Counted(os, seen)
  {
    assert (os + [o])[..|os|] == os;
  }

  lemma {:induction false} CountedArrived(os: seq<Offer>, seen: set<string>)
    ensures Counted(os, seen) <= NewIds(Arrived(os), seen)
    ensures (forall o :: o in os ==> o.fate.Answered?) ==> Counted(os, seen) == NewIds(Arrived(os), seen)
  {
    if os == [] {
    } else {
      var init, last := os[..|os| - 1], os[|os| - 1];
      CountedArrived(init, seen);
      assert os == init + [last];
      ArrivedSnoc(init, last);
      CountedSnoc(init, last, seen);
      NewIdsSnoc(Arrived(init), last.change.eventId, seen);
    }
  }

  /** The queue has seen `seen0` and the ids offered since; `count` of these were counted. */
  ghost predicate Offered(s: State, seen0: set<string>, done: seq<Offer>, all: seq<Offer>, count: nat) {
    && Valid(s) && s.seen == seen0 + NewIds(Arrived(all), seen0)
    && |Counted(done, seen0)| + count == |Counted(all, seen0)|
  }

  lemma OfferOne(s: State, seen0: set<string>, done: seq<Offer>, all: seq<Offer>, count: nat, o: Offer)
    requires Offered(s, seen0, done, all, count)
    ensures var r := Enqueue(s, PulledItem(o.change));
            Offered(if o.fate.NotDelivered? then s else r.0, seen0, done, all + [o],
                    if o.fate.Answered? && r.1 == Enqueued(true) then count + 1 else count)
  {
    ArrivedSnoc(all, o);
    CountsOne(all, o, seen0);
    if !o.fate.NotDelivered? {
      NewIdsSnoc(Arrived(all), o.change.eventId, seen0);
      EnqueueSeen(s, PulledItem(o.change));
    }
  }

  /** Every id seen since `seen0` is queued, with what a delivered change of that id tells. */
  ghost predicate Stored(s: State, seen0: set<string>, all: seq<Offer>) {
    forall id :: id in s.seen && id !in seen0 ==> id in s.items && StoredFrom(s.items[id], all)
  }

  ghost predicate StoredFrom(it: Item, all: seq<Offer>) {
    exists o :: o in all && !o.fate.NotDelivered? && Carries(it, o.change)
  }

  lemma StoreOne(s: State, seen0: set<string>, all: seq<Offer>, o: Offer)
    requires Valid(s) && seen0 <= s.seen && Stored(s, seen0, all)
    ensures Stored(if o.fate.NotDelivered? then s else Enqueue(s, PulledItem(o.change)).0, seen0, all + [o])
  {
    var it := PulledItem(o.change);
    assert forall x :: x in all ==> x in all + [o];
    assert forall i :: StoredFrom(i, all) ==> StoredFrom(i, all + [o]);
    assert o in all + [o];
    if !o.fate.NotDelivered? {
      assert StoredFrom(it, all + [o]);
    }
  }

  lemma CountsOne(all: seq<Offer>, o: Offer, seen0: set<string>)
    ensures var id := o.change.eventId;
            var isNew := id != "" && id !in seen0 + NewIds(Arrived(all), seen0);
            |Counted(all + [o], seen0)| == |Counted(all, seen0)| + (if o.fate.Answered? && isNew then 1 else 0)
  {
    CountedSnoc(all, o, seen0);
    CountedArrived(all, seen0);
  }

  lemma EnqueueSeen(s: State, it: Item)
    requires Valid(s)
    ensures var isNew := it.eventId != "" && it.eventId !in s.seen;
            && Valid(Enqueue(s, it).0)
            && Enqueue(s, it).0.seen == (if isNew then s.seen + {it.eventId} else s.seen)
            && (Enqueue(s, it).1 == Enqueued(true) <==> isNew)
  {
    QueueRuns.EnqueueValid(s, it);
  }

  lemma UpTo(done: seq<Offer>, os: seq<Offer>, i: nat)
    requires i <= |os|
    ensures i == 0 ==> done + os[..i] == done
    ensures i == |os| ==> done + os[..i] == done + os
    ensures i < |os| ==> done + os[..i + 1] == done + os[..i] + [os[i]]
  {
  }

  /** What one reconcile request does to the ids a queue has seen, and what it reports. */
  ghost predicate Reconciled(replies: seq<PeerReply>, seen: set<string>, seen': set<string>, pulled: nat, enqNew: nat) {
    && pulled == |Offers(replies)|
    && enqNew == |Counted(Offers(replies), seen)|
    && seen' == seen + NewIds(Arrived(Offers(replies)), seen)
  }

  /** The reconcile request counts what it pulled and the answered insertions. */
  method Run(q: Queues.Queue, replies: seq<PeerReply>) returns (pulled: nat, enqNew: nat)
    requires Valid(q.View())
    modifies q
    ensures Valid(q.View()) && Reconciled(replies, old(q.seen), q.seen, pulled, enqNew)
    ensures Stored(q.View(), old(q.seen), Offers(replies))
  {
    pulled, enqNew := 0, 0;
    ghost var seen0 := q.seen;
    ghost var done: seq<Offer> := [];
    var p := 0;
    while p < |replies|
      invariant 0 <= p <= |replies| && done == Offers(replies[..p])
      invariant pulled == |done| && Offered(q.View(), seen0, [], done, enqNew)
      invariant Stored(q.View(), seen0, done)
    {
      assert replies[..p + 1][..p] == replies[..p];
      if replies[p].Pulled? {
        var items := PullPending(replies[p].offers);
        pulled := pulled + |items|;
        var more := EnqueueAll(q, items, replies[p].offers, done, seen0);
        done := done + replies[p].offers;
        enqNew := enqNew + more;
      }
      p := p + 1;
    }
    assert replies[..p] == replies;
  }

  /** The inner loop: offer one peer's items to the queue and count the answered insertions. */
  method EnqueueAll(q: Queues.Queue, items: seq<Item>, offers: seq<Offer>, ghost done: seq<Offer>,
        ghost seen0: set<string>)
    returns (count: nat)
    requires |items| == |offers| && forall i :: 0 <= i < |items| ==> Carries(items[i], offers[i].change)
    requires Offered(q.View(), seen0, done, done, 0) && Stored(q.View(), seen0, done)
    modifies q
    ensures Offered(q.View(), seen0, done, done + offers, count) && Stored(q.View(), seen0, done + offers)
  {
    count := 0;
    var i := 0;
    UpTo(done, offers, 0);
    while i < |items|
      invariant 0 <= i <= |items|
      invariant Offered(q.View(), seen0, done, done + offers[..i], count)
      invariant Stored(q.View(), seen0, done + offers[..i])
    {
      OfferOne(q.View(), seen0, done, done + offers[..i], count, offers[i]);
      StoreOne(q.View(), seen0, done + offers[..i], offers[i]);
      CarriesExactly(items[i], offers[i].change);
      UpTo(done, offers, i);
      if !offers[i].fate.NotDelivered? {
        var reply := q.Enqueue(items[i]);
        if offers[i].fate.Answered? && reply == Enqueued(true) {
          count := count + 1;
        }
      }
      i := i + 1;
    }
    UpTo(done, offers, i);
  }

  // ---------------------------------------------------------------- what the count means

  /** When every request is answered the count is the number of distinct non-blank ids that
      the queue had not seen; otherwise it is at most that. */
  lemma CountsNewIds(replies: seq<PeerReply>, seen: set<string>, seen': set<string>, pulled: nat, enqNew: nat)
    requires Reconciled(replies, seen, seen', pulled, enqNew)
    ensures enqNew <= |NewIds(Arrived(Offers(replies)), seen)| == |seen'| - |seen|
    ensures (forall o :: o in Offers(replies) ==> o.fate.Answered?) ==> enqNew == |seen'| - |seen|
  {
    var news := NewIds(Arrived(Offers(replies)), seen);
    CountedArrived(Offers(replies), seen);
    SubsetCardinality(Counted(Offers(replies), seen), news);
    assert seen !! news && seen' == seen + news;
  }

  lemma SubsetCardinality(a: set<string>, b: set<string>)
    requires a <= b
    ensures |a| <= |b|
  {
    assert b == a + (b - a);
  }

  /** An id arrives exactly if some peer answered with a change of that id whose request was
      delivered. */
  lemma {:induction false} ArrivedExactly(replies: seq<PeerReply>, id: string)
    ensures id in Arrived(Offers(replies)) <==>
            exists p, o :: p in replies && p.Pulled? && o in p.offers && !o.fate.NotDelivered? && o.change.eventId == id
  {
    var os := Offers(replies);
    forall o
      ensures o in os <==> exists p :: p in replies && p.Pulled? && o in p.offers
    {
      OffersMember(replies, o);
    }
    DeliveredArrive(os, id);
  }

  lemma {:induction false} OffersMember(replies: seq<PeerReply>, o: Offer)
    ensures o in Offers(replies) <==> exists p :: p in replies && p.Pulled? && o in p.offers
  {
    if replies == [] {
    } else {
      OffersMember(replies[..|replies| - 1], o);
      assert forall p :: p in replies <==> p in replies[..|replies| - 1] || p == replies[|replies| - 1];
    }
  }

  lemma {:induction false} DeliveredArrive(os: seq<Offer>, id: string)
    ensures id in Arrived(os) <==> exists o :: o in os && !o.fate.NotDelivered? && o.change.eventId == id
  {
    if os == [] {
    } else {
      DeliveredArrive(os[..|os| - 1], id);
      assert forall o :: o in os <==> o in os[..|os| - 1] || o == os[|os| - 1];
    }
  }

  /** The same changes, whatever becomes of the requests. */
  ghost predicate SameChanges(a: seq<Offer>, b: seq<Offer>) {
    |a| == |b| && forall i :: 0 <= i < |a| ==> a[i].change == b[i].change
  }

  /** A second reconcile over the same changes counts nothing and leaves the seen ids as they
      are, if every request of the first was delivered, whatever the queue did in between. */
  lemma RepeatInsertsNothing(first: seq<PeerReply>, seen0: set<string>, seen1: set<string>, p1: nat, n1: nat,
                             second: seq<PeerReply>, between: set<string>, seen2: set<string>, p2: nat, n2: nat)
    requires Reconciled(first, seen0, seen1, p1, n1) && seen1 <= between
    requires Reconciled(second, between, seen2, p2, n2)
    requires SameChanges(Offers(first), Offers(second))
    requires forall o :: o in Offers(first) ==> !o.fate.NotDelivered?
    ensures n2 == 0 && p2 == p1 && seen2 == between
  {
    var a, b := Offers(first), Offers(second);
    forall id | id in Arrived(b) && id != ""
      ensures id in between
    {
      DeliveredArrive(b, id);
      var o :| o in b && o.change.eventId == id;
      var i :| 0 <= i < |b| && b[i] == o;
      assert a[i] in a;
      DeliveredArrive(a, id);
    }
    assert NewIds(Arrived(b), between) == {};
    CountedArrived(b, between);
    assert Counted(b, between) == {};
  }
}
