/** Facts about sequences that several components share. */
module Lists {

  ghost predicate NoDup<T(!new)>(s: seq<T>) {
    forall i, j :: 0 <= i < j < |s| ==> s[i] != s[j]
  }

  ghost predicate SameMembers<T(!new)>(a: seq<T>, b: seq<T>) {
    forall x :: x in a <==> x in b
  }

  function Take<T>(s: seq<T>, n: nat): (r: seq<T>) {
    if n < |s| then s[..n] else s
  }

  function Min(a: int, b: int): int {
    if a <= b then a else b
  }

  function Max(a: int, b: int): int {
    if a <= b then b else a
  }

  /** The elements of `s` that are in `keep`, in their order. */
  ghost function Kept<T(!new)>(s: seq<T>, keep: set<T>): seq<T> {
    if s == [] then []
    else
      var last := s[|s| - 1];
      Kept(s[..|s| - 1], keep) + (if last in keep then [last] else [])
  }

  lemma {:induction false} KeptMembers<T(!new)>(s: seq<T>, keep: set<T>)
    ensures forall x :: x in Kept(s, keep) <==> x in s && x in keep
  {
    if s == [] {
    } else {
      KeptMembers(s[..|s| - 1], keep);
      assert s == s[..|s| - 1] + [s[|s| - 1]];
    }
  }

  lemma KeptSnoc<T(!new)>(s: seq<T>, x: T, keep: set<T>)
    ensures Kept(s + [x], keep) == Kept(s, keep) + (if x in keep then [x] else [])
  {
    assert (s + [x])[..|s|] == s;
  }

  lemma {:induction false} KeptNoDup<T(!new)>(s: seq<T>, keep: set<T>)
    requires NoDup(s)
    ensures NoDup(Kept(s, keep))
  {
    if s == [] {
    } else {
      KeptNoDup(s[..|s| - 1], keep);
      KeptMembers(s[..|s| - 1], keep);
    }
  }

  lemma {:induction false} KeptAll<T(!new)>(s: seq<T>, keep: set<T>)
    requires forall x :: x in s ==> x in keep
    ensures Kept(s, keep) == s
  {
    if s == [] {
    } else {
      KeptAll(s[..|s| - 1], keep);
      assert s == s[..|s| - 1] + [s[|s| - 1]];
    }
  }

  lemma {:induction false} KeptSameOn<T(!new)>(s: seq<T>, keep: set<T>, keep': set<T>)
    requires forall x :: x in s ==> (x in keep <==> x in keep')
    ensures Kept(s, keep) == Kept(s, keep')
  {
    if s == [] {
    } else {
      KeptSameOn(s[..|s| - 1], keep, keep');
    }
  }

  lemma KeptInsert<T(!new)>(s: seq<T>, x: T, keep: set<T>)
    requires x !in s
    ensures Kept(s + [x], keep + {x}) == Kept(s, keep) + [x]
  {
    KeptSnoc(s, x, keep + {x});
    KeptSameOn(s, keep, keep + {x});
  }

  lemma {:induction false} KeptKept<T(!new)>(s: seq<T>, outer: set<T>, inner: set<T>)
    requires inner <= outer
    ensures Kept(Kept(s, outer), inner) == Kept(s, inner)
  {
    if s == [] {
    } else {
      var init, last := s[..|s| - 1], s[|s| - 1];
      KeptKept(init, outer, inner);
      if last in outer {
        KeptSnoc(Kept(init, outer), last, inner);
      } else {
        assert Kept(s, outer) == Kept(init, outer);
      }
    }
  }

  lemma KeysUpdate<K(!new), V>(m: map<K, V>, k: K, v: V)
    ensures m[k := v].Keys == m.Keys + {k}
  {
  }

  lemma NoDupSnoc<T(!new)>(s: seq<T>, x: T)
    requires NoDup(s) && x !in s
    ensures NoDup(s + [x])
  {
  }

  /** A duplicate-free sequence is as long as its set of elements. */
  lemma {:induction false} NoDupCardinality<T(!new)>(s: seq<T>)
    requires NoDup(s)
    ensures |set x | x in s| == |s|
  {
    if s == [] {
    } else {
      var init, last := s[..|s| - 1], s[|s| - 1];
      NoDupCardinality(init);
      assert (set x | x in s) == (set x | x in init) + {last};
    }
  }

  lemma {:induction false} NoDupMultiset<T(!new)>(s: seq<T>)
    requires NoDup(s)
    ensures multiset(s) == multiset(set x | x in s)
  {
    if s == [] {
    } else {
      var init, last := s[..|s| - 1], s[|s| - 1];
      NoDupMultiset(init);
      assert s == init + [last];
      assert (set x | x in s) == (set x | x in init) + {last};
    }
  }

  /** Duplicate-free sequences with the same elements are rearrangements of each other. */
  lemma NoDupSameMembers<T(!new)>(p: seq<T>, q: seq<T>)
    requires NoDup(p) && NoDup(q) && forall x :: x in p <==> x in q
    ensures multiset(p) == multiset(q)
  {
    NoDupMultiset(p);
    NoDupMultiset(q);
    assert (set x | x in p) == (set x | x in q);
  }

  lemma OneMore<T>(s: seq<T>, i: nat)
    requires i < |s|
    ensures s[..i + 1] == s[..i] + [s[i]] && s[..i + 1][..i] == s[..i]
  {
  }

  lemma InitOfConcat<T>(a: seq<T>, b: seq<T>)
    requires b != []
    ensures (a + b)[..|a + b| - 1] == a + b[..|b| - 1] && (a + b)[|a + b| - 1] == b[|b| - 1]
  {
  }

  lemma SplitAround<T>(s: seq<T>, i: nat, j: nat)
    requires i < j <= |s|
    ensures s == s[..i + 1] + s[i + 1..j] + s[j..]
  {
  }

  lemma Assoc<T>(a: seq<T>, b: seq<T>, c: seq<T>)
    ensures a + (b + c) == (a + b) + c
  {
  }

  lemma TakeMembers<T>(s: seq<T>, n: nat)
    ensures forall x :: x in Take(s, n) ==> x in s
    ensures |Take(s, n)| < n ==> Take(s, n) == s
  {
  }

  lemma TakeSnoc<T>(s: seq<T>, x: T, n: nat)
    ensures Take(s + [x], n) == if |Take(s, n)| < n then Take(s, n) + [x] else Take(s, n)
  {
  }
}
