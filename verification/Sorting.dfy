/** Sorting strings: the order of Go's strings and the one sorted arrangement of a list. */
module Sorting {
  import opened Strings

  /** Lexicographic order by characters. */
  predicate LexLe(s: string, t: string) {
    s == "" || (t != "" && (s[0] < t[0] || (s[0] == t[0] && LexLe(s[1..], t[1..]))))
  }

  /** Strings compare at their first difference; a string comes before its continuations. */
  lemma {:induction false} LexExactly(s: string, t: string)
    ensures LexLe(s, t) <==> s <= t || exists k :: 0 <= k < |s| && k < |t| && s[..k] == t[..k] && s[k] < t[k]
  {
    if s != "" && t != "" && s[0] == t[0] {
      LexExactly(s[1..], t[1..]);
      assert s <= t <==> s[1..] <= t[1..] by {
        assert s == [s[0]] + s[1..] && t == [t[0]] + t[1..];
      }
      if k :| 0 <= k < |s[1..]| && k < |t[1..]| && s[1..][..k] == t[1..][..k] && s[1..][k] < t[1..][k] {
        assert s[..k + 1] == [s[0]] + s[1..][..k] && t[..k + 1] == [t[0]] + t[1..][..k];
      }
      if k :| 0 <= k < |s| && k < |t| && s[..k] == t[..k] && s[k] < t[k] {
        assert k > 0 && s[1..][..k - 1] == s[..k][1..] && t[1..][..k - 1] == t[..k][1..];
      }
    }
  }

  lemma {:induction false} LexTotal(s: string, t: string)
    ensures LexLe(s, t) || LexLe(t, s)
  {
    if s != "" && t != "" {
      LexTotal(s[1..], t[1..]);
    }
  }

  lemma {:induction false} LexAntisymmetric(s: string, t: string)
    requires LexLe(s, t) && LexLe(t, s)
    ensures s == t
  {
    if s != "" && t != "" {
      LexAntisymmetric(s[1..], t[1..]);
      assert s == [s[0]] + s[1..] && t == [t[0]] + t[1..];
    }
  }

  lemma {:induction false} LexTransitive(s: string, t: string, u: string)
    requires LexLe(s, t) && LexLe(t, u)
    ensures LexLe(s, u)
  {
    if s != "" && s[0] == t[0] == u[0] {
      LexTransitive(s[1..], t[1..], u[1..]);
    }
  }

  /** In the order of the keys. */
  ghost predicate SortedBy<T(!new)>(key: T -> string, s: seq<T>) {
    forall i, j :: 0 <= i < j < |s| ==> LexLe(key(s[i]), key(s[j]))
  }

  /** No two different elements share a key. */
  ghost predicate Distinguishes<T(!new)>(key: T -> string, s: seq<T>) {
    forall x, y :: x in s && y in s && key(x) == key(y) ==> x == y
  }

  function Insert<T>(key: T -> string, x: T, s: seq<T>): seq<T> {
    if s == [] || LexLe(key(x), key(s[0])) then [x] + s else [s[0]] + Insert(key, x, s[1..])
  }

  /** An arrangement of `s` sorted by key; the only one when the keys distinguish its elements. */
  function SortBy<T>(key: T -> string, s: seq<T>): seq<T> {
    if s == [] then [] else Insert(key, s[0], SortBy(key, s[1..]))
  }

  lemma {:induction false} InsertMultiset<T(!new)>(key: T -> string, x: T, s: seq<T>)
    ensures multiset(Insert(key, x, s)) == multiset{x} + multiset(s)
  {
    if s != [] && !LexLe(key(x), key(s[0])) {
      InsertMultiset(key, x, s[1..]);
      assert s == [s[0]] + s[1..];
    }
  }

  lemma {:induction false} InsertSorted<T(!new)>(key: T -> string, x: T, s: seq<T>)
    requires SortedBy(key, s)
    ensures SortedBy(key, Insert(key, x, s))
  {
    if s == [] {
    } else if LexLe(key(x), key(s[0])) {
      forall j | 0 <= j < |s|
        ensures LexLe(key(x), key(s[j]))
      {
        if j > 0 {
          LexTransitive(key(x), key(s[0]), key(s[j]));
        }
      }
    } else {
      LexTotal(key(x), key(s[0]));
      InsertSorted(key, x, s[1..]);
      InsertMultiset(key, x, s[1..]);
      forall y | y in Insert(key, x, s[1..])
        ensures LexLe(key(s[0]), key(y))
      {
        assert y in multiset(Insert(key, x, s[1..]));
        if y != x {
          assert y in s[1..];
        }
      }
    }
  }

  lemma {:induction false} SortBySorts<T(!new)>(key: T -> string, s: seq<T>)
    ensures SortedBy(key, SortBy(key, s)) && multiset(SortBy(key, s)) == multiset(s)
    ensures forall x :: x in SortBy(key, s) <==> x in s
  {
    var r := SortBy(key, s);
    if s == [] {
    } else {
      SortBySorts(key, s[1..]);
      InsertSorted(key, s[0], SortBy(key, s[1..]));
      InsertMultiset(key, s[0], SortBy(key, s[1..]));
      assert s == [s[0]] + s[1..];
    }
    forall x
      ensures x in r <==> x in s
    {
      assert x in r <==> x in multiset(r);
      assert x in s <==> x in multiset(s);
    }
  }

  /** The first element of a sorted list is least. */
  lemma FirstLeast<T(!new)>(key: T -> string, s: seq<T>, x: T)
    requires SortedBy(key, s) && x in s
    ensures LexLe(key(s[0]), key(x))
  {
    LexTotal(key(x), key(x));
  }

  lemma SameFirst<T(!new)>(key: T -> string, a: seq<T>, b: seq<T>)
    requires SortedBy(key, a) && SortedBy(key, b) && Distinguishes(key, a)
    requires a != [] && b != [] && a[0] in b && b[0] in a
    ensures a[0] == b[0]
  {
    FirstLeast(key, a, b[0]);
    FirstLeast(key, b, a[0]);
    LexAntisymmetric(key(a[0]), key(b[0]));
  }

  lemma WithoutFirst<T(!new)>(key: T -> string, s: seq<T>)
    requires s != []
    ensures multiset(s[1..]) == multiset(s) - multiset{s[0]}
    ensures SortedBy(key, s) ==> SortedBy(key, s[1..])
    ensures Distinguishes(key, s) ==> Distinguishes(key, s[1..])
  {
    assert s == [s[0]] + s[1..];
  }

  /** Two sorted lists of the same elements are the same list. */
  lemma {:induction false} SortedUnique<T(!new)>(key: T -> string, a: seq<T>, b: seq<T>)
    requires SortedBy(key, a) && SortedBy(key, b) && multiset(a) == multiset(b) && Distinguishes(key, a)
    ensures a == b
  {
    if a == [] {
      assert |multiset(a)| == 0;
    } else {
      assert a[0] in multiset(b);
      assert b[0] in multiset(a);
      SameFirst(key, a, b);
      WithoutFirst(key, a);
      WithoutFirst(key, b);
      SortedUnique(key, a[1..], b[1..]);
      SameFirstAndRest(a, b);
    }
  }

  lemma SameFirstAndRest<T(!new)>(a: seq<T>, b: seq<T>)
    requires a != [] && b != [] && a[0] == b[0] && a[1..] == b[1..]
    ensures a == b
  {
    assert a == [a[0]] + a[1..] && b == [b[0]] + b[1..];
  }

  /** Sorting forgets the order and nothing else. */
  lemma SortBySame<T(!new)>(key: T -> string, a: seq<T>, b: seq<T>)
    requires Distinguishes(key, a)
    ensures SortBy(key, a) == SortBy(key, b) <==> multiset(a) == multiset(b)
  {
    SortBySorts(key, a);
    SortBySorts(key, b);
    if multiset(a) == multiset(b) {
      SortedUnique(key, SortBy(key, a), SortBy(key, b));
    }
  }

  // ---------------------------------------------------------------- strings

  ghost predicate Sorted(s: seq<string>) {
    SortedBy(Itself, s)
  }

  function Sort(s: seq<string>): seq<string> {
    SortBy(Itself, s)
  }
}
