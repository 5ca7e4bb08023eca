/** The preflight scan, second half: the difference of two indexes. */
module IndexDiff {
  import opened Lists
  import opened Strings
  import opened Sorting
  import opened Preflight

  // ---------------------------------------------------------------- the difference

  ghost function Added(prev: Files, ks: seq<string>): set<string> {
    set k | k in ks && k !in prev
  }

  ghost function Modified(prev: Files, cur: Files, ks: seq<string>): set<string> {
    set k | k in ks && Differs(prev, cur, k)
  }

  /** The keys of a map in sorted order. */
  ghost predicate KeyList(ks: seq<string>, keys: set<string>) {
    Sorted(ks) && NoDup(ks) && forall k :: k in ks <==> k in keys
  }

  method SortedKeys(m: Files) returns (ks: seq<string>)
    ensures KeyList(ks, m.Keys)
  {
    var list: seq<string> := [];
    var todo := m.Keys;
    while todo != {}
      invariant todo <= m.Keys && NoDup(list)
      invariant forall k :: k in list <==> k in m.Keys && k !in todo
      decreases |todo|
    {
      var k :| k in todo;
      list := list + [k];
      todo := todo - {k};
    }
    SortBySorts(Itself, list);
    ks := Sort(list);
    assert NoDup(ks) by {
      NoDupMultiset(list);
      UniqueNoDup(ks);
    }
  }

  lemma UniqueNoDup(s: seq<string>)
    requires forall x :: multiset(s)[x] <= 1
    ensures NoDup(s)
  {
    forall i, j | 0 <= i < j < |s|
      ensures multiset(s)[s[i]] >= (if s[i] == s[j] then 2 else 1)
    {
      assert s == s[..i] + [s[i]] + s[i + 1..j] + [s[j]] + s[j + 1..];
    }
  }

  /** There is one sorted list of the keys. */
  lemma KeyListUnique(a: seq<string>, b: seq<string>, keys: set<string>)
    requires KeyList(a, keys) && KeyList(b, keys)
    ensures a == b
  {
    NoDupSameMembers(a, b);
    SortedUnique(Itself, a, b);
  }

  function ChangeMark(prev: Files, cur: Files, k: string): seq<string> {
    if k !in prev then ["+ " + k]
    else if k in cur && prev[k] != cur[k] then ["~ " + k]
    else []
  }

  /** The marks of added and modified paths, in the order of `ks`. */
  ghost function ChangeMarks(prev: Files, cur: Files, ks: seq<string>): seq<string> {
    if ks == [] then [] else ChangeMarks(prev, cur, ks[..|ks| - 1]) + ChangeMark(prev, cur, ks[|ks| - 1])
  }

  function RemovalMark(cur: Files, k: string): seq<string> {
    if k in cur then [] else ["- " + k]
  }

  ghost function RemovalMarks(cur: Files, ks: seq<string>): seq<string> {
    if ks == [] then [] else RemovalMarks(cur, ks[..|ks| - 1]) + RemovalMark(cur, ks[|ks| - 1])
  }

  lemma TakeMore(s: seq<string>, t: seq<string>, n: nat)
    requires |t| <= 1
    ensures Take(s + t, n) == if |Take(s, n)| < n then Take(s, n) + t else Take(s, n)
  {
    if t == [] {
      assert s + t == s;
    } else {
      assert t == [t[0]];
      TakeSnoc(s, t[0], n);
    }
  }

  lemma AddedStep(prev: Files, done: seq<string>, k: string)
    requires k !in done
    ensures |Added(prev, done + [k])| == |Added(prev, done)| + (if k in prev then 0 else 1)
  {
    assert Added(prev, done + [k]) == Added(prev, done) + (if k in prev then {} else {k});
  }

  predicate Differs(prev: Files, cur: Files, k: string) {
    k in prev && k in cur && prev[k] != cur[k]
  }

  lemma ModifiedStep(prev: Files, cur: Files, done: seq<string>, k: string)
    requires k !in done
    ensures |Modified(prev, cur, done + [k])| == |Modified(prev, cur, done)| + (if Differs(prev, cur, k) then 1 else 0)
  {
    assert Modified(prev, cur, done + [k]) == Modified(prev, cur, done) + (if Differs(prev, cur, k) then {k} else {});
  }

  lemma ChangeStep(prev: Files, cur: Files, ks: seq<string>, i: nat)
    requires NoDup(ks) && i < |ks|
    ensures ChangeMarks(prev, cur, ks[..i + 1]) == ChangeMarks(prev, cur, ks[..i]) + ChangeMark(prev, cur, ks[i])
    ensures |Added(prev, ks[..i + 1])| == |Added(prev, ks[..i])| + (if ks[i] in prev then 0 else 1)
    ensures |Modified(prev, cur, ks[..i + 1])|
         == |Modified(prev, cur, ks[..i])| + (if Differs(prev, cur, ks[i]) then 1 else 0)
  {
    assert ks[..i + 1][..i] == ks[..i] && ks[..i + 1] == ks[..i] + [ks[i]];
    AddedStep(prev, ks[..i], ks[i]);
    ModifiedStep(prev, cur, ks[..i], ks[i]);
  }

  lemma RemovalStep(cur: Files, ks: seq<string>, i: nat)
    requires NoDup(ks) && i < |ks|
    ensures RemovalMarks(cur, ks[..i + 1]) == RemovalMarks(cur, ks[..i]) + RemovalMark(cur, ks[i])
    ensures |Added(cur, ks[..i + 1])| == |Added(cur, ks[..i])| + (if ks[i] in cur then 0 else 1)
  {
    assert ks[..i + 1][..i] == ks[..i] && ks[..i + 1] == ks[..i] + [ks[i]];
    AddedStep(cur, ks[..i], ks[i]);
  }

  /** How many paths were added, modified and removed, and the first marks in order. */
  datatype Diff = Diff(added: nat, modified: nat, removed: nat, sample: seq<string>)

  /** The paths whose size or time differs. */
  ghost function Altered(prev: Files, cur: Files): set<string> {
    set k | k in cur && Differs(prev, cur, k)
  }

  /** The difference of two indexes: three counts, and the first `limit` marks, those of added
      and changed paths before those of removed ones, each in the order of the paths. */
  ghost predicate IsDiff(d: Diff, prev: Files, cur: Files, limit: nat) {
    && d.added == |cur.Keys - prev.Keys|
    && d.modified == |Altered(prev, cur)|
    && d.removed == |prev.Keys - cur.Keys|
    && IsSample(d.sample, prev, cur, limit)
    && |d.sample| == Min(limit, d.added + d.modified + d.removed)
  }

  ghost predicate IsSample(sample: seq<string>, prev: Files, cur: Files, limit: nat) {
    exists ck, pk :: KeyList(ck, cur.Keys) && KeyList(pk, prev.Keys)
                     && sample == Take(ChangeMarks(prev, cur, ck) + RemovalMarks(cur, pk), limit)
  }

  /** The counts and the sample when the paths `done` have been compared. */
  ghost predicate Compared(prev: Files, cur: Files, done: seq<string>, limit: nat, added: nat, modified: nat,
                           sample: seq<string>)
  {
    && added == |Added(prev, done)| && modified == |Modified(prev, cur, done)|
    && sample == Take(ChangeMarks(prev, cur, done), limit)
    && |ChangeMarks(prev, cur, done)| == added + modified
  }

  lemma CompareOne(prev: Files, cur: Files, ks: seq<string>, i: nat, limit: nat, added: nat, modified: nat,
                   sample: seq<string>)
    requires NoDup(ks) && i < |ks| && ks[i] in cur && Compared(prev, cur, ks[..i], limit, added, modified, sample)
    ensures var k := ks[i];
            var isNew, differs := k !in prev, Differs(prev, cur, k);
            Compared(prev, cur, ks[..i + 1], limit, if isNew then added + 1 else added,
                     if differs then modified + 1 else modified,
                     if |sample| < limit then sample + ChangeMark(prev, cur, k) else sample)
  {
    ChangeStep(prev, cur, ks, i);
    TakeMore(ChangeMarks(prev, cur, ks[..i]), ChangeMark(prev, cur, ks[i]), limit);
  }

  method ScanChanges(prev: Files, cur: Files, ks: seq<string>, limit: nat)
    returns (added: nat, modified: nat, sample: seq<string>)
    requires KeyList(ks, cur.Keys)
    ensures Compared(prev, cur, ks, limit, added, modified, sample)
  {
    added, modified, sample := 0, 0, [];
    var i := 0;
    while i < |ks|
      invariant 0 <= i <= |ks|
      invariant Compared(prev, cur, ks[..i], limit, added, modified, sample)
    {
      var k := ks[i];
      CompareOne(prev, cur, ks, i, limit, added, modified, sample);
      i := i + 1;
      if k !in prev {
        added := added + 1;
        if |sample| < limit {
          sample := sample + ["+ " + k];
        }
      } else if prev[k].size != cur[k].size || prev[k].mtimeMs != cur[k].mtimeMs {
        modified := modified + 1;
        if |sample| < limit {
          sample := sample + ["~ " + k];
        }
      } else {
        assert sample + [] == sample;
      }
    }
    assert ks[..i] == ks;
  }

  /** The count and the sample when the paths `done` have been looked up. */
  ghost predicate LookedUp(cur: Files, marks: seq<string>, done: seq<string>, limit: nat, removed: nat,
                           sample: seq<string>)
  {
    removed == |Added(cur, done)| == |RemovalMarks(cur, done)| && sample == Take(marks + RemovalMarks(cur, done), limit)
  }

  lemma LookUpOne(cur: Files, marks: seq<string>, ks: seq<string>, i: nat, limit: nat, removed: nat,
                  sample: seq<string>)
    requires NoDup(ks) && i < |ks| && LookedUp(cur, marks, ks[..i], limit, removed, sample)
    ensures LookedUp(cur, marks, ks[..i + 1], limit, if ks[i] in cur then removed else removed + 1,
                     if |sample| < limit then sample + RemovalMark(cur, ks[i]) else sample)
  {
    RemovalStep(cur, ks, i);
    TakeMore(marks + RemovalMarks(cur, ks[..i]), RemovalMark(cur, ks[i]), limit);
    Assoc(marks, RemovalMarks(cur, ks[..i]), RemovalMark(cur, ks[i]));
  }

  method ScanRemovals(cur: Files, ks: seq<string>, limit: nat, ghost marks: seq<string>, before: seq<string>)
    returns (removed: nat, sample: seq<string>)
    requires NoDup(ks) && before == Take(marks, limit)
    ensures LookedUp(cur, marks, ks, limit, removed, sample)
  {
    removed, sample := 0, before;
    var i := 0;
    assert marks + RemovalMarks(cur, ks[..0]) == marks;
    while i < |ks|
      invariant 0 <= i <= |ks|
      invariant LookedUp(cur, marks, ks[..i], limit, removed, sample)
    {
      var k := ks[i];
      LookUpOne(cur, marks, ks, i, limit, removed, sample);
      i := i + 1;
      if k !in cur {
        removed := removed + 1;
        if |sample| < limit {
          sample := sample + ["- " + k];
        }
      } else {
        assert sample + [] == sample;
      }
    }
    assert ks[..i] == ks;
  }

  lemma CountsOverKeys(prev: Files, cur: Files, ck: seq<string>, pk: seq<string>)
    requires KeyList(ck, cur.Keys) && KeyList(pk, prev.Keys)
    ensures Added(prev, ck) == cur.Keys - prev.Keys && Added(cur, pk) == prev.Keys - cur.Keys
    ensures Modified(prev, cur, ck) == Altered(prev, cur)
  {
  }

  method DiffIndex(prev: Files, cur: Files, limit: nat) returns (d: Diff)
    ensures IsDiff(d, prev, cur, limit)
  {
    var curKeys := SortedKeys(cur);
    var added, modified, some := ScanChanges(prev, cur, curKeys, limit);
    var prevKeys := SortedKeys(prev);
    var removed, sample := ScanRemovals(cur, prevKeys, limit, ChangeMarks(prev, cur, curKeys), some);
    CountsOverKeys(prev, cur, curKeys, prevKeys);
    d := Diff(added, modified, removed, sample);
  }

  /** The two indexes determine the sample. */
  lemma SampleDetermined(s: seq<string>, t: seq<string>, prev: Files, cur: Files, limit: nat)
    requires IsSample(s, prev, cur, limit) && IsSample(t, prev, cur, limit)
    ensures s == t
  {
    var ck, pk :| KeyList(ck, cur.Keys) && KeyList(pk, prev.Keys)
                  && s == Take(ChangeMarks(prev, cur, ck) + RemovalMarks(cur, pk), limit);
    var ck', pk' :| KeyList(ck', cur.Keys) && KeyList(pk', prev.Keys)
                    && t == Take(ChangeMarks(prev, cur, ck') + RemovalMarks(cur, pk'), limit);
    KeyListUnique(ck, ck', cur.Keys);
    KeyListUnique(pk, pk', prev.Keys);
  }

  /** The mark of a path: plus for a new one, a tilde for a changed one, minus for one that is gone. */
  ghost predicate MarkFor(prev: Files, cur: Files, mark: string, k: string) {
    || (mark == "+ " + k && k in cur && k !in prev)
    || (mark == "~ " + k && k in cur && k in prev && prev[k] != cur[k])
    || (mark == "- " + k && k !in cur && k in prev)
  }

  lemma {:induction false} ChangeMarksMember(prev: Files, cur: Files, ks: seq<string>, mark: string)
    ensures mark in ChangeMarks(prev, cur, ks) <==> exists k :: k in ks && mark in ChangeMark(prev, cur, k)
  {
    if ks == [] {
    } else {
      ChangeMarksMember(prev, cur, ks[..|ks| - 1], mark);
      assert forall k :: k in ks <==> k in ks[..|ks| - 1] || k == ks[|ks| - 1];
    }
  }

  lemma {:induction false} RemovalMarksMember(cur: Files, ks: seq<string>, mark: string)
    ensures mark in RemovalMarks(cur, ks) <==> exists k :: k in ks && mark in RemovalMark(cur, k)
  {
    if ks == [] {
    } else {
      RemovalMarksMember(cur, ks[..|ks| - 1], mark);
      assert forall k :: k in ks <==> k in ks[..|ks| - 1] || k == ks[|ks| - 1];
    }
  }

  lemma AllMarks(prev: Files, cur: Files, ck: seq<string>, pk: seq<string>, mark: string)
    requires KeyList(ck, cur.Keys) && KeyList(pk, prev.Keys)
    ensures mark in ChangeMarks(prev, cur, ck) + RemovalMarks(cur, pk) <==> exists k :: MarkFor(prev, cur, mark, k)
  {
    ChangeMarksMember(prev, cur, ck, mark);
    RemovalMarksMember(cur, pk, mark);
    if k :| k in ck && mark in ChangeMark(prev, cur, k) {
      assert MarkFor(prev, cur, mark, k);
    }
    if k :| k in pk && mark in RemovalMark(cur, k) {
      assert MarkFor(prev, cur, mark, k);
    }
    if k :| MarkFor(prev, cur, mark, k) {
      assert (k in ck && mark in ChangeMark(prev, cur, k)) || (k in pk && mark in RemovalMark(cur, k));
    }
  }

  /** The sample consists of marks of paths, and of all of them if it is shorter than the limit. */
  lemma SampleMeans(sample: seq<string>, prev: Files, cur: Files, limit: nat)
    requires IsSample(sample, prev, cur, limit)
    ensures forall mark :: mark in sample ==> exists k :: MarkFor(prev, cur, mark, k)
    ensures |sample| < limit ==> forall mark, k :: MarkFor(prev, cur, mark, k) ==> mark in sample
  {
    var ck, pk :| KeyList(ck, cur.Keys) && KeyList(pk, prev.Keys)
                  && sample == Take(ChangeMarks(prev, cur, ck) + RemovalMarks(cur, pk), limit);
    var marks := ChangeMarks(prev, cur, ck) + RemovalMarks(cur, pk);
    TakeMembers(marks, limit);
    forall mark
      ensures mark in marks <==> exists k :: MarkFor(prev, cur, mark, k)
    {
      AllMarks(prev, cur, ck, pk, mark);
    }
  }

  /** Marks with two characters before the path, in the order of the paths. */
  ghost predicate InPathOrder(marks: seq<string>) {
    && (forall i :: 0 <= i < |marks| ==> |marks[i]| >= 2)
    && (forall i, j :: 0 <= i < j < |marks| ==> LexLe(marks[i][2..], marks[j][2..]))
  }

  ghost predicate MarksOf(marks: seq<string>, ks: seq<string>, removed: bool) {
    InPathOrder(marks) && forall m :: m in marks ==> m[2..] in ks && (m[0] == '-' <==> removed)
  }

  lemma MarksMore(marks: seq<string>, ks: seq<string>, removed: bool, k: string, more: seq<string>)
    requires MarksOf(marks, ks, removed) && Sorted(ks + [k])
    requires |more| <= 1 && forall m :: m in more ==> |m| >= 2 && m[2..] == k && (m[0] == '-' <==> removed)
    ensures MarksOf(marks + more, ks + [k], removed)
  {
    forall x | x in ks
      ensures LexLe(x, k)
    {
      var i :| 0 <= i < |ks| && ks[i] == x;
      assert (ks + [k])[i] == x && (ks + [k])[|ks|] == k;
    }
  }

  lemma SortedInit(ks: seq<string>)
    requires ks != [] && Sorted(ks)
    ensures Sorted(ks[..|ks| - 1]) && ks == ks[..|ks| - 1] + [ks[|ks| - 1]]
  {
  }

  lemma {:induction false} ChangesOrdered(prev: Files, cur: Files, ks: seq<string>)
    requires Sorted(ks)
    ensures MarksOf(ChangeMarks(prev, cur, ks), ks, false)
  {
    if ks == [] {
    } else {
      var init, k := ks[..|ks| - 1], ks[|ks| - 1];
      SortedInit(ks);
      ChangesOrdered(prev, cur, init);
      MarksMore(ChangeMarks(prev, cur, init), init, false, k, ChangeMark(prev, cur, k));
    }
  }

  lemma {:induction false} RemovalsOrdered(cur: Files, ks: seq<string>)
    requires Sorted(ks)
    ensures MarksOf(RemovalMarks(cur, ks), ks, true)
  {
    if ks == [] {
    } else {
      var init, k := ks[..|ks| - 1], ks[|ks| - 1];
      SortedInit(ks);
      RemovalsOrdered(cur, init);
      MarksMore(RemovalMarks(cur, init), init, true, k, RemovalMark(cur, k));
    }
  }

  /** Removals come last, and before and after that the paths are in order. */
  ghost predicate InSampleOrder(marks: seq<string>) {
    && (forall i :: 0 <= i < |marks| ==> |marks[i]| >= 2)
    && forall i, j :: 0 <= i < j < |marks| ==>
         && (marks[i][0] == '-' ==> marks[j][0] == '-')
         && ((marks[i][0] == '-' <==> marks[j][0] == '-') ==> LexLe(marks[i][2..], marks[j][2..]))
  }

  lemma ChangesThenRemovals(a: seq<string>, ks: seq<string>, b: seq<string>, ls: seq<string>)
    requires MarksOf(a, ks, false) && MarksOf(b, ls, true)
    ensures InSampleOrder(a + b)
  {
    var all := a + b;
    forall i, j | 0 <= i < j < |all|
      ensures |all[i]| >= 2 && |all[j]| >= 2
      ensures all[i][0] == '-' ==> all[j][0] == '-'
      ensures (all[i][0] == '-' <==> all[j][0] == '-') ==> LexLe(all[i][2..], all[j][2..])
    {
      assert all[i] == if i < |a| then a[i] else b[i - |a|];
      assert all[j] == if j < |a| then a[j] else b[j - |a|];
    }
  }

  lemma TakeInOrder(marks: seq<string>, n: nat)
    requires InSampleOrder(marks)
    ensures InSampleOrder(Take(marks, n))
  {
  }

  /** The sample is in that order. */
  lemma SampleOrdered(sample: seq<string>, prev: Files, cur: Files, limit: nat)
    requires IsSample(sample, prev, cur, limit)
    ensures InSampleOrder(sample)
  {
    var ck, pk :| KeyList(ck, cur.Keys) && KeyList(pk, prev.Keys)
                  && sample == Take(ChangeMarks(prev, cur, ck) + RemovalMarks(cur, pk), limit);
    ChangesOrdered(prev, cur, ck);
    RemovalsOrdered(cur, pk);
    ChangesThenRemovals(ChangeMarks(prev, cur, ck), ck, RemovalMarks(cur, pk), pk);
    TakeInOrder(ChangeMarks(prev, cur, ck) + RemovalMarks(cur, pk), limit);
  }

  lemma NothingAltered(prev: Files, cur: Files)
    requires prev.Keys == cur.Keys
    ensures Altered(prev, cur) == {} <==> prev == cur
  {
    if Altered(prev, cur) == {} {
      forall k | k in cur
        ensures prev[k] == cur[k]
      {
        assert k !in Altered(prev, cur);
      }
    }
  }

  lemma KeysBalance(a: set<string>, b: set<string>)
    ensures |b| == |a| + |b - a| - |a - b|
    ensures |b - a| + |a - b| == 0 <==> a == b
  {
    var both := a * b;
    assert b == (b - a) + both && a == (a - b) + both;
    if |b - a| + |a - b| == 0 {
      assert b - a == {} && a - b == {};
    }
  }

  /** Nothing is counted exactly when the indexes are equal, and the counts balance. */
  lemma DiffCounts(d: Diff, prev: Files, cur: Files, limit: nat)
    requires IsDiff(d, prev, cur, limit)
    ensures d.added + d.modified + d.removed == 0 <==> prev == cur
    ensures |cur| == |prev| + d.added - d.removed
  {
    KeysBalance(prev.Keys, cur.Keys);
    if prev.Keys == cur.Keys {
      NothingAltered(prev, cur);
    }
    assert |cur| == |cur.Keys| && |prev| == |prev.Keys|;
  }
}
