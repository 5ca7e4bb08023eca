/** The preflight scan, first half: index the visible files of a tree. */
module Preflight {
  import opened Lists
  import opened Strings
  import opened Sorting
  import opened Trees
  import opened Excludes
  import opened IndexText

  type Files = map<string, FileMeta>
  type Listing = seq<Entry<FileMeta>>

  /** The files among some entries, with their paths, in order. */
  function Pairs(es: Listing): seq<(string, FileMeta)> {
    if es == [] then []
    else if es[|es| - 1].node.Leaf? then Pairs(es[..|es| - 1]) + [(es[|es| - 1].rel, es[|es| - 1].node.meta)]
    else Pairs(es[..|es| - 1])
  }

  function Print(ps: seq<(string, FileMeta)>): (r: seq<string>)
    ensures |r| == |ps|
  {
    seq(|ps|, i requires 0 <= i < |ps| => LineOf(ps[i].0, ps[i].1))
  }

  /** Later pairs override earlier ones. */
  function Fill(ps: seq<(string, FileMeta)>): Files {
    if ps == [] then map[] else Fill(ps[..|ps| - 1])[ps[|ps| - 1].0 := ps[|ps| - 1].1]
  }

  function LinesOf(es: Listing): seq<string> {
    Print(Pairs(es))
  }

  function FilesOf(es: Listing): Files {
    Fill(Pairs(es))
  }

  lemma {:induction false} PairsConcat(a: Listing, b: Listing)
    ensures Pairs(a + b) == Pairs(a) + Pairs(b)
  {
    if b == [] {
      assert a + b == a;
    } else {
      PairsConcat(a, b[..|b| - 1]);
      InitOfConcat(a, b);
    }
  }

  lemma {:induction false} FillConcat(p: seq<(string, FileMeta)>, q: seq<(string, FileMeta)>)
    ensures Fill(p + q) == Fill(p) + Fill(q)
  {
    if q == [] {
      assert p + q == p;
    } else {
      FillConcat(p, q[..|q| - 1]);
      InitOfConcat(p, q);
    }
  }

  lemma ListingConcat(a: Listing, b: Listing)
    ensures LinesOf(a + b) == LinesOf(a) + LinesOf(b)
    ensures FilesOf(a + b) == FilesOf(a) + FilesOf(b)
  {
    PairsConcat(a, b);
    FillConcat(Pairs(a), Pairs(b));
    PrintConcat(Pairs(a), Pairs(b));
  }

  lemma PrintConcat(p: seq<(string, FileMeta)>, q: seq<(string, FileMeta)>)
    ensures Print(p + q) == Print(p) + Print(q)
  {
    forall i | 0 <= i < |p + q|
      ensures Print(p + q)[i] == (Print(p) + Print(q))[i]
    {
      assert (p + q)[i] == if i < |p| then p[i] else q[i - |p|];
    }
  }

  lemma FillOne(p: (string, FileMeta))
    ensures Fill([p]) == map[p.0 := p.1]
  {
    var one := [p];
    assert Fill(one[..0]) == map[];
  }

  lemma ListingOne(e: Entry<FileMeta>)
    ensures LinesOf([e]) == if e.node.Leaf? then [LineOf(e.rel, e.node.meta)] else []
    ensures FilesOf([e]) == if e.node.Leaf? then map[e.rel := e.node.meta] else map[]
  {
    assert [e][..0] == [];
    if e.node.Leaf? {
      FillOne((e.rel, e.node.meta));
      assert Pairs([e]) == [(e.rel, e.node.meta)];
    }
  }

  /** An index extended by more entries. */
  ghost function Extended(files: Files, lines: seq<string>, es: Listing): (Files, seq<string>) {
    (files + FilesOf(es), lines + LinesOf(es))
  }

  lemma ExtendedConcat(files: Files, lines: seq<string>, a: Listing, b: Listing)
    ensures var x := Extended(files, lines, a);
            Extended(files, lines, a + b) == Extended(x.0, x.1, b)
  {
    ListingConcat(a, b);
    assert files + (FilesOf(a) + FilesOf(b)) == (files + FilesOf(a)) + FilesOf(b);
    assert lines + (LinesOf(a) + LinesOf(b)) == (lines + LinesOf(a)) + LinesOf(b);
  }

  lemma ExtendedOne(files: Files, lines: seq<string>, e: Entry<FileMeta>)
    ensures Extended(files, lines, [e])
         == if e.node.Leaf? then (files[e.rel := e.node.meta], lines + [LineOf(e.rel, e.node.meta)]) else (files, lines)
    ensures Extended(files, lines, []) == (files, lines)
  {
    ListingOne(e);
    if e.node.Leaf? {
      assert files + map[e.rel := e.node.meta] == files[e.rel := e.node.meta];
    }
    assert Fill([]) == map[] && Print([]) == [];
    assert files + map[] == files && lines + [] == lines;
  }

  /** What visiting one child and its own children adds. */
  ghost function ChildEntries(excludes: seq<string>, base: string, name: string, node: Node<FileMeta>): Listing {
    var rel := Join(base, name);
    if Skips(excludes, rel) then []
    else [Entry(rel, node)] + (if node.Dir? then Walk(PreflightRule(excludes), rel, node.kids) else [])
  }

  lemma WalkUnfolds(excludes: seq<string>, base: string, kids: Kids<FileMeta>)
    requires kids.Cons?
    ensures Walk(PreflightRule(excludes), base, kids)
         == ChildEntries(excludes, base, kids.name, kids.node) + Walk(PreflightRule(excludes), base, kids.rest)
  {
  }

  /** The index under construction, filled by the walk's callback. */
  class Indexer {
    var files: Files
    var lines: seq<string>

    constructor ()
      ensures files == map[] && lines == []
    {
      files, lines := map[], [];
    }

    /** The callback: a skipped directory is not entered, directories have no entry. */
    method Visit(rel: string, node: Node<FileMeta>, excludes: seq<string>) returns (enter: bool)
      modifies this
      ensures enter <==> node.Dir? && !Skips(excludes, rel)
      ensures (files, lines)
           == Extended(old(files), old(lines), if Skips(excludes, rel) then [] else [Entry(rel, node)])
    {
      ExtendedOne(files, lines, Entry(rel, node));
      var skip := ShouldSkip(rel, excludes);
      if skip {
        return false;
      }
      if node.Dir? {
        return true;
      }
      files := files[rel := node.meta];
      lines := lines + [LineOf(rel, node.meta)];
      enter := false;
    }

    /** The walk: each child is visited before its own children, in order. */
    method WalkKids(base: string, kids: Kids<FileMeta>, excludes: seq<string>)
      modifies this
      ensures (files, lines) == Extended(old(files), old(lines), Walk(PreflightRule(excludes), base, kids))
      decreases kids, 0
    {
      if kids.Cons? {
        WalkUnfolds(excludes, base, kids);
        ExtendedConcat(files, lines, ChildEntries(excludes, base, kids.name, kids.node),
                       Walk(PreflightRule(excludes), base, kids.rest));
        WalkChild(base, kids.name, kids.node, excludes);
        WalkKids(base, kids.rest, excludes);
      } else {
        ExtendedOne(files, lines, Entry(base, Dir("", Nil)));
      }
    }

    method WalkChild(base: string, name: string, node: Node<FileMeta>, excludes: seq<string>)
      modifies this
      ensures (files, lines) == Extended(old(files), old(lines), ChildEntries(excludes, base, name, node))
      decreases node, 1
    {
      var rel := Join(base, name);
      ghost var files0, lines0 := files, lines;
      var enter := Visit(rel, node, excludes);
      if enter {
        ExtendedConcat(files0, lines0, [Entry(rel, node)], Walk(PreflightRule(excludes), rel, node.kids));
        WalkKids(rel, node.kids, excludes);
      } else if !Skips(excludes, rel) {
        assert [Entry(rel, node)] + [] == [Entry(rel, node)];
      }
    }
  }

  /** The visible entries of a tree, as the unpruned listing filtered by the exclusion rule. */
  ghost function VisibleEntries(kids: Kids<FileMeta>, excludes: seq<string>): Listing {
    NotSkipped(PreflightRule(excludes), Flatten("", kids))
  }

  method BuildIndex(kids: Kids<FileMeta>, excludes: seq<string>) returns (files: Files, lines: seq<string>)
    requires Proper(kids)
    ensures files == FilesOf(VisibleEntries(kids, excludes))
    ensures lines == Sort(LinesOf(VisibleEntries(kids, excludes)))
  {
    PreflightWalkIsFilter(excludes, kids);
    var ix := new Indexer();
    ix.WalkKids("", kids, excludes);
    assert map[] + FilesOf(VisibleEntries(kids, excludes)) == FilesOf(VisibleEntries(kids, excludes));
    assert ix.lines == LinesOf(VisibleEntries(kids, excludes));
    assert ix.files == FilesOf(VisibleEntries(kids, excludes));
    files := ix.files;
    lines := Sort(ix.lines);
  }

  // ---------------------------------------------------------------- index and lines agree

  ghost predicate DistinctKeys(ps: seq<(string, FileMeta)>) {
    forall i, j :: 0 <= i < j < |ps| ==> ps[i].0 != ps[j].0
  }

  lemma {:induction false} PairsDistinct(es: Listing)
    requires DistinctPaths(es)
    ensures DistinctKeys(Pairs(es))
    ensures forall p :: p in Pairs(es) ==> exists i :: 0 <= i < |es| && es[i].rel == p.0
  {
    if es == [] {
    } else {
      var init, last := es[..|es| - 1], es[|es| - 1];
      PairsDistinct(init);
      forall p | p in Pairs(init)
        ensures p.0 != last.rel && exists i :: 0 <= i < |es| && es[i].rel == p.0
      {
        var i :| 0 <= i < |init| && init[i].rel == p.0;
        assert es[i].rel == p.0;
      }
    }
  }

  lemma {:induction false} FillKeys(ps: seq<(string, FileMeta)>, rel: string)
    requires rel in Fill(ps)
    ensures exists i :: 0 <= i < |ps| && ps[i].0 == rel
  {
    var init, last := ps[..|ps| - 1], ps[|ps| - 1];
    if rel == last.0 {
      assert ps[|ps| - 1].0 == rel;
    } else {
      FillKeys(init, rel);
      var i :| 0 <= i < |init| && init[i].0 == rel;
      assert ps[i].0 == rel;
    }
  }

  lemma {:induction false} FillMember(ps: seq<(string, FileMeta)>, rel: string, m: FileMeta)
    requires DistinctKeys(ps)
    ensures rel in Fill(ps) && Fill(ps)[rel] == m <==> (rel, m) in ps
  {
    if ps == [] {
    } else {
      var init, last := ps[..|ps| - 1], ps[|ps| - 1];
      FillMember(init, rel, m);
      assert (rel, m) in ps <==> (rel, m) in init || (rel, m) == last;
      if (rel, m) in init {
        var i :| 0 <= i < |init| && init[i] == (rel, m);
        assert ps[i].0 != last.0;
      }
    }
  }

  /** The sorted lines list exactly the entries of the index. */
  lemma SortedLinesList(ps: seq<(string, FileMeta)>)
    requires DistinctKeys(ps)
    requires forall i :: 0 <= i < |ps| ==> |Print(ps)[i]| <= MAX_LINE
    ensures Covers(Sort(Print(ps)), Fill(ps))
  {
    var lines, files := Sort(Print(ps)), Fill(ps);
    SortBySorts(Itself, Print(ps));
    forall i | 0 <= i < |lines|
      ensures LineIn(lines[i], files) && |lines[i]| <= MAX_LINE
    {
      assert lines[i] in Print(ps);
      var k :| 0 <= k < |ps| && Print(ps)[k] == lines[i];
      assert ps[k] in ps;
      FillMember(ps, ps[k].0, ps[k].1);
    }
    forall rel | rel in files
      ensures LineOf(rel, files[rel]) in lines
    {
      FillMember(ps, rel, files[rel]);
      var k :| 0 <= k < |ps| && ps[k] == (rel, files[rel]);
      assert Print(ps)[k] in Print(ps);
    }
  }

  // ---------------------------------------------------------------- equal indexes, equal lines

  lemma PrintRemove(ps: seq<(string, FileMeta)>, k: nat)
    requires k < |ps|
    ensures multiset(Print(ps)) == multiset{Print(ps)[k]} + multiset(Print(ps[..k] + ps[k + 1..]))
  {
    var ls := Print(ps);
    PrintSplit(ps, k);
    MultisetSplit(ls, k);
  }

  lemma PrintSplit(ps: seq<(string, FileMeta)>, k: nat)
    requires k < |ps|
    ensures Print(ps[..k] + ps[k + 1..]) == Print(ps)[..k] + Print(ps)[k + 1..]
  {
    PrintConcat(ps[..k], ps[k + 1..]);
    assert Print(ps[..k]) == Print(ps)[..k];
    assert Print(ps[k + 1..]) == Print(ps)[k + 1..];
  }

  lemma MultisetSplit<T(!new)>(s: seq<T>, k: nat)
    requires k < |s|
    ensures multiset(s) == multiset{s[k]} + multiset(s[..k] + s[k + 1..])
  {
    assert s == s[..k] + ([s[k]] + s[k + 1..]);
  }

  lemma PrintFirst(ps: seq<(string, FileMeta)>)
    requires ps != []
    ensures multiset(Print(ps)) == multiset{Print(ps)[0]} + multiset(Print(ps[1..]))
  {
    PrintConcat([ps[0]], ps[1..]);
    assert ps == [ps[0]] + ps[1..];
    assert Print([ps[0]]) == [Print(ps)[0]];
  }

  /** Printing keeps equality of multisets. */
  lemma {:induction false} PrintPermuted(p: seq<(string, FileMeta)>, q: seq<(string, FileMeta)>)
    requires multiset(p) == multiset(q)
    ensures multiset(Print(p)) == multiset(Print(q))
    decreases |p|
  {
    if p == [] {
      assert |multiset(q)| == 0;
      assert q == [];
    } else {
      var k := FirstMoved(p, q);
      PrintPermuted(p[1..], q[..k] + q[k + 1..]);
      PrintRemove(q, k);
      PrintFirst(p);
      assert Print(p)[0] == Print(q)[k];
    }
  }

  /** The first element of a list is somewhere in a rearrangement of it. */
  lemma FirstMoved<T(!new)>(p: seq<T>, q: seq<T>) returns (k: nat)
    requires p != [] && multiset(p) == multiset(q)
    ensures k < |q| && q[k] == p[0] && multiset(p[1..]) == multiset(q[..k] + q[k + 1..])
  {
    assert p[0] in multiset(q);
    k :| 0 <= k < |q| && q[k] == p[0];
    WithoutAt(q, k);
    WithoutFirst(p);
  }

  lemma WithoutFirst<T(!new)>(p: seq<T>)
    requires p != []
    ensures multiset(p[1..]) == multiset(p) - multiset{p[0]}
  {
    assert p == [p[0]] + p[1..];
  }

  lemma WithoutAt<T(!new)>(s: seq<T>, k: nat)
    requires k < |s|
    ensures multiset(s[..k] + s[k + 1..]) == multiset(s) - multiset{s[k]}
  {
    MultisetSplit(s, k);
  }

  /** Equal indexes have equal sorted lines. */
  lemma SameFilesSameLines(p: seq<(string, FileMeta)>, q: seq<(string, FileMeta)>)
    requires DistinctKeys(p) && DistinctKeys(q) && Fill(p) == Fill(q)
    ensures Sort(Print(p)) == Sort(Print(q))
  {
    forall x: (string, FileMeta)
      ensures x in p <==> x in q
    {
      FillMember(p, x.0, x.1);
      FillMember(q, x.0, x.1);
    }
    NoDupSameMembers(p, q);
    PrintPermuted(p, q);
    SortBySame(Itself, Print(p), Print(q));
  }
}
