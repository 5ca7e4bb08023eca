/** Directory trees, and walks that skip the subtrees of excluded directories. */
module Trees {
  import Lists

  /** A directory lists its children in the order a walk visits them. */
  datatype Node<M> = Leaf(meta: M) | Dir(mode: string, kids: Kids<M>)
  datatype Kids<M> = Nil | Cons(name: string, node: Node<M>, rest: Kids<M>)

  /** A visited path, relative to the root of the walk. */
  datatype Entry<M> = Entry(rel: string, node: Node<M>)

  /** A file name as a file system allows it. */
  predicate ProperName(name: string) {
    name != "" && name != "." && name != ".." && '/' !in name
  }

  ghost predicate Proper<M>(kids: Kids<M>) {
    match kids
    case Nil => true
    case Cons(name, node, rest) => ProperName(name) && (node.Dir? ==> Proper(node.kids)) && Proper(rest)
  }

  function Join(base: string, name: string): string {
    if base == "" then name else base + "/" + name
  }

  /** Every path below `base`, in walk order. */
  function Flatten<M>(base: string, kids: Kids<M>): seq<Entry<M>>
    decreases kids
  {
    match kids
    case Nil => []
    case Cons(name, node, rest) =>
      var rel := Join(base, name);
      [Entry(rel, node)] + (if node.Dir? then Flatten(rel, node.kids) else []) + Flatten(base, rest)
  }

  /** `kids` list the child `name`. */
  ghost predicate Child<M>(kids: Kids<M>, name: string, node: Node<M>) {
    kids.Cons? && ((kids.name == name && kids.node == node) || Child(kids.rest, name, node))
  }

  /** Following `names` from directory to directory leads to `node`. */
  ghost predicate LeadsTo<M(!new)>(kids: Kids<M>, names: seq<string>, node: Node<M>)
    decreases |names|
  {
    if names == [] then false
    else if |names| == 1 then Child(kids, names[0], node)
    else exists dir :: Child(kids, names[0], dir) && dir.Dir? && LeadsTo(dir.kids, names[1..], node)
  }

  function JoinAll(base: string, names: seq<string>): string
    decreases |names|
  {
    if names == [] then base else JoinAll(Join(base, names[0]), names[1..])
  }

  lemma LeadsOn<M(!new)>(kids: Kids<M>, names: seq<string>, node: Node<M>)
    requires kids.Cons?
    ensures LeadsTo(kids, names, node) <==>
            || LeadsTo(kids.rest, names, node)
            || (names == [kids.name] && kids.node == node)
            || (|names| > 1 && names[0] == kids.name && kids.node.Dir? && LeadsTo(kids.node.kids, names[1..], node))
  {
    if |names| == 1 {
      assert names == [names[0]];
    }
  }

  /** The listing consists of exactly what some sequence of names leads to. */
  lemma {:induction false} FlattenExactly<M(!new)>(base: string, kids: Kids<M>, e: Entry<M>)
    ensures e in Flatten(base, kids) <==> exists names :: LeadsTo(kids, names, e.node) && e.rel == JoinAll(base, names)
    decreases kids
  {
    match kids
    case Nil =>
    case Cons(name, node, rest) =>
      FlattenExactly(base, rest, e);
      FlattenInside(base, name, node, e);
      forall names
        ensures LeadsTo(kids, names, e.node) <==>
                || LeadsTo(rest, names, e.node)
                || (names == [name] && node == e.node)
                || (|names| > 1 && names[0] == name && node.Dir? && LeadsTo(node.kids, names[1..], e.node))
      {
        LeadsOn(kids, names, e.node);
      }
  }

  lemma {:induction false} FlattenInside<M(!new)>(base: string, name: string, node: Node<M>, e: Entry<M>)
    ensures e in [Entry(Join(base, name), node)] + (if node.Dir? then Flatten(Join(base, name), node.kids) else [])
       <==> exists names :: e.rel == JoinAll(base, names) &&
              (|| (names == [name] && node == e.node)
               || (|names| > 1 && names[0] == name && node.Dir? && LeadsTo(node.kids, names[1..], e.node)))
    decreases node
  {
    var dir := Join(base, name);
    assert JoinAll(base, [name]) == dir by {
      assert [name][1..] == [];
    }
    if node.Dir? {
      FlattenExactly(dir, node.kids, e);
      if names :| LeadsTo(node.kids, names, e.node) && e.rel == JoinAll(dir, names) {
        var all := [name] + names;
        assert all[1..] == names;
        assert e.rel == JoinAll(base, all) && |all| > 1 && all[0] == name;
      }
    }
  }

  /** The paths a walk reaches that skips excluded files and does not enter excluded directories. */
  ghost function Walk<M>(skip: string -> bool, base: string, kids: Kids<M>): seq<Entry<M>>
    decreases kids
  {
    match kids
    case Nil => []
    case Cons(name, node, rest) =>
      var rel := Join(base, name);
      (if skip(rel) then []
       else [Entry(rel, node)] + (if node.Dir? then Walk(skip, rel, node.kids) else []))
      + Walk(skip, base, rest)
  }

  /** Neither the path nor a directory on the way to it from `base` is excluded. */
  ghost predicate Visible(skip: string -> bool, base: string, rel: string) {
    forall i :: |base| < i <= |rel| && (i == |rel| || rel[i] == '/') ==> !skip(rel[..i])
  }

  ghost function VisibleOnly<M>(skip: string -> bool, base: string, es: seq<Entry<M>>): seq<Entry<M>> {
    if es == [] then []
    else (if Visible(skip, base, es[0].rel) then [es[0]] else []) + VisibleOnly(skip, base, es[1..])
  }

  lemma {:induction false} VisibleOnlyConcat<M>(skip: string -> bool, base: string, a: seq<Entry<M>>, b: seq<Entry<M>>)
    ensures VisibleOnly(skip, base, a + b) == VisibleOnly(skip, base, a) + VisibleOnly(skip, base, b)
  {
    if a == [] {
      assert a + b == b;
    } else {
      VisibleOnlyConcat(skip, base, a[1..], b);
      assert (a + b)[1..] == a[1..] + b;
      Lists.Assoc(if Visible(skip, base, a[0].rel) then [a[0]] else [],
                  VisibleOnly(skip, base, a[1..]), VisibleOnly(skip, base, b));
    }
  }

  /** `rel` lies below the directory `dir`. */
  predicate Below(dir: string, rel: string) {
    if dir == "" then rel != "" else |dir| + 1 < |rel| && rel[..|dir|] == dir && rel[|dir|] == '/'
  }

  lemma {:induction false} FlattenBelow<M>(base: string, kids: Kids<M>)
    requires Proper(kids)
    ensures forall e :: e in Flatten(base, kids) ==> Below(base, e.rel)
    decreases kids
  {
    match kids
    case Nil =>
    case Cons(name, node, rest) =>
      var rel := Join(base, name);
      FlattenBelow(base, rest);
      if node.Dir? {
        FlattenBelow(rel, node.kids);
        forall e | e in Flatten(rel, node.kids)
          ensures Below(base, e.rel)
        {
          if base != "" {
            assert e.rel[..|base|] == e.rel[..|rel|][..|base|];
            assert e.rel[|base|] == e.rel[..|rel|][|base|];
          }
        }
      }
  }

  /** What is visible below a directory, seen from the directory above it. */
  lemma VisibleBelow(skip: string -> bool, base: string, name: string, rel: string)
    requires ProperName(name) && Below(Join(base, name), rel)
    ensures Visible(skip, base, rel) <==> !skip(Join(base, name)) && Visible(skip, Join(base, name), rel)
  {
    var dir := Join(base, name);
    assert rel[..|dir|] == dir;
    forall i | |base| < i < |dir|
      ensures rel[i] != '/'
    {
      assert rel[i] == rel[..|dir|][i];
      if base != "" {
        assert dir[i] == name[i - |base| - 1];
      }
    }
  }

  lemma {:induction false} VisibleOnlyBelow<M>(skip: string -> bool, base: string, name: string, es: seq<Entry<M>>)
    requires ProperName(name) && forall e :: e in es ==> Below(Join(base, name), e.rel)
    ensures VisibleOnly(skip, base, es)
         == if skip(Join(base, name)) then [] else VisibleOnly(skip, Join(base, name), es)
  {
    if es == [] {
    } else {
      VisibleBelow(skip, base, name, es[0].rel);
      VisibleOnlyBelow(skip, base, name, es[1..]);
    }
  }

  lemma VisibleChild(skip: string -> bool, base: string, name: string)
    requires ProperName(name)
    ensures Visible(skip, base, Join(base, name)) <==> !skip(Join(base, name))
  {
    var dir := Join(base, name);
    assert dir[..|dir|] == dir;
    forall i | |base| < i < |dir|
      ensures dir[i] != '/'
    {
      if base != "" {
        assert dir[i] == name[i - |base| - 1];
      }
    }
  }

  /** A walk that does not enter excluded directories reaches exactly the paths that neither
      are excluded nor lie below an excluded directory, in the order of the full listing. */
  lemma {:induction false} WalkReachesVisible<M>(skip: string -> bool, base: string, kids: Kids<M>)
    requires Proper(kids)
    ensures Walk(skip, base, kids) == VisibleOnly(skip, base, Flatten(base, kids))
    decreases kids
  {
    match kids
    case Nil =>
    case Cons(name, node, rest) =>
      var rel := Join(base, name);
      var inner := if node.Dir? then Flatten(rel, node.kids) else [];
      WalkReachesVisible(skip, base, rest);
      VisibleChild(skip, base, name);
      if node.Dir? {
        WalkReachesVisible(skip, rel, node.kids);
        FlattenBelow(rel, node.kids);
      }
      VisibleOnlyBelow(skip, base, name, inner);
      VisibleOnlyConcat(skip, base, [Entry(rel, node)], inner);
      VisibleOnlyConcat(skip, base, [Entry(rel, node)] + inner, Flatten(base, rest));
  }

  /** Below an excluded path everything is excluded. */
  ghost predicate ClosedOn(skip: string -> bool, rel: string) {
    forall i :: 0 < i < |rel| && rel[i] == '/' && skip(rel[..i]) ==> skip(rel)
  }

  ghost function NotSkipped<M>(skip: string -> bool, es: seq<Entry<M>>): seq<Entry<M>> {
    if es == [] then []
    else (if skip(es[0].rel) then [] else [es[0]]) + NotSkipped(skip, es[1..])
  }

  lemma {:induction false} NotSkippedMember<M>(skip: string -> bool, es: seq<Entry<M>>, e: Entry<M>)
    ensures e in NotSkipped(skip, es) <==> e in es && !skip(e.rel)
  {
    if es == [] {
    } else {
      NotSkippedMember(skip, es[1..], e);
      assert e in es <==> e == es[0] || e in es[1..];
    }
  }

  lemma {:induction false} ClosedVisible<M>(skip: string -> bool, es: seq<Entry<M>>)
    requires forall e :: e in es ==> e.rel != "" && ClosedOn(skip, e.rel)
    ensures VisibleOnly(skip, "", es) == NotSkipped(skip, es)
  {
    if es == [] {
    } else {
      ClosedVisible(skip, es[1..]);
      var rel := es[0].rel;
      assert rel[..|rel|] == rel;
    }
  }

  /** A relative path that starts with a file name. */
  predicate ProperPath(rel: string) {
    && rel != "" && rel[0] != '/'
    && (rel[0] == '.' && |rel| > 1 ==> rel[1] != '/')
    && rel != "."
  }

  lemma {:induction false} FlattenProper<M>(base: string, kids: Kids<M>)
    requires Proper(kids) && (base == "" || ProperPath(base))
    ensures forall e :: e in Flatten(base, kids) ==> ProperPath(e.rel)
    decreases kids
  {
    match kids
    case Nil =>
    case Cons(name, node, rest) =>
      FlattenProper(base, rest);
      if node.Dir? {
        FlattenProper(Join(base, name), node.kids);
      }
  }

  /** When exclusion is closed under descent, the pruned walk is the filtered listing. */
  lemma PrunedIsFiltered<M>(skip: string -> bool, kids: Kids<M>)
    requires Proper(kids)
    requires forall rel :: ProperPath(rel) ==> ClosedOn(skip, rel)
    ensures Walk(skip, "", kids) == NotSkipped(skip, Flatten("", kids))
  {
    WalkReachesVisible(skip, "", kids);
    FlattenProper("", kids);
    ClosedVisible(skip, Flatten("", kids));
  }

  // ---------------------------------------------------------------- distinct paths

  function Names<M>(kids: Kids<M>): set<string> {
    match kids
    case Nil => {}
    case Cons(name, _, rest) => {name} + Names(rest)
  }

  ghost predicate DistinctNames<M>(kids: Kids<M>) {
    match kids
    case Nil => true
    case Cons(name, node, rest) =>
      name !in Names(rest) && (node.Dir? ==> DistinctNames(node.kids)) && DistinctNames(rest)
  }

  ghost predicate DistinctPaths<M>(es: seq<Entry<M>>) {
    forall i, j :: 0 <= i < j < |es| ==> es[i].rel != es[j].rel
  }

  /** `rel` is the child `name` of `base` or lies below it. */
  predicate Through(base: string, name: string, rel: string) {
    rel == Join(base, name) || Below(Join(base, name), rel)
  }

  /** A path through `b` does not pass through a shorter name: there would be a slash in `b`. */
  lemma NotThroughShorter(base: string, a: string, b: string, rel: string)
    requires ProperName(a) && ProperName(b) && |a| < |b| && Through(base, b, rel)
    ensures !Through(base, a, rel)
  {
    var p, q := |Join(base, a)|, |Join(base, b)|;
    assert rel[..q] == Join(base, b);
    assert rel[p] == rel[..q][p] == b[|a|];
  }

  lemma ThroughOneName(base: string, a: string, b: string, rel: string)
    requires ProperName(a) && ProperName(b) && Through(base, a, rel) && Through(base, b, rel)
    ensures a == b
  {
    if |a| < |b| {
      NotThroughShorter(base, a, b, rel);
    } else if |b| < |a| {
      NotThroughShorter(base, b, a, rel);
    } else {
      var n := |Join(base, a)|;
      assert rel[..n] == Join(base, a) && rel[..n] == Join(base, b);
      assert Join(base, a)[n - |a|..] == a && Join(base, b)[n - |a|..] == b;
    }
  }

  /** `rel` passes through some child. */
  ghost predicate ThroughSome<M>(base: string, kids: Kids<M>, rel: string) {
    exists name :: name in Names(kids) && ProperName(name) && Through(base, name, rel)
  }

  lemma {:induction false} FlattenThrough<M>(base: string, kids: Kids<M>)
    requires Proper(kids)
    ensures forall e :: e in Flatten(base, kids) ==> ThroughSome(base, kids, e.rel)
    decreases kids
  {
    match kids
    case Nil =>
    case Cons(name, node, rest) =>
      FlattenThrough(base, rest);
      if node.Dir? {
        FlattenBelow(Join(base, name), node.kids);
      }
      forall e | e in Flatten(base, kids)
        ensures ThroughSome(base, kids, e.rel)
      {
        if e in Flatten(base, rest) {
          var n :| n in Names(rest) && ProperName(n) && Through(base, n, e.rel);
          assert n in Names(kids);
        } else {
          assert name in Names(kids) && Through(base, name, e.rel);
        }
      }
  }

  lemma DistinctConcat<M>(a: seq<Entry<M>>, b: seq<Entry<M>>)
    requires DistinctPaths(a) && DistinctPaths(b)
    requires forall e, f :: e in a && f in b ==> e.rel != f.rel
    ensures DistinctPaths(a + b)
  {
  }

  /** A tree whose directories have no two children of one name has no path twice. */
  lemma {:induction false} FlattenDistinct<M>(base: string, kids: Kids<M>)
    requires Proper(kids) && DistinctNames(kids)
    ensures DistinctPaths(Flatten(base, kids))
    decreases kids
  {
    match kids
    case Nil =>
    case Cons(name, node, rest) =>
      var rel := Join(base, name);
      var inner := if node.Dir? then Flatten(rel, node.kids) else [];
      if node.Dir? {
        FlattenDistinct(rel, node.kids);
        FlattenBelow(rel, node.kids);
      }
      DistinctConcat([Entry(rel, node)], inner);
      FlattenDistinct(base, rest);
      FlattenThrough(base, rest);
      var first := [Entry(rel, node)] + inner;
      forall e, f | e in first && f in Flatten(base, rest)
        ensures e.rel != f.rel
      {
        if e.rel == f.rel {
          var n :| n in Names(rest) && ProperName(n) && Through(base, n, f.rel);
          assert Through(base, name, e.rel);
          ThroughOneName(base, n, name, e.rel);
        }
      }
      DistinctConcat(first, Flatten(base, rest));
  }

  lemma {:induction false} VisibleOnlyMember<M>(skip: string -> bool, base: string, es: seq<Entry<M>>, e: Entry<M>)
    ensures e in VisibleOnly(skip, base, es) <==> e in es && Visible(skip, base, e.rel)
  {
    if es == [] {
    } else {
      VisibleOnlyMember(skip, base, es[1..], e);
      assert e in es <==> e == es[0] || e in es[1..];
    }
  }

  lemma {:induction false} VisibleOnlyDistinct<M>(skip: string -> bool, base: string, es: seq<Entry<M>>)
    requires DistinctPaths(es)
    ensures DistinctPaths(VisibleOnly(skip, base, es))
  {
    if es == [] {
    } else {
      var tail := VisibleOnly(skip, base, es[1..]);
      VisibleOnlyDistinct(skip, base, es[1..]);
      forall f | f in tail
        ensures es[0].rel != f.rel
      {
        VisibleOnlyMember(skip, base, es[1..], f);
        var j :| 0 <= j < |es[1..]| && es[1..][j] == f;
        assert es[j + 1] == f;
      }
      DistinctConcat([es[0]], tail);
      assert [] + tail == tail;
    }
  }

  /** A walk visits no path twice. */
  lemma WalkDistinct<M>(skip: string -> bool, kids: Kids<M>)
    requires Proper(kids) && DistinctNames(kids)
    ensures DistinctPaths(Walk(skip, "", kids))
  {
    WalkReachesVisible(skip, "", kids);
    FlattenDistinct("", kids);
    VisibleOnlyDistinct(skip, "", Flatten("", kids));
  }
}
