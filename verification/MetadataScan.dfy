/** The metadata signature: path, size, time and mode of every visible file, contents unread. */
module MetadataScan {
  import opened Lists
  import opened Strings
  import opened Decimal
  import opened Sorting
  import opened Trees
  import opened Excludes
  import opened IndexText
  import opened TextDecoding

  type Word = v: int | Int64(v) witness 0

  /** What the scan reads of a file. Its mode tells whether it is a symbolic link. */
  datatype FileInfo = FileInfo(size: Word, mtimeNs: Word, mode: Word, link: bool)

  type Listing = seq<Entry<FileInfo>>

  /** A file the signature covers. */
  datatype Found = Found(rel: string, info: FileInfo)

  /** Links and directories have no line. */
  predicate Covered(node: Node<FileInfo>) {
    node.Leaf? && !node.meta.link
  }

  function LineOfFile(f: Found): string {
    f.rel + "|" + Printed(f.info.size) + "|" + Printed(f.info.mtimeNs) + "|" + Printed(f.info.mode)
  }

  ghost function Files(es: Listing): seq<Found> {
    if es == [] then []
    else
      var e := es[|es| - 1];
      Files(es[..|es| - 1]) + (if Covered(e.node) then [Found(e.rel, e.node.meta)] else [])
  }

  ghost function Lines(fs: seq<Found>): (r: seq<string>)
    ensures |r| == |fs|
  {
    seq(|fs|, i requires 0 <= i < |fs| => LineOfFile(fs[i]))
  }

  // ---------------------------------------------------------------- exclusions

  function Normed(excludes: seq<string>): seq<string> {
    if excludes == [] then []
    else
      var e := TrimSpace(excludes[|excludes| - 1]);
      Normed(excludes[..|excludes| - 1]) + (if e == "" then [] else [e])
  }

  ghost predicate AnyRule(exNorm: seq<string>, rel: string) {
    exists ex :: ex in exNorm && PrefixRule(ex, rel)
  }

  lemma {:induction false} NormedSkips(excludes: seq<string>, rel: string)
    ensures AnyRule(Normed(excludes), rel) <==> PrefixSkips(excludes, rel)
  {
    if excludes == [] {
    } else {
      var init, last := excludes[..|excludes| - 1], excludes[|excludes| - 1];
      NormedSkips(init, rel);
      assert forall x :: x in excludes <==> x in init || x == last;
      var e := TrimSpace(last);
      assert forall x :: x in Normed(excludes) <==> x in Normed(init) || (e != "" && x == e);
    }
  }

  method NormExcludes(excludes: seq<string>) returns (exNorm: seq<string>)
    ensures exNorm == Normed(excludes)
  {
    exNorm := [];
    var i := 0;
    while i < |excludes|
      invariant 0 <= i <= |excludes|
      invariant exNorm == Normed(excludes[..i])
    {
      assert excludes[..i + 1][..i] == excludes[..i];
      var e := TrimSpace(excludes[i]);
      if e != "" {
        exNorm := exNorm + [e];
      }
      i := i + 1;
    }
    assert excludes[..i] == excludes;
  }

  method SkipsByPrefix(exNorm: seq<string>, rel: string) returns (skip: bool)
    ensures skip <==> AnyRule(exNorm, rel)
  {
    var i := 0;
    while i < |exNorm|
      invariant 0 <= i <= |exNorm|
      invariant forall j :: 0 <= j < i ==> !PrefixRule(exNorm[j], rel)
    {
      var ex := exNorm[i];
      if HasSuffix(ex, "/**") {
        var p := TrimSuffix(ex, "/**");
        if p != "" && (rel == p || HasPrefix(rel, p + "/")) {
          assert exNorm[i] in exNorm && PrefixRule(exNorm[i], rel);
          return true;
        }
      } else if rel == ex || HasPrefix(rel, ex) {
        assert exNorm[i] in exNorm && PrefixRule(exNorm[i], rel);
        return true;
      }
      i := i + 1;
    }
    skip := false;
  }

  // ---------------------------------------------------------------- the walk

  /** The lines a walk adds to those already found. */
  ghost function Extended(found: seq<string>, es: Listing): seq<string> {
    found + Lines(Files(es))
  }

  lemma {:induction false} FilesConcat(a: Listing, b: Listing)
    ensures Files(a + b) == Files(a) + Files(b)
  {
    if b == [] {
      assert a + b == a;
    } else {
      FilesConcat(a, b[..|b| - 1]);
      InitOfConcat(a, b);
    }
  }

  lemma LinesConcat(p: seq<Found>, q: seq<Found>)
    ensures Lines(p + q) == Lines(p) + Lines(q)
  {
    forall i | 0 <= i < |p + q|
      ensures Lines(p + q)[i] == (Lines(p) + Lines(q))[i]
    {
      assert (p + q)[i] == if i < |p| then p[i] else q[i - |p|];
    }
  }

  lemma ExtendedConcat(found: seq<string>, a: Listing, b: Listing)
    ensures Extended(found, a + b) == Extended(Extended(found, a), b)
    ensures Extended(found, []) == found
  {
    FilesConcat(a, b);
    LinesConcat(Files(a), Files(b));
    Assoc(found, Lines(Files(a)), Lines(Files(b)));
    assert Lines([]) == [] && found + [] == found;
  }

  lemma ExtendedOne(found: seq<string>, e: Entry<FileInfo>)
    ensures Extended(found, [e]) == if Covered(e.node) then found + [LineOfFile(Found(e.rel, e.node.meta))] else found
  {
    assert [e][..0] == [];
    if Covered(e.node) {
      assert Files([e]) == [Found(e.rel, e.node.meta)];
    } else {
      assert Files([e]) == [];
    }
  }

  ghost function ChildEntries(excludes: seq<string>, base: string, name: string, node: Node<FileInfo>): Listing {
    var rel := Join(base, name);
    if PrefixSkips(excludes, rel) then []
    else [Entry(rel, node)] + (if node.Dir? then Walk(SignatureRule(excludes), rel, node.kids) else [])
  }

  lemma WalkUnfolds(found: seq<string>, excludes: seq<string>, base: string, kids: Kids<FileInfo>)
    ensures Extended(found, Walk(SignatureRule(excludes), base, kids)) ==
            if kids.Nil? then found
            else Extended(Extended(found, ChildEntries(excludes, base, kids.name, kids.node)),
                          Walk(SignatureRule(excludes), base, kids.rest))
  {
    ExtendedConcat(found, [], []);
    if kids.Cons? {
      ExtendedConcat(found, ChildEntries(excludes, base, kids.name, kids.node),
                Walk(SignatureRule(excludes), base, kids.rest));
    }
  }

  /** The walk's state: the lines found so far. */
  class Scan {
    var lines: seq<string>
    const exNorm: seq<string>

    constructor (exNorm: seq<string>)
      ensures lines == [] && this.exNorm == exNorm
    {
      lines := [];
      this.exNorm := exNorm;
    }

    /** The callback: a skipped directory is not entered. */
    method Visit(rel: string, node: Node<FileInfo>, ghost excludes: seq<string>) returns (enter: bool)
      requires exNorm == Normed(excludes)
      modifies `lines
      ensures enter <==> node.Dir? && !PrefixSkips(excludes, rel)
      ensures lines == Extended(old(lines), if PrefixSkips(excludes, rel) then [] else [Entry(rel, node)])
    {
      NormedSkips(excludes, rel);
      ExtendedConcat(lines, [], []);
      ExtendedOne(lines, Entry(rel, node));
      var skip := SkipsByPrefix(exNorm, rel);
      if skip {
        return false;
      }
      if node.Dir? {
        return true;
      }
      enter := false;
      if node.meta.link {
        return;
      }
      var size := Itoa64(node.meta.size);
      var mtime := Itoa64(node.meta.mtimeNs);
      var mode := Itoa64(node.meta.mode);
      lines := lines + [rel + "|" + size + "|" + mtime + "|" + mode];
    }

    method WalkKids(base: string, kids: Kids<FileInfo>, ghost excludes: seq<string>)
      requires exNorm == Normed(excludes)
      modifies `lines
      ensures lines == Extended(old(lines), Walk(SignatureRule(excludes), base, kids))
      decreases kids, 0
    {
      WalkUnfolds(lines, excludes, base, kids);
      if kids.Cons? {
        WalkChild(base, kids.name, kids.node, excludes);
        WalkKids(base, kids.rest, excludes);
      }
    }

    method WalkChild(base: string, name: string, node: Node<FileInfo>, ghost excludes: seq<string>)
      requires exNorm == Normed(excludes)
      modifies `lines
      ensures lines == Extended(old(lines), ChildEntries(excludes, base, name, node))
      decreases node, 1
    {
      var rel := Join(base, name);
      ghost var found := lines;
      var enter := Visit(rel, node, excludes);
      if enter {
        ExtendedConcat(found, [Entry(rel, node)], Walk(SignatureRule(excludes), rel, node.kids));
        WalkKids(rel, node.kids, excludes);
      }
    }
  }

  /** The covered files of a tree: all files that the rule does not skip. */
  ghost function VisibleFiles(kids: Kids<FileInfo>, excludes: seq<string>): seq<Found> {
    Files(NotSkipped(SignatureRule(excludes), Flatten("", kids)))
  }

  ghost function TreeText(kids: Kids<FileInfo>, excludes: seq<string>): string {
    Text(Sort(Lines(VisibleFiles(kids, excludes))))
  }

  method WalkSignature(hash: string -> string, kids: Kids<FileInfo>, excludes: seq<string>) returns (sig: string)
    requires Proper(kids)
    ensures sig == hash(TreeText(kids, excludes))
  {
    var exNorm := NormExcludes(excludes);
    var scan := new Scan(exNorm);
    scan.WalkKids("", kids, excludes);
    SignatureWalkIsFilter(excludes, kids);
    assert scan.lines == Lines(VisibleFiles(kids, excludes));
    var lines := Sort(scan.lines);
    var text := SaveIndex(lines);
    sig := hash(text);
  }

  // ---------------------------------------------------------------- one call

  datatype Request = Request(mainRoot: string, stateDir: string, instanceID: string, nodeID: string,
        excludes: seq<string>)

  datatype Tree = Absent | Unreadable | Readable(kids: Kids<FileInfo>)

  datatype Reply = BadInput | Failed | Done(mainSig: string, prevMainSig: string, changed: bool, pendingMaybeSet: bool)

  predicate Complete(req: Request) {
    req.mainRoot != "" && req.stateDir != "" && req.instanceID != "" && req.nodeID != ""
  }

  /** What one call reports and stores. */
  ghost predicate IsCall(hash: string -> string, stored: Stored, req: Request, tree: Tree, r: Reply, stored': Stored) {
    && (r.BadInput? <==> !Complete(req))
    && (r.Failed? <==> Complete(req) && !tree.Readable?)
    && (r.Done? ==>
          && r.mainSig == hash(TreeText(tree.kids, req.excludes)) && r.prevMainSig == ReadText(stored)
          && r.changed == (r.prevMainSig != r.mainSig)
          && r.pendingMaybeSet == (r.prevMainSig != "" && r.changed))
    && stored' == if r.Done? then Stored(r.mainSig + "\n") else stored
  }

  method Detect(hash: string -> string, stored: Stored, req: Request, tree: Tree) returns (r: Reply, stored': Stored)
    requires tree.Readable? ==> Proper(tree.kids)
    ensures IsCall(hash, stored, req, tree, r, stored')
  {
    if !Complete(req) {
      return BadInput, stored;
    }
    if tree.Absent? {
      return Failed, stored;
    }
    var prevSig := ReadText(stored);
    if tree.Unreadable? {
      return Failed, stored;
    }
    var sig := WalkSignature(hash, tree.kids, req.excludes);
    var changed := (prevSig != "" && sig != prevSig) || (prevSig == "" && sig != "");
    var pending := prevSig != "" && sig != prevSig;
    r := Done(sig, prevSig, changed, pending);
    stored' := Stored(sig + "\n");
  }

  // ---------------------------------------------------------------- what the signature tells

  /** A line determines its file, for all 64-bit values and whatever bars the path contains. */
  lemma LineDeterminesFile(x: Found, y: Found)
    requires LineOfFile(x) == LineOfFile(y) && x.info.link == y.info.link
    ensures x == y
  {
    var a, b := x.info, y.info;
    PrintedTidy(a.size);
    PrintedTidy(b.size);
    PrintedTidy(a.mtimeNs);
    PrintedTidy(b.mtimeNs);
    PrintedTidy(a.mode);
    PrintedTidy(b.mode);
    LastPiece(x.rel + "|" + Printed(a.size) + "|" + Printed(a.mtimeNs), Printed(a.mode),
              y.rel + "|" + Printed(b.size) + "|" + Printed(b.mtimeNs), Printed(b.mode), '|');
    LastPiece(x.rel + "|" + Printed(a.size), Printed(a.mtimeNs), y.rel + "|" + Printed(b.size), Printed(b.mtimeNs),
              '|');
    LastPiece(x.rel, Printed(a.size), y.rel, Printed(b.size), '|');
    PrintedInjective(a.size, b.size);
    PrintedInjective(a.mtimeNs, b.mtimeNs);
    PrintedInjective(a.mode, b.mode);
  }

  lemma {:induction false} FilesMember(es: Listing, f: Found)
    ensures f in Files(es) <==> !f.info.link && Entry(f.rel, Leaf(f.info)) in es
  {
    if es == [] {
    } else {
      var init, last := es[..|es| - 1], es[|es| - 1];
      FilesMember(init, f);
      assert forall e :: e in es <==> e in init || e == last;
    }
  }

  /** The tree has this file, the file is no link, and no exclusion hides it. */
  ghost predicate Sees(kids: Kids<FileInfo>, excludes: seq<string>, f: Found) {
    !f.info.link && !PrefixSkips(excludes, f.rel) && Entry(f.rel, Leaf(f.info)) in Flatten("", kids)
  }

  /** The signature covers exactly these files. */
  lemma VisibleExactly(kids: Kids<FileInfo>, excludes: seq<string>, f: Found)
    ensures f in VisibleFiles(kids, excludes) <==> Sees(kids, excludes, f)
  {
    var es := Flatten("", kids);
    FilesMember(NotSkipped(SignatureRule(excludes), es), f);
    NotSkippedMember(SignatureRule(excludes), es, Entry(f.rel, Leaf(f.info)));
  }

  ghost predicate Distinct(fs: seq<Found>) {
    && (forall i, j :: 0 <= i < j < |fs| ==> fs[i].rel != fs[j].rel)
    && (forall i :: 0 <= i < |fs| ==> !fs[i].info.link)
  }

  lemma {:induction false} FilesDistinct(es: Listing)
    requires DistinctPaths(es)
    ensures Distinct(Files(es))
    ensures forall f :: f in Files(es) ==> exists i :: 0 <= i < |es| && es[i].rel == f.rel
  {
    if es == [] {
    } else {
      var init, last := es[..|es| - 1], es[|es| - 1];
      FilesDistinct(init);
      forall f | f in Files(init)
        ensures f.rel != last.rel && exists i :: 0 <= i < |es| && es[i].rel == f.rel
      {
        var i :| 0 <= i < |init| && init[i].rel == f.rel;
        assert es[i].rel == f.rel;
      }
    }
  }

  lemma VisibleDistinct(kids: Kids<FileInfo>, excludes: seq<string>)
    requires Proper(kids) && DistinctNames(kids)
    ensures Distinct(VisibleFiles(kids, excludes))
  {
    SignatureWalkIsFilter(excludes, kids);
    WalkDistinct(SignatureRule(excludes), kids);
    FilesDistinct(NotSkipped(SignatureRule(excludes), Flatten("", kids)));
  }

  lemma LinesDistinct(fs: seq<Found>)
    requires Distinct(fs)
    ensures NoDup(Lines(fs))
  {
    forall i, j | 0 <= i < j < |fs|
      ensures Lines(fs)[i] != Lines(fs)[j]
    {
      if LineOfFile(fs[i]) == LineOfFile(fs[j]) {
        LineDeterminesFile(fs[i], fs[j]);
      }
    }
  }

  lemma LineMember(fs: seq<Found>, f: Found)
    requires Distinct(fs) && !f.info.link
    ensures LineOfFile(f) in Lines(fs) <==> f in fs
  {
    if LineOfFile(f) in Lines(fs) {
      var i :| 0 <= i < |fs| && Lines(fs)[i] == LineOfFile(f);
      LineDeterminesFile(fs[i], f);
    }
    if f in fs {
      var i :| 0 <= i < |fs| && fs[i] == f;
      assert Lines(fs)[i] in Lines(fs);
    }
  }

  lemma SameLinesSameFiles(fs: seq<Found>, gs: seq<Found>)
    requires Distinct(fs) && Distinct(gs)
    ensures SameMembers(Lines(fs), Lines(gs)) <==> SameMembers(fs, gs)
  {
    if SameMembers(Lines(fs), Lines(gs)) {
      forall f: Found
        ensures f in fs <==> f in gs
      {
        if !f.info.link {
          LineMember(fs, f);
          LineMember(gs, f);
        }
      }
    }
    if SameMembers(fs, gs) {
      forall line: string
        ensures line in Lines(fs) <==> line in Lines(gs)
      {
        if line in Lines(fs) {
          var i :| 0 <= i < |fs| && Lines(fs)[i] == line;
          LineMember(gs, fs[i]);
        }
        if line in Lines(gs) {
          var i :| 0 <= i < |gs| && Lines(gs)[i] == line;
          LineMember(fs, gs[i]);
        }
      }
    }
  }

  /** The path does not begin with what reads as a whole line, and a newline. */
  ghost predicate NoLineInside(rel: string) {
    forall f: Found :: !(LineOfFile(f) + "\n" <= rel)
  }

  ghost predicate NoLinesInside(fs: seq<Found>) {
    forall i :: 0 <= i < |fs| ==> NoLineInside(fs[i].rel)
  }

  /** Paths without newlines are such, and those whose newlines come before their third bar. */
  lemma EarlyNewlinesNoLine(rel: string)
    requires EarlyNewlines(rel)
    ensures NoLineInside(rel)
  {
    forall f: Found
      ensures !(LineOfFile(f) + "\n" <= rel)
    {
      ThreeBars(f.rel, Printed(f.info.size), Printed(f.info.mtimeNs), Printed(f.info.mode));
      NotALine(LineOfFile(f), rel);
    }
  }

  function LineTail(f: Found): string {
    "|" + Printed(f.info.size) + "|" + Printed(f.info.mtimeNs) + "|" + Printed(f.info.mode)
  }

  lemma LineSplits(f: Found)
    ensures LineOfFile(f) == f.rel + LineTail(f) && Without('\n', LineTail(f))
  {
    PrintedTidy(f.info.size);
    PrintedTidy(f.info.mtimeNs);
    PrintedTidy(f.info.mode);
  }

  lemma FileLineInside(x: Found, y: Found)
    requires NoLineInside(y.rel)
    ensures !(LineOfFile(x) + "\n" <= LineOfFile(y))
  {
    if LineOfFile(x) + "\n" <= LineOfFile(y) {
      LineSplits(y);
      LineInsidePath(LineOfFile(x), y.rel, LineTail(y));
    }
  }

  lemma SortedLinesSeparable(fs: seq<Found>, gs: seq<Found>)
    requires NoLinesInside(fs) && NoLinesInside(gs)
    ensures Separable(Sort(Lines(fs)), Sort(Lines(gs)))
  {
    SortBySorts(Itself, Lines(fs));
    SortBySorts(Itself, Lines(gs));
    forall x, y | x in Lines(fs) && y in Lines(gs)
      ensures !(x + "\n" <= y) && !(y + "\n" <= x)
    {
      var i :| 0 <= i < |fs| && Lines(fs)[i] == x;
      var j :| 0 <= j < |gs| && Lines(gs)[j] == y;
      FileLineInside(fs[i], gs[j]);
      FileLineInside(gs[j], fs[i]);
    }
  }

  /** Two texts are equal exactly when they list the same files. */
  lemma SameTextSameFiles(fs: seq<Found>, gs: seq<Found>)
    requires Distinct(fs) && Distinct(gs) && NoLinesInside(fs) && NoLinesInside(gs)
    ensures Text(Sort(Lines(fs))) == Text(Sort(Lines(gs))) <==> SameMembers(fs, gs)
  {
    LinesDistinct(fs);
    LinesDistinct(gs);
    SameLinesSameFiles(fs, gs);
    SortBySame(Itself, Lines(fs), Lines(gs));
    if Text(Sort(Lines(fs))) == Text(Sort(Lines(gs))) {
      SortedLinesSeparable(fs, gs);
      TextDeterminesLines(Sort(Lines(fs)), Sort(Lines(gs)));
      SortBySorts(Itself, Lines(fs));
      SortBySorts(Itself, Lines(gs));
    }
    if SameMembers(fs, gs) {
      NoDupSameMembers(Lines(fs), Lines(gs));
    }
  }

  ghost predicate Clean(tree: Tree, excludes: seq<string>) {
    && tree.Readable? && Proper(tree.kids) && DistinctNames(tree.kids)
    && NoLinesInside(VisibleFiles(tree.kids, excludes))
  }

  /** Two calls see the same files: none was added, removed or altered. */
  ghost predicate SeeAlike(tree1: Tree, req1: Request, tree2: Tree, req2: Request)
    requires tree1.Readable? && tree2.Readable?
  {
    forall f :: Sees(tree1.kids, req1.excludes, f) <==> Sees(tree2.kids, req2.excludes, f)
  }

  lemma SeenAlike(tree1: Tree, req1: Request, tree2: Tree, req2: Request)
    requires tree1.Readable? && tree2.Readable?
    ensures SeeAlike(tree1, req1, tree2, req2)
       <==> SameMembers(VisibleFiles(tree1.kids, req1.excludes), VisibleFiles(tree2.kids, req2.excludes))
  {
    forall f
      ensures Sees(tree1.kids, req1.excludes, f) <==> f in VisibleFiles(tree1.kids, req1.excludes)
      ensures Sees(tree2.kids, req2.excludes, f) <==> f in VisibleFiles(tree2.kids, req2.excludes)
    {
      VisibleExactly(tree1.kids, req1.excludes, f);
      VisibleExactly(tree2.kids, req2.excludes, f);
    }
  }

  /** The second of two completed calls asks for a pending mark, and reports a change, exactly
      when the visible files differ in path, size, time or mode. */
  lemma PendingExactly(hash: string -> string, s0: Stored, s1: Stored, s2: Stored,
                       req1: Request, tree1: Tree, r1: Reply, req2: Request, tree2: Tree, r2: Reply)
    requires IsCall(hash, s0, req1, tree1, r1, s1) && IsCall(hash, s1, req2, tree2, r2, s2) && r1.Done? && r2.Done?
    requires Clean(tree1, req1.excludes) && Clean(tree2, req2.excludes) && PrintsHex(hash)
    requires var t1, t2 := TreeText(tree1.kids, req1.excludes), TreeText(tree2.kids, req2.excludes);
             hash(t1) == hash(t2) ==> t1 == t2
    ensures r2.pendingMaybeSet <==> !SeeAlike(tree1, req1, tree2, req2)
    ensures r2.changed <==> r2.pendingMaybeSet
  {
    var fs, gs := VisibleFiles(tree1.kids, req1.excludes), VisibleFiles(tree2.kids, req2.excludes);
    assert HexText(hash(TreeText(tree1.kids, req1.excludes)));
    HexReadsBack(r1.mainSig);
    VisibleDistinct(tree1.kids, req1.excludes);
    VisibleDistinct(tree2.kids, req2.excludes);
    SameTextSameFiles(fs, gs);
    SeenAlike(tree1, req1, tree2, req2);
  }

  /** Without a stored signature a completed call reports a change and asks for no mark. */
  lemma FirstCallChanges(hash: string -> string, stored: Stored, req: Request, tree: Tree, r: Reply, stored': Stored)
    requires IsCall(hash, stored, req, tree, r, stored') && r.Done? && ReadText(stored) == "" && PrintsHex(hash)
    ensures r.changed && !r.pendingMaybeSet
  {
    assert HexText(hash(TreeText(tree.kids, req.excludes)));
  }
}
