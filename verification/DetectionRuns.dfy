/** Runs of the live detector: no change of what is visible goes unreported, even though the
    signature's lines separate their fields by bars that paths may contain. */
module DetectionRuns {
  import opened Lists
  import opened Strings
  import opened Decimal
  import opened Sorting
  import opened Trees
  import opened Globs
  import opened Matchers
  import opened IndexText
  import opened SignatureRuns
  import opened TextDecoding
  import opened Detection

  // ---------------------------------------------------------------- decoding a line from its right end

  /** Modes, sizes and digests contain no separator; a path may contain bars and newlines. */
  predicate Tidy(e: Mark) {
    && Without('|', e.mode) && Without('\n', e.mode)
    && Without('|', e.digest) && Without('\n', e.digest)
  }

  /** A line determines its mark, whatever bars the path contains. */
  lemma LineDeterminesMark(x: Mark, y: Mark)
    requires Tidy(x) && Tidy(y) && LineOfMark(x) == LineOfMark(y)
    ensures x == y
  {
    PrintedTidy(x.size);
    PrintedTidy(y.size);
    LastPiece(x.rel + "|" + x.mode + "|" + Printed(x.size), x.digest, y.rel + "|" + y.mode + "|" + Printed(y.size),
              y.digest, '|');
    LastPiece(x.rel + "|" + x.mode, Printed(x.size), y.rel + "|" + y.mode, Printed(y.size), '|');
    LastPiece(x.rel, x.mode, y.rel, y.mode, '|');
    PrintedInjective(x.size, y.size);
  }

  ghost predicate AllTidy(s: seq<Mark>) {
    forall i :: 0 <= i < |s| ==> Tidy(s[i])
  }

  /** The path does not begin with what reads as a whole line, and a newline. */
  ghost predicate NoLineInside(rel: string) {
    forall e: Mark :: Tidy(e) ==> !(LineOfMark(e) + "\n" <= rel)
  }

  /** Paths without newlines are such, and those whose newlines come before their third bar. */
  lemma EarlyNewlinesNoLine(rel: string)
    requires EarlyNewlines(rel)
    ensures NoLineInside(rel)
  {
    forall e: Mark | Tidy(e)
      ensures !(LineOfMark(e) + "\n" <= rel)
    {
      ThreeBars(e.rel, e.mode, Printed(e.size), e.digest);
      NotALine(LineOfMark(e), rel);
    }
  }

  function LineTail(e: Mark): string {
    "|" + e.mode + "|" + Printed(e.size) + "|" + e.digest
  }

  lemma LineSplits(e: Mark)
    ensures LineOfMark(e) == e.rel + LineTail(e)
  {
  }

  lemma MarkLineInside(x: Mark, y: Mark)
    requires Tidy(x) && Tidy(y) && NoLineInside(y.rel)
    ensures !(LineOfMark(x) + "\n" <= LineOfMark(y))
  {
    if LineOfMark(x) + "\n" <= LineOfMark(y) {
      LineSplits(y);
      PrintedTidy(y.size);
      LineInsidePath(LineOfMark(x), y.rel, LineTail(y));
    }
  }

  ghost predicate NoLinesInside(s: seq<Mark>) {
    forall i :: 0 <= i < |s| ==> NoLineInside(s[i].rel)
  }

  lemma MarkLinesSeparable(a: seq<Mark>, b: seq<Mark>)
    requires AllTidy(a) && AllTidy(b) && NoLinesInside(a) && NoLinesInside(b)
    ensures Separable(MarkLines(a), MarkLines(b))
  {
    forall x, y | x in MarkLines(a) && y in MarkLines(b)
      ensures !(x + "\n" <= y) && !(y + "\n" <= x)
    {
      var i :| 0 <= i < |a| && MarkLines(a)[i] == x;
      var j :| 0 <= j < |b| && MarkLines(b)[j] == y;
      MarkLineInside(a[i], b[j]);
      MarkLineInside(b[j], a[i]);
    }
  }

  /** The text determines the marks in their order. */
  lemma TextDeterminesMarks(a: seq<Mark>, b: seq<Mark>)
    requires AllTidy(a) && AllTidy(b) && NoLinesInside(a) && NoLinesInside(b)
    requires Text(MarkLines(a)) == Text(MarkLines(b))
    ensures a == b
  {
    MarkLinesSeparable(a, b);
    TextDeterminesLines(MarkLines(a), MarkLines(b));
    forall i | 0 <= i < |a|
      ensures a[i] == b[i]
    {
      assert MarkLines(a)[i] == MarkLines(b)[i];
      LineDeterminesMark(a[i], b[i]);
    }
  }

  lemma OneLineText(z: Mark)
    ensures Text(MarkLines([z])) == LineOfMark(z) + "\n"
  {
    assert MarkLines([z]) == [LineOfMark(z)];
    assert [LineOfMark(z)][..0] == [];
  }

  /** A path that contains the line of `x` and a newline makes one line of two. */
  lemma SwallowedLine(x: Mark, y: Mark, z: Mark)
    requires z == y.(rel := LineOfMark(x) + "\n" + y.rel)
    ensures LineOfMark(z) == LineOfMark(x) + "\n" + LineOfMark(y)
  {
    LineSplits(y);
    LineSplits(z);
    assert LineTail(z) == LineTail(y);
  }

  lemma OtherReading(z: Mark, x: Mark) returns (b: seq<Mark>)
    requires Tidy(z) && Tidy(x) && LineOfMark(x) + "\n" <= z.rel
    ensures AllTidy(b) && Text(MarkLines(b)) == Text(MarkLines([z])) && b != [z]
  {
    var line := LineOfMark(x) + "\n";
    var y := z.(rel := z.rel[|line|..]);
    b := [x, y];
    assert z.rel == line + y.rel;
    SwallowedLine(x, y, z);
    OneLineText(z);
    assert MarkLines(b) == [LineOfMark(x), LineOfMark(y)];
    TextOfTwo(LineOfMark(x), LineOfMark(y));
  }

  lemma OnlyReading(z: Mark, b: seq<Mark>)
    requires Tidy(z) && AllTidy(b) && NoLineInside(z.rel) && Text(MarkLines(b)) == Text(MarkLines([z]))
    ensures b == [z]
  {
    OneLineText(z);
    assert b != [];
    var lines := MarkLines(b);
    TextFirst(lines);
    MarkLineInside(b[0], z);
    var rest := Text(lines[1..]);
    assert lines[0] == LineOfMark(b[0]);
    assert LineOfMark(b[0]) + "\n" + rest == LineOfMark(z) + "\n" + "";
    if |lines[0]| < |LineOfMark(z)| {
      FirstLineShorter(LineOfMark(b[0]), rest, LineOfMark(z), "");
    }
    NothingAfter(LineOfMark(b[0]), rest, LineOfMark(z));
    LineDeterminesMark(b[0], z);
    assert lines[1..] == [];
    assert b == [b[0]];
  }

  lemma NothingAfter(x: string, rest: string, y: string)
    requires x + "\n" + rest == y + "\n" && |x| >= |y|
    ensures x == y && rest == ""
  {
    assert |x + "\n" + rest| == |x| + 1 + |rest|;
    assert (x + "\n" + rest)[..|x|] == x && (y + "\n")[..|y|] == y;
  }

  /** The text of one mark can be read in no other way exactly when its path does not begin with
      what reads as a whole line, and a newline. */
  lemma ReadOneWayExactly(z: Mark)
    requires Tidy(z)
    ensures NoLineInside(z.rel)
       <==> forall b | AllTidy(b) && Text(MarkLines(b)) == Text(MarkLines([z])) :: b == [z]
  {
    if NoLineInside(z.rel) {
      forall b | AllTidy(b) && Text(MarkLines(b)) == Text(MarkLines([z]))
        ensures b == [z]
      {
        OnlyReading(z, b);
      }
    } else {
      var x: Mark :| Tidy(x) && LineOfMark(x) + "\n" <= z.rel;
      var b := OtherReading(z, x);
    }
  }

  // ---------------------------------------------------------------- what a scan sees

  /** A path that ends in a file name. */
  predicate Named(rel: string) {
    rel != "" && rel[|rel| - 1] != '/'
  }

  lemma {:induction false} FlattenNamed<M>(base: string, kids: Kids<M>)
    requires Proper(kids)
    ensures forall e :: e in Flatten(base, kids) ==> Named(e.rel)
    decreases kids
  {
    match kids
    case Nil =>
    case Cons(name, node, rest) =>
      FlattenNamed(base, rest);
      if node.Dir? {
        FlattenNamed(Join(base, name), node.kids);
      }
  }

  /** A scan sees exactly the paths that neither match a pattern nor lie below a directory
      that does, and the root; it sees nothing at all when a pattern matches `.`. */
  lemma ScanSeesVisible(excludes: seq<string>, rootMode: string, kids: Kids<Content>, e: Entry<Content>)
    requires Proper(kids)
    ensures e in Seen(excludes, rootMode, kids) <==>
            && !Excluded(excludes, ROOT)
            && (|| e == Entry(ROOT, Dir(rootMode, kids))
                || (e in Flatten("", kids) && Visible(Rule(excludes), "", e.rel)))
  {
    WalkReachesVisible(Rule(excludes), "", kids);
    VisibleOnlyMember(Rule(excludes), "", Flatten("", kids), e);
  }

  lemma SeenDistinct(excludes: seq<string>, rootMode: string, kids: Kids<Content>)
    requires Proper(kids) && DistinctNames(kids)
    ensures DistinctPaths(Seen(excludes, rootMode, kids))
    ensures forall e :: e in Seen(excludes, rootMode, kids) ==> Named(e.rel)
  {
    var below := Walk(Rule(excludes), "", kids);
    WalkDistinct(Rule(excludes), kids);
    FlattenProper("", kids);
    FlattenNamed("", kids);
    WalkReachesVisible(Rule(excludes), "", kids);
    forall e | e in below
      ensures e.rel != ROOT && Named(e.rel)
    {
      VisibleOnlyMember(Rule(excludes), "", Flatten("", kids), e);
    }
    DistinctConcat([Entry(ROOT, Dir(rootMode, kids))], below);
  }

  /** The visible tree: what is at each visible path. */
  ghost function Items(es: seq<Entry<Content>>): set<Item> {
    set i | 0 <= i < |es| :: ItemOf(es[i])
  }

  ghost function View(call: Call): set<Item>
    requires call.root.Directory?
  {
    Items(Entries(call))
  }

  /** A call sees the root as a directory, and each path that is neither excluded nor below an
      excluded directory with its kind, mode and content; nothing when a pattern matches `.`. */
  lemma ViewExactly(call: Call, x: Item)
    requires call.root.Directory? && Proper(call.root.kids)
    ensures x in View(call) <==>
            && !Excluded(call.excludes, ROOT)
            && (|| x == Item(ROOT, Folder(call.root.mode))
                || (Visible(Rule(call.excludes), "", x.rel) &&
                    exists e :: e in Flatten("", call.root.kids) && e.rel == x.rel &&
                      match e.node
                      case Dir(mode, _) => x.shape == Folder(mode)
                      case Leaf(content) => x.shape == File(content)))
  {
    var es := Entries(call);
    forall e
      ensures e in es <==>
              && !Excluded(call.excludes, ROOT)
              && (|| e == Entry(ROOT, Dir(call.root.mode, call.root.kids))
                  || (e in Flatten("", call.root.kids) && Visible(Rule(call.excludes), "", e.rel)))
    {
      ScanSeesVisible(call.excludes, call.root.mode, call.root.kids, e);
    }
    if x in View(call) {
      var i :| 0 <= i < |es| && ItemOf(es[i]) == x;
      assert es[i] in es;
    }
    assert forall e :: e in es ==> ItemOf(e) in Items(es);
  }

  predicate ModeText(mode: string) {
    Without('|', mode) && Without('\n', mode)
  }

  function ModeOf(x: Item): string {
    match x.shape
    case Folder(mode) => mode
    case File(c) => c.mode
  }

  /** A call on a directory tree that a file system can hold, in which no visible path begins
      with what reads as a whole line, and a newline. */
  ghost predicate Legible(call: Call) {
    && call.root.Directory? && Proper(call.root.kids) && DistinctNames(call.root.kids)
    && (forall x :: x in View(call) ==> NoLineInside(x.rel) && ModeText(ModeOf(x)))
  }

  /** What is hashed for a call: the contents of the files and the text of the tree. */
  ghost function Inputs(hash: string -> string, call: Call): set<string>
    requires call.root.Directory?
  {
    (set x | x in View(call) && x.shape.File? :: Preimage(x.shape.content)) + {TreeText(hash, Entries(call))}
  }

  // ---------------------------------------------------------------- equal marks, equal items

  /** A mark determines its item: the final slash tells directories, and the kinds of
      content differ in their hashed strings or in the relation of size and hashed string. */
  lemma MarkDeterminesItem(hash: string -> string, x: Item, y: Item)
    requires MarkOf(hash, x) == MarkOf(hash, y) && Named(x.rel) && Named(y.rel)
    requires x.shape.File? && y.shape.File? ==> Preimage(x.shape.content) == Preimage(y.shape.content)
    ensures x == y
  {
    var m, n := MarkOf(hash, x), MarkOf(hash, y);
    if x.shape.Folder? {
      assert m.rel[|m.rel| - 1] == '/';
      assert x.rel == m.rel[..|m.rel| - 1];
    }
    if y.shape.Folder? {
      assert n.rel[|n.rel| - 1] == '/';
      assert y.rel == n.rel[..|n.rel| - 1];
    }
    if x.shape.File? && y.shape.File? {
      SameContent(x.shape.content, y.shape.content);
    }
  }

  lemma SameContent(c: Content, d: Content)
    requires c.mode == d.mode && SizeOf(c) == SizeOf(d) && Preimage(c) == Preimage(d)
    ensures c == d
  {
    assert c.Symlink? ==> Preimage(c)[0] == 'L' && c.target == Preimage(c)[4..];
    assert d.Symlink? ==> Preimage(d)[0] == 'L' && d.target == Preimage(d)[4..];
  }

  lemma MarkMember(hash: string -> string, es: seq<Entry<Content>>, m: Mark)
    ensures m in MarksOf(hash, es) <==> exists x :: x in Items(es) && m == MarkOf(hash, x)
  {
    if m in MarksOf(hash, es) {
      var i :| 0 <= i < |es| && MarksOf(hash, es)[i] == m;
      assert ItemOf(es[i]) in Items(es);
    }
    if x :| x in Items(es) && m == MarkOf(hash, x) {
      var i :| 0 <= i < |es| && ItemOf(es[i]) == x;
      assert MarksOf(hash, es)[i] == m;
    }
  }

  lemma ItemsNamed(call: Call)
    requires Legible(call)
    ensures forall x :: x in View(call) ==> Named(x.rel)
  {
    SeenDistinct(call.excludes, call.root.mode, call.root.kids);
  }

  lemma ItemInOther(hash: string -> string, a: Call, b: Call, x: Item)
    requires Legible(a) && Legible(b) && NoCollision(hash, Inputs(hash, a) + Inputs(hash, b))
    requires SameMembers(MarksOf(hash, Entries(a)), MarksOf(hash, Entries(b)))
    requires x in View(a)
    ensures x in View(b)
  {
    var m := MarkOf(hash, x);
    MarkMember(hash, Entries(a), m);
    assert m in MarksOf(hash, Entries(a));
    MarkMember(hash, Entries(b), m);
    var y :| y in View(b) && m == MarkOf(hash, y);
    ItemsNamed(a);
    ItemsNamed(b);
    if x.shape.File? && y.shape.File? {
      assert Preimage(x.shape.content) in Inputs(hash, a);
      assert Preimage(y.shape.content) in Inputs(hash, b);
    }
    MarkDeterminesItem(hash, x, y);
  }

  lemma SameMarksSameView(hash: string -> string, a: Call, b: Call)
    requires Legible(a) && Legible(b) && NoCollision(hash, Inputs(hash, a) + Inputs(hash, b))
    ensures SameMembers(MarksOf(hash, Entries(a)), MarksOf(hash, Entries(b))) <==> View(a) == View(b)
  {
    if SameMembers(MarksOf(hash, Entries(a)), MarksOf(hash, Entries(b))) {
      forall x | x in View(a)
        ensures x in View(b)
      {
        ItemInOther(hash, a, b, x);
      }
      forall x | x in View(b)
        ensures x in View(a)
      {
        assert Inputs(hash, b) + Inputs(hash, a) == Inputs(hash, a) + Inputs(hash, b);
        ItemInOther(hash, b, a, x);
      }
    }
    if View(a) == View(b) {
      forall m: Mark
        ensures m in MarksOf(hash, Entries(a)) <==> m in MarksOf(hash, Entries(b))
      {
        MarkMember(hash, Entries(a), m);
        MarkMember(hash, Entries(b), m);
      }
    }
  }

  // ---------------------------------------------------------------- equal texts, equal marks

  lemma MarksDistinct(hash: string -> string, call: Call)
    requires Legible(call)
    ensures NoDup(MarksOf(hash, Entries(call))) && Distinguishes(RelOf, MarksOf(hash, Entries(call)))
  {
    var es := Entries(call);
    var ms := MarksOf(hash, es);
    SeenDistinct(call.excludes, call.root.mode, call.root.kids);
    forall i, j | 0 <= i < |ms| && 0 <= j < |ms| && i != j
      ensures ms[i].rel != ms[j].rel
    {
      assert es[i] in es && es[j] in es;
      assert es[i].rel != es[j].rel;
      MarkPathsDiffer(hash, ItemOf(es[i]), ItemOf(es[j]));
    }
  }

  lemma MarkPathsDiffer(hash: string -> string, x: Item, y: Item)
    requires Named(x.rel) && Named(y.rel) && x.rel != y.rel
    ensures MarkOf(hash, x).rel != MarkOf(hash, y).rel
  {
    assert (x.rel + "/")[..|x.rel|] == x.rel && (y.rel + "/")[..|y.rel|] == y.rel;
    assert (x.rel + "/")[|x.rel|] == '/' && (y.rel + "/")[|y.rel|] == '/';
  }

  lemma MarksTidy(hash: string -> string, call: Call)
    requires Legible(call) && PrintsHex(hash)
    ensures var ms := SortBy(RelOf, MarksOf(hash, Entries(call))); AllTidy(ms) && NoLinesInside(ms)
  {
    var es := Entries(call);
    var ms := MarksOf(hash, es);
    SortBySorts(RelOf, ms);
    forall m | m in ms
      ensures Tidy(m) && NoLineInside(m.rel)
    {
      MarkMember(hash, es, m);
      var x :| x in Items(es) && m == MarkOf(hash, x);
      MarkTidy(hash, x);
    }
    assert forall m :: m in SortBy(RelOf, ms) ==> Tidy(m) && NoLineInside(m.rel);
  }

  lemma MarkTidy(hash: string -> string, x: Item)
    requires PrintsHex(hash) && NoLineInside(x.rel) && ModeText(ModeOf(x))
    ensures Tidy(MarkOf(hash, x)) && NoLineInside(MarkOf(hash, x).rel)
  {
    if x.shape.File? {
      assert HexText(hash(Preimage(x.shape.content)));
    } else {
      forall e: Mark | Tidy(e) && LineOfMark(e) + "\n" <= x.rel + "/"
        ensures false
      {
        LineInsidePath(LineOfMark(e), x.rel, "/");
      }
    }
  }

  lemma SameTextSameMarks(hash: string -> string, a: Call, b: Call)
    requires Legible(a) && Legible(b) && PrintsHex(hash)
    ensures TreeText(hash, Entries(a)) == TreeText(hash, Entries(b))
       <==> SameMembers(MarksOf(hash, Entries(a)), MarksOf(hash, Entries(b)))
  {
    var ms, ns := MarksOf(hash, Entries(a)), MarksOf(hash, Entries(b));
    MarksDistinct(hash, a);
    MarksDistinct(hash, b);
    SortBySame(RelOf, ms, ns);
    if TreeText(hash, Entries(a)) == TreeText(hash, Entries(b)) {
      MarksTidy(hash, a);
      MarksTidy(hash, b);
      TextDeterminesMarks(SortBy(RelOf, ms), SortBy(RelOf, ns));
      forall m: Mark
        ensures m in ms <==> m in ns
      {
        assert m in ms <==> m in multiset(ms);
        assert m in ns <==> m in multiset(ns);
      }
    }
    if SameMembers(ms, ns) {
      NoDupSameMembers(ms, ns);
    }
  }

  /** Two scans have the same signature exactly when they see the same. */
  lemma SameSignatureSameView(hash: string -> string, a: Call, b: Call)
    requires Legible(a) && Legible(b) && PrintsHex(hash)
    requires NoCollision(hash, Inputs(hash, a) + Inputs(hash, b))
    ensures SigOf(hash, a) == SigOf(hash, b) <==> View(a) == View(b)
  {
    SameTextSameMarks(hash, a, b);
    SameMarksSameView(hash, a, b);
    assert TreeText(hash, Entries(a)) in Inputs(hash, a);
    assert TreeText(hash, Entries(b)) in Inputs(hash, b);
  }

  // ---------------------------------------------------------------- runs

  /** What a call does to the stored signature. */
  ghost function Taking(hash: string -> string): Call -> Attempt {
    (c: Call) => if c.root.Directory? then Taken(SigOf(hash, c), Stored(SigOf(hash, c) + "\n")) else Idle
  }

  /** The detector behaves as its attempts say. */
  lemma RepliesAsTaken(hash: string -> string, stored: Stored, call: Call)
    ensures var a := Taking(hash)(call);
            && (a.Idle? ==> Reply(hash, stored, call) == Failed && Leaves(hash, stored, call) == stored)
            && (a.Taken? ==> Reply(hash, stored, call) == Detected(Differs(stored, a.sig), a.sig, ReadText(stored))
                             && Leaves(hash, stored, call) == a.file)
  {
  }

  lemma SuccessSaves(hash: string -> string, call: Call)
    requires PrintsHex(hash) && call.root.Directory?
    ensures Saves(Taking(hash)(call))
  {
    assert HexText(SigOf(hash, call));
    HexReadsBack(SigOf(hash, call));
  }

  /** A successful call that finds no signature reports no change. */
  lemma FirstCallQuiet(hash: string -> string, stored: Stored, call: Call)
    requires call.root.Directory? && ReadText(stored) == ""
    ensures Reply(hash, stored, call) == Detected(false, SigOf(hash, call), "")
  {
  }

  /** A successful call reports a change exactly when the visible tree differs from that of
      the last successful call before it, whatever calls failed in between. */
  lemma LaterCallCompares(hash: string -> string, stored: Stored, before: seq<Call>, a: Call, failures: seq<Call>,
        b: Call)
    requires Legible(a) && Legible(b) && forall c :: c in failures ==> !c.root.Directory?
    requires PrintsHex(hash) && NoCollision(hash, Inputs(hash, a) + Inputs(hash, b))
    ensures Reply(hash, After(Taking(hash), stored, before + [a] + failures), b)
         == Detected(View(a) != View(b), SigOf(hash, b), SigOf(hash, a))
  {
    SuccessSaves(hash, a);
    ComparesWithLast(Taking(hash), stored, before, a, failures);
    SameSignatureSameView(hash, a, b);
  }

  /** No change is lost: if the first and the last call of a run see different trees, some
      call after the first reported a change. */
  lemma NoChangeLost(hash: string -> string, stored: Stored, calls: seq<Call>)
    requires calls != [] && Legible(calls[0]) && Legible(calls[|calls| - 1]) && PrintsHex(hash)
    requires NoCollision(hash, Inputs(hash, calls[0]) + Inputs(hash, calls[|calls| - 1]))
    requires View(calls[0]) != View(calls[|calls| - 1])
    ensures exists i :: 0 < i < |calls| && Reports(Taking(hash), stored, calls, i)
  {
    forall c: Call | c.root.Directory?
      ensures Saves(Taking(hash)(c))
    {
      SuccessSaves(hash, c);
    }
    SameSignatureSameView(hash, calls[0], calls[|calls| - 1]);
    SomeCallReports(Taking(hash), stored, calls);
  }

  // ---------------------------------------------------------------- what goes wrong

  /** A pattern that matches `.` hides the whole tree, so that nothing is ever reported. */
  lemma RootPatternBlinds(hash: string -> string, stored: Stored, before: seq<Call>, a: Call, b: Call)
    requires a.root.Directory? && b.root.Directory? && PrintsHex(hash)
    requires Excluded(a.excludes, ROOT) && Excluded(b.excludes, ROOT)
    ensures View(a) == {} == View(b)
    ensures !Reports(Taking(hash), stored, before + [a, b], |before| + 1)
  {
    AfterSnoc(Taking(hash), stored, before, a);
    SuccessSaves(hash, a);
    assert (before + [a, b])[..|before| + 1] == before + [a];
  }

  /** A single star is such a pattern. */
  lemma StarMatchesRoot(excludes: seq<string>)
    requires "*" in excludes
    ensures Excluded(excludes, ROOT)
  {
    TrimSpaceId("*");
    var star := ToSlash("*");
    var root := ToSlash(ROOT);
    assert star == "*" && root == ".";
    assert root[1..] == "" && star[1..] == "" && root[..1] == ".";
    assert LineMatch(star, root);
  }

  const PLAIN := Leaf(Regular("m", ""))

  function TwoFiles(): Call {
    Call(Directory("d", Cons("a", PLAIN, Cons("b", PLAIN, Nil))), [])
  }

  function OneFile(name: string): Call {
    Call(Directory("d", Cons(name, PLAIN, Nil)), [])
  }

  lemma MarksOfOneAndTwo(hash: string -> string, name: string)
    ensures var h := hash("");
            && MarksOf(hash, Entries(TwoFiles()))
                 == [Mark("./", "d", 0, "DIR"), Mark("a", "m", 0, h), Mark("b", "m", 0, h)]
            && MarksOf(hash, Entries(OneFile(name))) == [Mark("./", "d", 0, "DIR"), Mark(name, "m", 0, h)]
    ensures Item("b", File(PLAIN.meta)) in View(TwoFiles())
    ensures forall x :: x in View(OneFile(name)) ==> x.rel == ROOT || x.rel == name
  {
    var k2 := Cons("b", PLAIN, Nil);
    var k1 := Cons("a", PLAIN, k2);
    assert Walk(Rule([]), "", k2) == [Entry("b", PLAIN)];
    assert Walk(Rule([]), "", k1) == [Entry("a", PLAIN), Entry("b", PLAIN)];
    assert Walk(Rule([]), "", Cons(name, PLAIN, Nil)) == [Entry(name, PLAIN)];
    assert Entries(TwoFiles()) == [Entry(ROOT, Dir("d", k1)), Entry("a", PLAIN), Entry("b", PLAIN)];
    assert Entries(OneFile(name)) == [Entry(ROOT, Dir("d", Cons(name, PLAIN, Nil))), Entry(name, PLAIN)];
    assert ROOT + "/" == "./";
    assert ItemOf(Entries(TwoFiles())[2]) == Item("b", File(PLAIN.meta));
  }

  lemma TwoSortedAsIs(x: Mark, y: Mark)
    requires LexLe(x.rel, y.rel)
    ensures SortBy(RelOf, [x, y]) == [x, y]
  {
    assert [y][1..] == [] && [x, y][1..] == [y];
    assert SortBy(RelOf, [y]) == [y];
  }

  lemma SortedAsIs(r: Mark, x: Mark, y: Mark)
    requires LexLe(r.rel, x.rel) && LexLe(x.rel, y.rel)
    ensures SortBy(RelOf, [r, x, y]) == [r, x, y]
  {
    TwoSortedAsIs(x, y);
    assert [r, x, y][1..] == [x, y];
  }

  lemma TextOfTwo(a: string, b: string)
    ensures Text([a, b]) == a + "\n" + b + "\n"
  {
    assert [a, b][..1] == [a] && [a][..0] == [];
    assert Text([a]) == a + "\n";
  }

  lemma TextOfThree(a: string, b: string, c: string)
    ensures Text([a, b, c]) == a + "\n" + b + "\n" + c + "\n"
  {
    TextOfTwo(a, b);
    assert [a, b, c][..2] == [a, b];
  }

  lemma SwallowedText(a: string, b: string, c: string)
    ensures Text([a, b + "\n" + c]) == Text([a, b, c])
  {
    TextOfThree(a, b, c);
    TextOfTwo(a, b + "\n" + c);
  }

  lemma LineOfEmptyFile(x: Mark)
    requires x.rel == "a" && x.mode == "m" && x.size == 0
    ensures LineOfMark(x) == "a|m|0|" + x.digest
  {
    assert Printed(0) == "0";
  }

  lemma NewlineNameSameText(hash: string -> string, name: string)
    requires name == "a|m|0|" + hash("") + "\nb"
    ensures TreeText(hash, Entries(OneFile(name))) == TreeText(hash, Entries(TwoFiles()))
  {
    var h := hash("");
    var r, x, y, z := Mark("./", "d", 0, "DIR"), Mark("a", "m", 0, h), Mark("b", "m", 0, h), Mark(name, "m", 0, h);
    MarksOfOneAndTwo(hash, name);
    assert "a"[1..] == "";
    SortedAsIs(r, x, y);
    assert name[0] == 'a';
    TwoSortedAsIs(r, z);
    LineOfEmptyFile(x);
    SwallowedLine(x, y, z);
    SwallowedText(LineOfMark(r), LineOfMark(x), LineOfMark(y));
    assert MarkLines([r, x, y]) == [LineOfMark(r), LineOfMark(x), LineOfMark(y)];
    assert MarkLines([r, z]) == [LineOfMark(r), LineOfMark(z)];
  }

  /** With a newline in a name a change can be lost: one file can stand for two. */
  lemma NewlineNameHidesFile(hash: string -> string, name: string)
    requires PrintsHex(hash) && name == "a|m|0|" + hash("") + "\nb"
    ensures Proper(OneFile(name).root.kids) && Proper(TwoFiles().root.kids)
    ensures View(OneFile(name)) != View(TwoFiles())
    ensures SigOf(hash, OneFile(name)) == SigOf(hash, TwoFiles())
  {
    assert HexText(hash(""));
    assert |name| > 1 && ProperName(name);
    MarksOfOneAndTwo(hash, name);
    NewlineNameSameText(hash, name);
  }
}
