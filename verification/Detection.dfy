/** Live change detection: a signature over everything visible, compared from call to call. */
module Detection {
  import opened Strings
  import opened Decimal
  import opened Sorting
  import opened Trees
  import opened Matchers
  import opened IndexText

  /** A string whose length fits a 64-bit integer. */
  type Blob = s: string | |s| <= MAX_INT64 witness ""

  type Size = v: int | Int64(v) witness 0

  /** What a path that is no directory holds; its mode is an opaque string. */
  datatype Content =
    | Regular(mode: string, bytes: Blob)
    | Symlink(mode: string, target: Blob)
    | Special(mode: string)

  /** What the signature is meant to see of one path: not what lies below it. */
  datatype Shape = Folder(mode: string) | File(content: Content)
  datatype Item = Item(rel: string, shape: Shape)

  function ItemOf(e: Entry<Content>): Item {
    Item(e.rel, if e.node.Dir? then Folder(e.node.mode) else File(e.node.meta))
  }

  /** One entry of the scan: path, mode, size, digest. */
  datatype Mark = Mark(rel: string, mode: string, size: Size, digest: string)

  /** The path of the root relative to itself. */
  const ROOT := "."

  /** The string whose hash stands for the content. */
  function Preimage(c: Content): string {
    match c
    case Regular(_, bytes) => bytes
    case Symlink(_, target) => "LNK:" + target
    case Special(_) => "SPECIAL"
  }

  function SizeOf(c: Content): Size {
    match c
    case Regular(_, bytes) => |bytes|
    case Symlink(_, target) => |target|
    case Special(_) => 0
  }

  /** The mark of an item. Directories have a final slash and the digest DIR. */
  function MarkOf(hash: string -> string, x: Item): Mark {
    match x.shape
    case Folder(mode) => Mark(x.rel + "/", mode, 0, "DIR")
    case File(c) => Mark(x.rel, c.mode, SizeOf(c), hash(Preimage(c)))
  }

  function MarksOf(hash: string -> string, es: seq<Entry<Content>>): (r: seq<Mark>)
    ensures |r| == |es|
  {
    seq(|es|, i requires 0 <= i < |es| => MarkOf(hash, ItemOf(es[i])))
  }

  ghost function Rule(excludes: seq<string>): string -> bool {
    (p: string) => Excluded(excludes, p)
  }

  /** What a scan visits. The root is visited too, under the name `.`. */
  ghost function Seen(excludes: seq<string>, rootMode: string, kids: Kids<Content>): seq<Entry<Content>> {
    if Excluded(excludes, ROOT) then []
    else [Entry(ROOT, Dir(rootMode, kids))] + Walk(Rule(excludes), "", kids)
  }

  /** Visiting one child and what is below it. */
  ghost function ChildSeen(excludes: seq<string>, base: string, name: string,
        node: Node<Content>): seq<Entry<Content>> {
    var rel := Join(base, name);
    if Excluded(excludes, rel) then []
    else [Entry(rel, node)] + (if node.Dir? then Walk(Rule(excludes), rel, node.kids) else [])
  }

  /** The marks a walk adds to those already found. */
  ghost function Extended(hash: string -> string, found: seq<Mark>, es: seq<Entry<Content>>): seq<Mark> {
    found + MarksOf(hash, es)
  }

  lemma ExtendedConcat(hash: string -> string, found: seq<Mark>, a: seq<Entry<Content>>, b: seq<Entry<Content>>)
    ensures Extended(hash, found, a + b) == Extended(hash, Extended(hash, found, a), b)
    ensures Extended(hash, found, []) == found
  {
  }

  lemma WalkUnfolds(hash: string -> string, found: seq<Mark>, excludes: seq<string>, base: string, kids: Kids<Content>)
    ensures Extended(hash, found, Walk(Rule(excludes), base, kids)) ==
            if kids.Nil? then found
            else Extended(hash, Extended(hash, found, ChildSeen(excludes, base, kids.name, kids.node)),
                          Walk(Rule(excludes), base, kids.rest))
  {
    if kids.Cons? {
      ExtendedConcat(hash, found, ChildSeen(excludes, base, kids.name, kids.node),
                Walk(Rule(excludes), base, kids.rest));
    }
  }

  /** The walk's state: the marks found so far. */
  class Scan {
    var marks: seq<Mark>
    const m: Matcher
    const hash: string -> string

    constructor (m: Matcher, hash: string -> string)
      ensures marks == [] && this.m == m && this.hash == hash
    {
      marks := [];
      this.m := m;
      this.hash := hash;
    }

    /** The callback: an excluded directory is not entered. */
    method Visit(rel: string, node: Node<Content>, ghost excludes: seq<string>) returns (enter: bool)
      requires m.res == Compiled(excludes)
      modifies `marks
      ensures enter <==> node.Dir? && !Excluded(excludes, rel)
      ensures marks == Extended(hash, old(marks), if Excluded(excludes, rel) then [] else [Entry(rel, node)])
    {
      CompiledSearches(excludes, rel);
      var excluded := m.MatchRel(rel);
      if excluded {
        return false;
      }
      match node
      case Dir(mode, _) =>
        marks := marks + [Mark(rel + "/", mode, 0, "DIR")];
        enter := true;
      case Leaf(Symlink(mode, target)) =>
        marks := marks + [Mark(rel, mode, |target|, hash("LNK:" + target))];
        enter := false;
      case Leaf(Special(mode)) =>
        marks := marks + [Mark(rel, mode, 0, hash("SPECIAL"))];
        enter := false;
      case Leaf(Regular(mode, bytes)) =>
        marks := marks + [Mark(rel, mode, |bytes|, hash(bytes))];
        enter := false;
    }

    method WalkKids(base: string, kids: Kids<Content>, ghost excludes: seq<string>)
      requires m.res == Compiled(excludes)
      modifies `marks
      ensures marks == Extended(hash, old(marks), Walk(Rule(excludes), base, kids))
      decreases kids, 0
    {
      WalkUnfolds(hash, marks, excludes, base, kids);
      if kids.Cons? {
        WalkChild(base, kids.name, kids.node, excludes);
        WalkKids(base, kids.rest, excludes);
      }
    }

    method WalkChild(base: string, name: string, node: Node<Content>, ghost excludes: seq<string>)
      requires m.res == Compiled(excludes)
      modifies `marks
      ensures marks == Extended(hash, old(marks), ChildSeen(excludes, base, name, node))
      decreases node, 1
    {
      var rel := Join(base, name);
      ghost var found := marks;
      var enter := Visit(rel, node, excludes);
      if enter {
        ExtendedConcat(hash, found, [Entry(rel, node)], Walk(Rule(excludes), rel, node.kids));
        WalkKids(rel, node.kids, excludes);
      }
    }
  }

  // ---------------------------------------------------------------- the signature

  function LineOfMark(e: Mark): string {
    e.rel + "|" + e.mode + "|" + Printed(e.size) + "|" + e.digest
  }

  function MarkLines(es: seq<Mark>): (r: seq<string>)
    ensures |r| == |es|
  {
    seq(|es|, i requires 0 <= i < |es| => LineOfMark(es[i]))
  }

  function RelOf(e: Mark): string {
    e.rel
  }

  /** The text that is hashed for the tree: a line per entry, in the order of the paths. */
  function TreeText(hash: string -> string, es: seq<Entry<Content>>): string {
    Text(MarkLines(SortBy(RelOf, MarksOf(hash, es))))
  }

  lemma MarkLinesSnoc(es: seq<Mark>, i: nat)
    requires i < |es|
    ensures Text(MarkLines(es[..i + 1])) == Text(MarkLines(es[..i])) + LineOfMark(es[i]) + "\n"
  {
    var lines := MarkLines(es[..i + 1]);
    assert lines[..|lines| - 1] == MarkLines(es[..i]);
  }

  method WriteMarks(es: seq<Mark>) returns (text: string)
    ensures text == Text(MarkLines(es))
  {
    text := "";
    var i := 0;
    while i < |es|
      invariant 0 <= i <= |es|
      invariant text == Text(MarkLines(es[..i]))
    {
      MarkLinesSnoc(es, i);
      var size := Itoa64InBuffer(es[i].size);
      var line := es[i].rel + "|" + es[i].mode + "|" + size + "|" + es[i].digest + "\n";
      assert line == LineOfMark(es[i]) + "\n";
      text := text + line;
      i := i + 1;
    }
    assert es[..i] == es;
  }

  method ComputeTreeSig(hash: string -> string, rootMode: string, kids: Kids<Content>, excludes: seq<string>)
    returns (sig: string)
    ensures sig == hash(TreeText(hash, Seen(excludes, rootMode, kids)))
  {
    var m := new Matcher(excludes);
    var scan := new Scan(m, hash);
    var enter := scan.Visit(ROOT, Dir(rootMode, kids), excludes);
    if enter {
      ExtendedConcat(hash, [], [Entry(ROOT, Dir(rootMode, kids))], Walk(Rule(excludes), "", kids));
      scan.WalkKids("", kids, excludes);
    }
    assert scan.marks == Extended(hash, [], Seen(excludes, rootMode, kids));
    assert scan.marks == MarksOf(hash, Seen(excludes, rootMode, kids));
    var ents := SortBy(RelOf, scan.marks);
    var text := WriteMarks(ents);
    sig := hash(text);
  }

  // ---------------------------------------------------------------- one call

  /** What a call finds at its root. */
  datatype Root = NoDirectory | Unreadable | Directory(mode: string, kids: Kids<Content>)

  datatype Call = Call(root: Root, excludes: seq<string>)

  datatype Outcome = Failed | Detected(changed: bool, mainSig: string, prevMainSig: string)

  ghost function Entries(call: Call): seq<Entry<Content>>
    requires call.root.Directory?
  {
    Seen(call.excludes, call.root.mode, call.root.kids)
  }

  ghost function SigOf(hash: string -> string, call: Call): string
    requires call.root.Directory?
  {
    hash(TreeText(hash, Entries(call)))
  }

  /** What a call reports, given the stored signature. */
  ghost function Reply(hash: string -> string, stored: Stored, call: Call): Outcome {
    if !call.root.Directory? then Failed
    else
      var prev, sig := ReadText(stored), SigOf(hash, call);
      Detected(prev != "" && sig != prev, sig, prev)
  }

  /** What a call stores; a failed call stores nothing. */
  ghost function Leaves(hash: string -> string, stored: Stored, call: Call): Stored {
    if !call.root.Directory? then stored else Stored(SigOf(hash, call) + "\n")
  }

  lemma TrimTwice(stored: Stored)
    ensures TrimSpace(ReadText(stored)) == ReadText(stored)
  {
    if stored.Stored? {
      var t := TrimLeft(stored.text);
      TrimLeftEnds(stored.text);
      TrimRightEnds(t);
      var r := TrimRight(t);
      if r != "" {
        assert r[0] == t[0];
      }
      TrimSpaceId(r);
    }
  }

  method Detect(hash: string -> string, stored: Stored, call: Call) returns (r: Outcome, stored': Stored)
    ensures r == Reply(hash, stored, call) && stored' == Leaves(hash, stored, call)
  {
    if call.root.NoDirectory? {
      return Failed, stored;
    }
    var prevSig := ReadText(stored);
    if call.root.Unreadable? {
      return Failed, stored;
    }
    var sig := ComputeTreeSig(hash, call.root.mode, call.root.kids, call.excludes);
    var changed := prevSig != "" && sig != prevSig;
    if prevSig == "" {
      changed := false;
    }
    stored' := Stored(sig + "\n");
    TrimTwice(stored);
    r := Detected(changed, sig, TrimSpace(prevSig));
  }
}
