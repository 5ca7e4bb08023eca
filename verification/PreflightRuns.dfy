/** Runs of the preflight scan: the signature tells the same story as the difference. */
module PreflightRuns {
  import opened Lists
  import opened Strings
  import opened Sorting
  import opened Trees
  import opened Excludes
  import opened IndexText
  import opened Preflight
  import opened IndexDiff

  datatype Saved = Saved(sig: Stored, index: Stored)

  /** What a scan computes. The pending hint is set last, after everything was saved. */
  datatype Result = Result(mainSig: string, prevMainSig: string, diff: Diff, changed: bool, pendingMaybeSet: bool)

  const SAMPLE_LIMIT := 10

  function SigOf(saved: Saved): string {
    ReadText(saved.sig)
  }

  function IndexOfSaved(saved: Saved): Files {
    if saved.index.Stored? then Load(saved.index.text) else map[]
  }

  /** The visible files of a tree with their paths, in walk order. */
  ghost function VisiblePairs(kids: Kids<FileMeta>, excludes: seq<string>): seq<(string, FileMeta)> {
    Pairs(VisibleEntries(kids, excludes))
  }

  ghost function VisibleFiles(kids: Kids<FileMeta>, excludes: seq<string>): Files {
    Fill(VisiblePairs(kids, excludes))
  }

  /** The text that a scan hashes and saves. */
  ghost function ScanText(kids: Kids<FileMeta>, excludes: seq<string>): string {
    Text(Sort(Print(VisiblePairs(kids, excludes))))
  }

  /** A scan of this tree finds another signature saved. */
  ghost predicate ChangedNow(hash: string -> string, saved: Saved, kids: Kids<FileMeta>, excludes: seq<string>) {
    SigOf(saved) != "" && SigOf(saved) != hash(ScanText(kids, excludes))
  }

  /** What a scan computes before it saves, for a given hash function. */
  ghost predicate IsReport(hash: string -> string, saved: Saved, kids: Kids<FileMeta>, excludes: seq<string>,
        r: Result) {
    && r.mainSig == hash(ScanText(kids, excludes))
    && r.prevMainSig == SigOf(saved)
    && IsDiff(r.diff, IndexOfSaved(saved), VisibleFiles(kids, excludes), SAMPLE_LIMIT)
    && r.changed == ChangedNow(hash, saved, kids, excludes)
  }

  /** What a scan that completes reports and leaves behind. */
  ghost predicate IsRun(hash: string -> string, saved: Saved, kids: Kids<FileMeta>, excludes: seq<string>, r: Result,
        saved': Saved) {
    && IsReport(hash, saved, kids, excludes, r) && r.pendingMaybeSet == r.changed
    && saved' == Saved(Stored(r.mainSig + "\n"), Stored(ScanText(kids, excludes)))
  }

  /** The visible files with the text that lists them. */
  method Index(kids: Kids<FileMeta>, excludes: seq<string>) returns (files: Files, text: string)
    requires Proper(kids)
    ensures files == VisibleFiles(kids, excludes) && text == ScanText(kids, excludes)
  {
    var lines;
    files, lines := BuildIndex(kids, excludes);
    text := SaveIndex(lines);
  }

  method LoadPrevious(saved: Saved) returns (prevSig: string, prevMap: Files)
    ensures prevSig == SigOf(saved) && prevMap == IndexOfSaved(saved)
  {
    prevSig, prevMap := "", map[];
    if saved.sig.Stored? {
      prevSig := TrimSpace(saved.sig.text);
    }
    if saved.index.Stored? {
      prevMap := LoadIndex(saved.index.text);
    }
  }

  /** What the file system does to one scan. A save that fails leaves any content behind. */
  datatype Fate = Completes | BuildFails | SigSaveFails(left: Stored) | IndexSaveFails(left: Stored)

  /** A save that fails returns its error with what was computed before. */
  datatype Answer = BuildFailed | SaveFailed(result: Result) | Scanned(result: Result)

  /** One call with its fate: the signature is saved before the index. */
  ghost predicate IsCall(hash: string -> string, saved: Saved, kids: Kids<FileMeta>, excludes: seq<string>, fate: Fate,
                         a: Answer, saved': Saved) {
    match fate
    case Completes => a.Scanned? && IsRun(hash, saved, kids, excludes, a.result, saved')
    case BuildFails => a.BuildFailed? && saved' == saved
    case SigSaveFails(left) =>
      && a.SaveFailed? && IsReport(hash, saved, kids, excludes, a.result) && !a.result.pendingMaybeSet
      && saved' == saved.(sig := left)
    case IndexSaveFails(left) =>
      && a.SaveFailed? && IsReport(hash, saved, kids, excludes, a.result) && !a.result.pendingMaybeSet
      && saved' == Saved(Stored(a.result.mainSig + "\n"), left)
  }

  method Run(hash: string -> string, saved: Saved, kids: Kids<FileMeta>, excludes: seq<string>, fate: Fate)
    returns (a: Answer, saved': Saved)
    requires Proper(kids)
    ensures IsCall(hash, saved, kids, excludes, fate, a, saved')
  {
    if fate.BuildFails? {
      return BuildFailed, saved;
    }
    var files, text := Index(kids, excludes);
    var curSig := hash(text);
    var prevSig, prevMap := LoadPrevious(saved);
    var d := DiffIndex(prevMap, files, SAMPLE_LIMIT);
    var res := Result(curSig, prevSig, d, prevSig != "" && prevSig != curSig, false);
    if fate.SigSaveFails? {
      return SaveFailed(res), saved.(sig := fate.left);
    }
    saved' := saved.(sig := Stored(curSig + "\n"));
    if fate.IndexSaveFails? {
      return SaveFailed(res), saved'.(index := fate.left);
    }
    saved' := saved'.(index := Stored(text));
    if res.changed {
      res := res.(pendingMaybeSet := true);
    }
    a := Scanned(res);
  }

  // ---------------------------------------------------------------- signature and difference agree

  /** A tree whose scan the text form can carry: distinct proper names, plain visible paths,
      64-bit sizes and times, and lines the scanner accepts. */
  ghost predicate Carried(kids: Kids<FileMeta>, excludes: seq<string>) {
    Legible(kids, excludes) && AllPlain(VisibleFiles(kids, excludes))
  }

  /** As `Carried`, but with any paths. */
  ghost predicate Legible(kids: Kids<FileMeta>, excludes: seq<string>) {
    && Proper(kids) && DistinctNames(kids)
    && AllInRange(VisibleFiles(kids, excludes))
    && (forall i :: 0 <= i < |VisiblePairs(kids, excludes)| ==> |Print(VisiblePairs(kids, excludes))[i]| <= MAX_LINE)
  }

  lemma VisibleDistinct(kids: Kids<FileMeta>, excludes: seq<string>)
    requires Proper(kids) && DistinctNames(kids)
    ensures DistinctKeys(VisiblePairs(kids, excludes))
  {
    PreflightWalkIsFilter(excludes, kids);
    WalkDistinct(PreflightRule(excludes), kids);
    PairsDistinct(VisibleEntries(kids, excludes));
  }

  lemma {:induction false} PairsMember(es: Listing, rel: string, m: FileMeta)
    ensures (rel, m) in Pairs(es) <==> Entry(rel, Leaf(m)) in es
  {
    if es == [] {
    } else {
      var init, last := es[..|es| - 1], es[|es| - 1];
      PairsMember(init, rel, m);
      assert forall e :: e in es <==> e in init || e == last;
    }
  }

  /** The index holds exactly the files of the tree that no exclusion hides, with size and time. */
  lemma VisibleExactly(kids: Kids<FileMeta>, excludes: seq<string>, rel: string, m: FileMeta)
    requires Proper(kids) && DistinctNames(kids)
    ensures rel in VisibleFiles(kids, excludes) && VisibleFiles(kids, excludes)[rel] == m
       <==> !Skips(excludes, rel) && Entry(rel, Leaf(m)) in Flatten("", kids)
  {
    var es := Flatten("", kids);
    VisibleDistinct(kids, excludes);
    FillMember(VisiblePairs(kids, excludes), rel, m);
    PairsMember(NotSkipped(PreflightRule(excludes), es), rel, m);
    NotSkippedMember(PreflightRule(excludes), es, Entry(rel, Leaf(m)));
  }

  /** The saved index of a scan reads back as its files exactly when their paths are plain. */
  lemma SavedIndexReadsBack(kids: Kids<FileMeta>, excludes: seq<string>)
    requires Legible(kids, excludes)
    ensures Load(ScanText(kids, excludes)) == VisibleFiles(kids, excludes) <==> Carried(kids, excludes)
  {
    var ps := VisiblePairs(kids, excludes);
    VisibleDistinct(kids, excludes);
    SortedLinesList(ps);
    RoundTripExactly(Sort(Print(ps)), Fill(ps));
  }

  lemma SameTextSameFiles(kids1: Kids<FileMeta>, ex1: seq<string>, kids2: Kids<FileMeta>, ex2: seq<string>)
    requires Carried(kids1, ex1) && Carried(kids2, ex2)
    ensures ScanText(kids1, ex1) == ScanText(kids2, ex2) <==> VisibleFiles(kids1, ex1) == VisibleFiles(kids2, ex2)
  {
    SavedIndexReadsBack(kids1, ex1);
    SavedIndexReadsBack(kids2, ex2);
    if VisibleFiles(kids1, ex1) == VisibleFiles(kids2, ex2) {
      VisibleDistinct(kids1, ex1);
      VisibleDistinct(kids2, ex2);
      SameFilesSameLines(VisiblePairs(kids1, ex1), VisiblePairs(kids2, ex2));
    }
  }

  /** What is assumed of the hash on the texts at hand: it prints no blanks and they do not collide. */
  ghost predicate GoodHash(hash: string -> string, t1: string, t2: string) {
    && (hash(t1) == hash(t2) ==> t1 == t2)
    && hash(t1) != "" && TrimSpace(hash(t1) + "\n") == hash(t1)
  }

  /** What a call after a completed scan reports, whether it saves or not: a change exactly when
      its difference counts one, and then counts, balance and sample are those of the two sets
      of visible files. */
  lemma SignatureAgreesWithDiff(hash: string -> string, s0: Saved, s1: Saved, kids1: Kids<FileMeta>, ex1: seq<string>,
                                r1: Result, kids2: Kids<FileMeta>, ex2: seq<string>, r2: Result)
    requires IsRun(hash, s0, kids1, ex1, r1, s1) && IsReport(hash, s1, kids2, ex2, r2)
    requires Carried(kids1, ex1) && Carried(kids2, ex2)
    requires GoodHash(hash, ScanText(kids1, ex1), ScanText(kids2, ex2))
    ensures r2.changed <==> r2.diff.added + r2.diff.modified + r2.diff.removed > 0
    ensures r2.changed <==> VisibleFiles(kids1, ex1) != VisibleFiles(kids2, ex2)
    ensures |VisibleFiles(kids2, ex2)| == |VisibleFiles(kids1, ex1)| + r2.diff.added - r2.diff.removed
    ensures |r2.diff.sample| == Min(SAMPLE_LIMIT, r2.diff.added + r2.diff.modified + r2.diff.removed)
  {
    SavedIndexReadsBack(kids1, ex1);
    SameTextSameFiles(kids1, ex1, kids2, ex2);
    ReportCounts(hash, s1, kids2, ex2, r2);
  }

  /** The counts of a scan balance between the index it loaded and the files it saw. */
  lemma ReportCounts(hash: string -> string, saved: Saved, kids: Kids<FileMeta>, excludes: seq<string>, r: Result)
    requires IsReport(hash, saved, kids, excludes, r)
    ensures var prev, cur := IndexOfSaved(saved), VisibleFiles(kids, excludes);
            && (r.diff.added + r.diff.modified + r.diff.removed == 0 <==> prev == cur)
            && |cur| == |prev| + r.diff.added - r.diff.removed
            && |r.diff.sample| == Min(SAMPLE_LIMIT, r.diff.added + r.diff.modified + r.diff.removed)
  {
    var prev, cur := IndexOfSaved(saved), VisibleFiles(kids, excludes);
    DiffCounts(r.diff, prev, cur, SAMPLE_LIMIT);
  }

  /** A scan that finds no signature reports no change; it counts every file as new if it finds no
      index either. */
  lemma FirstScanQuiet(hash: string -> string, saved: Saved, kids: Kids<FileMeta>, excludes: seq<string>, r: Result)
    requires IsReport(hash, saved, kids, excludes, r) && SigOf(saved) == ""
    ensures !r.changed && r.prevMainSig == ""
    ensures saved.index.Missing? ==>
              r.diff.added == |VisibleFiles(kids, excludes)| && r.diff.modified == r.diff.removed == 0
  {
    var cur := VisibleFiles(kids, excludes);
    if saved.index.Missing? {
      var none: Files := map[];
      assert cur.Keys - none.Keys == cur.Keys && none.Keys - cur.Keys == {};
      assert |cur.Keys| == |cur| && Altered(none, cur) == {};
    }
  }

  /** Scanning an unchanged tree again never reports a change, but it counts a difference
      whenever a visible path is not plain. */
  lemma UnchangedTreeCounts(hash: string -> string, s0: Saved, s1: Saved, kids: Kids<FileMeta>, excludes: seq<string>,
                            r1: Result, r2: Result)
    requires IsRun(hash, s0, kids, excludes, r1, s1) && IsReport(hash, s1, kids, excludes, r2)
    requires Legible(kids, excludes)
    requires GoodHash(hash, ScanText(kids, excludes), ScanText(kids, excludes))
    ensures !r2.changed
    ensures r2.diff.added + r2.diff.modified + r2.diff.removed == 0 <==> AllPlain(VisibleFiles(kids, excludes))
  {
    SavedIndexReadsBack(kids, excludes);
    ReportCounts(hash, s1, kids, excludes, r2);
  }
}
