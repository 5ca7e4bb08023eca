/** Runs of the preflight scan in which saves fail: which failures are harmless for later scans,
    and what becomes of a change. */
module PreflightFailures {
  import opened Trees
  import opened IndexText
  import opened TextDecoding
  import opened SignatureRuns
  import opened Preflight
  import opened PreflightRuns

  datatype Call = Call(kids: Kids<FileMeta>, excludes: seq<string>, fate: Fate)

  ghost predicate Answers(hash: string -> string, saved: Saved, c: Call, a: Answer, saved': Saved) {
    IsCall(hash, saved, c.kids, c.excludes, c.fate, a, saved')
  }

  ghost predicate Fine(c: Call) {
    Carried(c.kids, c.excludes)
  }

  ghost function TextOf(c: Call): string {
    ScanText(c.kids, c.excludes)
  }

  ghost function FilesSeen(c: Call): Files {
    VisibleFiles(c.kids, c.excludes)
  }

  ghost predicate Finds(hash: string -> string, saved: Saved, c: Call) {
    ChangedNow(hash, saved, c.kids, c.excludes)
  }

  // ---------------------------------------------------------------- what one call means

  /** The signature file after a call. */
  ghost function SigFile(hash: string -> string, sig: Stored, c: Call): Stored {
    match c.fate
    case BuildFails => sig
    case SigSaveFails(left) => left
    case IndexSaveFails(_) => Stored(hash(TextOf(c)) + "\n")
    case Completes => Stored(hash(TextOf(c)) + "\n")
  }

  predicate ReportsChange(a: Answer) {
    !a.BuildFailed? && a.result.changed
  }

  predicate SetsHint(a: Answer) {
    !a.BuildFailed? && a.result.pendingMaybeSet
  }

  /** What a call does to the saved signature, and what it says. */
  ghost predicate Follows(hash: string -> string, saved: Saved, c: Call, a: Answer, saved': Saved) {
    && (a.BuildFailed? <==> c.fate.BuildFails?) && (a.Scanned? <==> c.fate.Completes?)
    && (ReportsChange(a) <==> !c.fate.BuildFails? && Finds(hash, saved, c))
    && (SetsHint(a) <==> ReportsChange(a) && c.fate.Completes?)
    && saved'.sig == SigFile(hash, saved.sig, c)
  }

  lemma CallFollows(hash: string -> string, saved: Saved, c: Call, a: Answer, saved': Saved)
    requires Answers(hash, saved, c, a, saved')
    ensures Follows(hash, saved, c, a, saved')
  {
  }

  lemma SignatureReadsBack(hash: string -> string, c: Call)
    requires PrintsHex(hash)
    ensures ReadText(Stored(hash(TextOf(c)) + "\n")) == hash(TextOf(c)) != ""
  {
    assert HexText(hash(TextOf(c)));
    HexReadsBack(hash(TextOf(c)));
  }

  lemma SameTextSameSeen(a: Call, b: Call)
    requires Fine(a) && Fine(b)
    ensures TextOf(a) == TextOf(b) <==> FilesSeen(a) == FilesSeen(b)
  {
    SameTextSameFiles(a.kids, a.excludes, b.kids, b.excludes);
  }

  // ---------------------------------------------------------------- when a failure is harmless

  /** Whatever a later call finds, it reports a change exactly when that is not what `first` saw. */
  ghost predicate Compares(hash: string -> string, saved: Saved, first: Call) {
    forall c | Fine(c) && NoCollision(hash, {TextOf(first), TextOf(c)}) ::
      Finds(hash, saved, c) <==> FilesSeen(c) != FilesSeen(first)
  }

  const NO_FILE := Call(Nil, [], Completes)
  const EMPTY := FileMeta(0, 0)
  const ONE_FILE := Call(Cons("f", Leaf(EMPTY), Nil), [], Completes)

  lemma NoFileTree()
    ensures Fine(NO_FILE) && FilesSeen(NO_FILE) == map[]
  {
  }

  lemma OneFileTree()
    ensures Fine(ONE_FILE) && FilesSeen(ONE_FILE) == map["f" := EMPTY]
  {
    var e := Entry("f", Leaf(EMPTY));
    assert Flatten("", NO_FILE.kids) == [];
    assert Flatten("", ONE_FILE.kids) == [e];
    assert VisibleEntries(ONE_FILE.kids, []) == [e];
    ListingOne(e);
    assert |LineOf("f", EMPTY)| == 5 by {
      assert LineOf("f", EMPTY) == "f|0|0";
    }
  }

  lemma SomeTreeDiffers(first: Call) returns (c: Call)
    ensures c in {NO_FILE, ONE_FILE} && Fine(c) && FilesSeen(c) != FilesSeen(first)
  {
    NoFileTree();
    OneFileTree();
    assert "f" !in FilesSeen(NO_FILE) && "f" in FilesSeen(ONE_FILE);
    c := if FilesSeen(NO_FILE) != FilesSeen(first) then NO_FILE else ONE_FILE;
  }

  /** The texts on which the hash must not collide. */
  ghost function Texts(first: Call, c: Call): set<string> {
    {TextOf(first), TextOf(c), TextOf(NO_FILE), TextOf(ONE_FILE)}
  }

  lemma OwnSignatureCompares(hash: string -> string, saved: Saved, first: Call)
    requires Fine(first) && SigOf(saved) == hash(TextOf(first)) != ""
    ensures Compares(hash, saved, first)
  {
    forall c | Fine(c) && NoCollision(hash, {TextOf(first), TextOf(c)})
      ensures Finds(hash, saved, c) <==> FilesSeen(c) != FilesSeen(first)
    {
      SameTextSameSeen(first, c);
    }
  }

  lemma OthersDoNotCompare(hash: string -> string, saved: Saved, first: Call, c: Call)
    requires Fine(first) && Fine(c) && NoCollision(hash, {TextOf(first), TextOf(c)})
    requires FilesSeen(c) != FilesSeen(first) && SigOf(saved) != hash(TextOf(first))
    ensures !Compares(hash, saved, first)
  {
    if !Finds(hash, saved, first) {
      assert !Finds(hash, saved, c);
    }
  }

  /** Later calls compare with `first` exactly when its signature is the one saved. */
  lemma ComparesExactly(hash: string -> string, saved: Saved, first: Call)
    requires Fine(first) && hash(TextOf(first)) != "" && NoCollision(hash, Texts(first, first))
    ensures Compares(hash, saved, first) <==> SigOf(saved) == hash(TextOf(first))
  {
    if SigOf(saved) == hash(TextOf(first)) {
      OwnSignatureCompares(hash, saved, first);
    } else {
      var c := SomeTreeDiffers(first);
      assert TextOf(c) in Texts(first, first);
      OthersDoNotCompare(hash, saved, first, c);
    }
  }

  lemma SigFileReads(hash: string -> string, first: Call, c: Call)
    requires PrintsHex(hash)
    ensures hash(TextOf(first)) != ""
    ensures ReadText(SigFile(hash, Stored(hash(TextOf(first)) + "\n"), c)) ==
            match c.fate
            case BuildFails => hash(TextOf(first))
            case SigSaveFails(left) => ReadText(left)
            case IndexSaveFails(_) => hash(TextOf(c))
            case Completes => hash(TextOf(c))
  {
    SignatureReadsBack(hash, first);
    SignatureReadsBack(hash, c);
  }

  lemma ComparesAfterFate(hash: string -> string, saved: Saved, first: Call, c: Call)
    requires Fine(first) && Fine(c) && PrintsHex(hash) && NoCollision(hash, Texts(first, c))
    requires saved.sig == SigFile(hash, Stored(hash(TextOf(first)) + "\n"), c)
    ensures Compares(hash, saved, first) <==>
            match c.fate
            case BuildFails => true
            case SigSaveFails(left) => ReadText(left) == hash(TextOf(first))
            case IndexSaveFails(_) => FilesSeen(c) == FilesSeen(first)
            case Completes => FilesSeen(c) == FilesSeen(first)
  {
    SigFileReads(hash, first, c);
    ComparesExactly(hash, saved, first);
    SameTextSameSeen(first, c);
  }

  /** After a completed call and another one, later calls still compare with the first exactly if
      the second left its signature: it built no index, or its failed save left a text that
      reads as the old signature, or it saw the same files. */
  lemma ComparesAfterCall(hash: string -> string, s0: Saved, s1: Saved, s2: Saved, first: Call, a1: Answer, c: Call,
                          a2: Answer)
    requires Answers(hash, s0, first, a1, s1) && Answers(hash, s1, c, a2, s2) && first.fate.Completes?
    requires Fine(first) && Fine(c) && PrintsHex(hash) && NoCollision(hash, Texts(first, c))
    ensures Compares(hash, s2, first) <==>
            match c.fate
            case BuildFails => true
            case SigSaveFails(left) => ReadText(left) == hash(TextOf(first))
            case IndexSaveFails(_) => FilesSeen(c) == FilesSeen(first)
            case Completes => FilesSeen(c) == FilesSeen(first)
  {
    CallFollows(hash, s0, first, a1, s1);
    CallFollows(hash, s1, c, a2, s2);
    ComparesAfterFate(hash, s2, first, c);
  }

  /** A failed index save: the change is in the answer that carries the error, without the
      pending hint. A call on the same tree after it reports none and sets no hint; it counts
      the difference to the index that was left. */
  lemma FailedIndexSaveHidesChange(hash: string -> string, s0: Saved, s1: Saved, s2: Saved, c: Call, a: Answer,
                                   c': Call, a': Answer)
    requires Answers(hash, s0, c, a, s1) && Answers(hash, s1, c', a', s2) && PrintsHex(hash)
    requires c.fate.IndexSaveFails? && !c'.fate.BuildFails? && TextOf(c') == TextOf(c)
    ensures a.SaveFailed? && a.result.changed == Finds(hash, s0, c) && !a.result.pendingMaybeSet
    ensures !a'.BuildFailed? && !a'.result.changed && !a'.result.pendingMaybeSet
    ensures var d := a'.result.diff;
            d.added + d.modified + d.removed == 0
            <==> (if c.fate.left.Stored? then Load(c.fate.left.text) else map[]) == FilesSeen(c')
  {
    SignatureReadsBack(hash, c);
    CallFollows(hash, s1, c', a', s2);
    ReportCounts(hash, s1, c'.kids, c'.excludes, a'.result);
  }

  // ---------------------------------------------------------------- runs

  /** The states before and after each call, and the answers. */
  ghost predicate IsHistory(hash: string -> string, states: seq<Saved>, calls: seq<Call>, answers: seq<Answer>) {
    && |states| == |calls| + 1 && |answers| == |calls|
    && forall i :: 0 <= i < |calls| ==> Answers(hash, states[i], calls[i], answers[i], states[i + 1])
  }

  ghost predicate Followed(hash: string -> string, states: seq<Saved>, calls: seq<Call>, answers: seq<Answer>) {
    && |states| == |calls| + 1 && |answers| == |calls|
    && forall i :: 0 <= i < |calls| ==> Follows(hash, states[i], calls[i], answers[i], states[i + 1])
  }

  lemma HistoryFollowed(hash: string -> string, states: seq<Saved>, calls: seq<Call>, answers: seq<Answer>)
    requires IsHistory(hash, states, calls, answers)
    ensures Followed(hash, states, calls, answers)
  {
    forall i | 0 <= i < |calls|
      ensures Follows(hash, states[i], calls[i], answers[i], states[i + 1])
    {
      CallFollows(hash, states[i], calls[i], answers[i], states[i + 1]);
    }
  }

  ghost function Taking(hash: string -> string): Call -> Attempt {
    (c: Call) => if c.fate.BuildFails? then Idle else Taken(hash(TextOf(c)), SigFile(hash, Missing, c))
  }

  lemma TakingLeaves(hash: string -> string, sig: Stored, c: Call)
    ensures SigFile(hash, sig, c) == Left(Taking(hash)(c), sig)
  {
  }

  lemma SignatureInHistory(hash: string -> string, states: seq<Saved>, calls: seq<Call>, answers: seq<Answer>, n: nat)
    requires Followed(hash, states, calls, answers) && n <= |calls|
    ensures states[n].sig == After(Taking(hash), states[0].sig, calls[..n])
  {
    var sigs := seq(|states|, i requires 0 <= i < |states| => states[i].sig);
    forall i | 0 <= i < |calls|
      ensures sigs[i + 1] == Left(Taking(hash)(calls[i]), sigs[i])
    {
      TakingLeaves(hash, states[i].sig, calls[i]);
      assert Follows(hash, states[i], calls[i], answers[i], states[i + 1]);
    }
    StatesFollow(Taking(hash), sigs, calls, n);
  }

  /** If the first call saved its signature and the last one took another, some call after the
      first finds that signature and differs from it, or spoils it. */
  lemma ChangeMet(hash: string -> string, states: seq<Saved>, calls: seq<Call>, answers: seq<Answer>) returns (i: nat)
    requires Followed(hash, states, calls, answers) && calls != [] && PrintsHex(hash)
    requires calls[0].fate.Completes? || calls[0].fate.IndexSaveFails?
    requires !calls[|calls| - 1].fate.BuildFails? && hash(TextOf(calls[0])) != hash(TextOf(calls[|calls| - 1]))
    ensures 0 < i < |calls| && !calls[i].fate.BuildFails? && SigOf(states[i]) != ""
    ensures i == |calls| - 1 ==> SigOf(states[i]) != hash(TextOf(calls[i]))
    ensures i < |calls| - 1 ==> SigOf(states[i + 1]) != SigOf(states[i])
  {
    SignatureReadsBack(hash, calls[0]);
    i := FirstChange(Taking(hash), states[0].sig, calls);
    SignatureInHistory(hash, states, calls, answers, i);
    assert Follows(hash, states[i], calls[i], answers[i], states[i + 1]);
  }

  /** Two calls that saw different files. */
  ghost predicate SawOthers(hash: string -> string, a: Call, b: Call) {
    Fine(a) && Fine(b) && NoCollision(hash, {TextOf(a), TextOf(b)}) && FilesSeen(a) != FilesSeen(b)
  }

  /** No change is lost in silence: some answer after the first reports a change, if no failed
      save left a text that reads neither as the old signature nor as the new one. */
  lemma NoChangeLost(hash: string -> string, states: seq<Saved>, calls: seq<Call>, answers: seq<Answer>)
    requires IsHistory(hash, states, calls, answers) && calls != [] && PrintsHex(hash)
    requires calls[0].fate.Completes? || calls[0].fate.IndexSaveFails?
    requires !calls[|calls| - 1].fate.BuildFails? && SawOthers(hash, calls[0], calls[|calls| - 1])
    requires forall i :: 0 <= i < |calls| && calls[i].fate.SigSaveFails? ==>
               SigOf(states[i + 1]) in {SigOf(states[i]), hash(TextOf(calls[i]))}
    ensures exists i :: 0 < i < |calls| && ReportsChange(answers[i])
  {
    HistoryFollowed(hash, states, calls, answers);
    SameTextSameSeen(calls[0], calls[|calls| - 1]);
    var i := ChangeMet(hash, states, calls, answers);
    SignatureReadsBack(hash, calls[i]);
    assert Follows(hash, states[i], calls[i], answers[i], states[i + 1]);
    assert ReportsChange(answers[i]);
  }

  /** A change loses its pending hint only where a failed save replaces the signature: if the
      last call completes, some call after the first sets the hint or does that. */
  lemma HintLostOnlyByFailedSave(hash: string -> string, states: seq<Saved>, calls: seq<Call>, answers: seq<Answer>)
    requires IsHistory(hash, states, calls, answers) && calls != [] && PrintsHex(hash)
    requires calls[0].fate.Completes? || calls[0].fate.IndexSaveFails?
    requires calls[|calls| - 1].fate.Completes? && SawOthers(hash, calls[0], calls[|calls| - 1])
    ensures exists i :: 0 < i < |calls| &&
              (SetsHint(answers[i]) || (answers[i].SaveFailed? && SigOf(states[i + 1]) != SigOf(states[i])))
  {
    HistoryFollowed(hash, states, calls, answers);
    SameTextSameSeen(calls[0], calls[|calls| - 1]);
    var i := ChangeMet(hash, states, calls, answers);
    SignatureReadsBack(hash, calls[i]);
    assert Follows(hash, states[i], calls[i], answers[i], states[i + 1]);
    assert SetsHint(answers[i]) || (answers[i].SaveFailed? && SigOf(states[i + 1]) != SigOf(states[i]));
  }
}
