/** Runs of the metadata scan: the pending mark follows the visible files across calls that fail. */
module MetadataRuns {
  import opened IndexText
  import opened TextDecoding
  import opened SignatureRuns
  import opened MetadataScan

  datatype Call = Call(req: Request, tree: Tree)

  /** The stored signatures before and after each call, and the replies. */
  ghost predicate IsHistory(hash: string -> string, states: seq<Stored>, calls: seq<Call>, replies: seq<Reply>) {
    && |states| == |calls| + 1 && |replies| == |calls|
    && forall i :: 0 <= i < |calls| ==>
         IsCall(hash, states[i], calls[i].req, calls[i].tree, replies[i], states[i + 1])
  }

  ghost predicate Completes(c: Call) {
    Complete(c.req) && c.tree.Readable?
  }

  ghost function TextOf(c: Call): string
    requires Completes(c)
  {
    TreeText(c.tree.kids, c.req.excludes)
  }

  /** No file was added, removed or altered between two calls. */
  ghost predicate Alike(a: Call, b: Call)
    requires Completes(a) && Completes(b)
  {
    SeeAlike(a.tree, a.req, b.tree, b.req)
  }

  /** Two calls on trees whose texts are decodable and do not collide. */
  ghost predicate Comparable(hash: string -> string, a: Call, b: Call) {
    && Completes(a) && Completes(b) && Clean(a.tree, a.req.excludes) && Clean(b.tree, b.req.excludes)
    && NoCollision(hash, {TextOf(a), TextOf(b)})
  }

  lemma {:induction false} FailuresKeep(hash: string -> string, states: seq<Stored>, calls: seq<Call>,
                                        replies: seq<Reply>, i: nat, j: nat)
    requires IsHistory(hash, states, calls, replies) && i <= j <= |calls|
    requires forall k :: i <= k < j ==> !Completes(calls[k])
    ensures states[j] == states[i]
    decreases j
  {
    if i == j {
    } else {
      FailuresKeep(hash, states, calls, replies, i, j - 1);
      assert IsCall(hash, states[j - 1], calls[j - 1].req, calls[j - 1].tree, replies[j - 1], states[j]);
    }
  }

  /** A completed call asks for a pending mark, and reports a change, exactly when the visible
      files differ from those of the last completed call before it, whatever calls were refused
      or failed in between. */
  lemma LaterCallCompares(hash: string -> string, states: seq<Stored>, calls: seq<Call>, replies: seq<Reply>, i: nat,
                          j: nat)
    requires IsHistory(hash, states, calls, replies) && i < j < |calls| && PrintsHex(hash)
    requires Comparable(hash, calls[i], calls[j]) && forall k :: i < k < j ==> !Completes(calls[k])
    ensures replies[j].Done?
    ensures replies[j].pendingMaybeSet <==> !Alike(calls[i], calls[j])
    ensures replies[j].changed <==> replies[j].pendingMaybeSet
  {
    FailuresKeep(hash, states, calls, replies, i + 1, j);
    PendingExactly(hash, states[i], states[i + 1], states[j + 1], calls[i].req, calls[i].tree, replies[i],
                   calls[j].req, calls[j].tree, replies[j]);
  }

  /** What a call does to the stored signature. */
  ghost function Taking(hash: string -> string): Call -> Attempt {
    (c: Call) => if Completes(c) then Taken(hash(TextOf(c)), Stored(hash(TextOf(c)) + "\n")) else Idle
  }

  lemma CallSaves(hash: string -> string, c: Call)
    requires PrintsHex(hash) && Completes(c)
    ensures Saves(Taking(hash)(c))
  {
    assert HexText(hash(TextOf(c)));
    HexReadsBack(hash(TextOf(c)));
  }

  lemma DoneExactly(hash: string -> string, stored: Stored, c: Call, r: Reply, stored': Stored)
    requires IsCall(hash, stored, c.req, c.tree, r, stored')
    ensures r.Done? <==> Completes(c)
  {
  }

  lemma CallLeaves(hash: string -> string, stored: Stored, c: Call, r: Reply, stored': Stored)
    requires IsCall(hash, stored, c.req, c.tree, r, stored')
    ensures stored' == Left(Taking(hash)(c), stored)
  {
    DoneExactly(hash, stored, c, r, stored');
    if Completes(c) {
      assert r.mainSig == hash(TextOf(c));
    }
  }

  lemma SignatureInHistory(hash: string -> string, states: seq<Stored>, calls: seq<Call>, replies: seq<Reply>, n: nat)
    requires IsHistory(hash, states, calls, replies) && n <= |calls|
    ensures states[n] == After(Taking(hash), states[0], calls[..n])
  {
    forall i | 0 <= i < |calls|
      ensures states[i + 1] == Left(Taking(hash)(calls[i]), states[i])
    {
      CallLeaves(hash, states[i], calls[i], replies[i], states[i + 1]);
    }
    StatesFollow(Taking(hash), states, calls, n);
  }

  /** No change is lost: if the first and the last call of a run complete and see different
      files, some call after the first asks for a pending mark. */
  lemma NoChangeLost(hash: string -> string, states: seq<Stored>, calls: seq<Call>, replies: seq<Reply>)
    requires IsHistory(hash, states, calls, replies) && calls != [] && PrintsHex(hash)
    requires Comparable(hash, calls[0], calls[|calls| - 1])
    requires !Alike(calls[0], calls[|calls| - 1])
    ensures exists i :: 0 < i < |calls| && replies[i].Done? && replies[i].pendingMaybeSet
  {
    var first, last := calls[0], calls[|calls| - 1];
    forall c | Completes(c)
      ensures Saves(Taking(hash)(c))
    {
      CallSaves(hash, c);
    }
    TextTellsFiles(hash, first, last);
    SomeCallReports(Taking(hash), states[0], calls);
    var i :| 0 < i < |calls| && Reports(Taking(hash), states[0], calls, i);
    SignatureInHistory(hash, states, calls, replies, i);
    assert IsCall(hash, states[i], calls[i].req, calls[i].tree, replies[i], states[i + 1]);
    assert replies[i].Done? && replies[i].pendingMaybeSet;
  }

  lemma TextTellsFiles(hash: string -> string, a: Call, b: Call)
    requires Comparable(hash, a, b)
    ensures hash(TextOf(a)) == hash(TextOf(b)) <==> Alike(a, b)
  {
    VisibleDistinct(a.tree.kids, a.req.excludes);
    VisibleDistinct(b.tree.kids, b.req.excludes);
    SameTextSameFiles(VisibleFiles(a.tree.kids, a.req.excludes), VisibleFiles(b.tree.kids, b.req.excludes));
    SeenAlike(a.tree, a.req, b.tree, b.req);
  }
}
