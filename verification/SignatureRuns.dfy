/** Runs of calls that compare a signature with a stored one and replace it. */
module SignatureRuns {
  import opened Lists
  import opened IndexText

  /** What a call does to the stored signature: nothing, or it takes one and leaves a file. */
  datatype Attempt = Idle | Taken(sig: string, file: Stored)

  /** The stored signature after one attempt. */
  function Left(a: Attempt, stored: Stored): Stored {
    if a.Taken? then a.file else stored
  }

  /** The stored signature after a sequence of calls. */
  ghost function After<C>(f: C -> Attempt, stored: Stored, calls: seq<C>): Stored {
    if calls == [] then stored
    else Left(f(calls[|calls| - 1]), After(f, stored, calls[..|calls| - 1]))
  }

  /** A call that takes signature `sig` finds another one stored. */
  predicate Differs(stored: Stored, sig: string) {
    ReadText(stored) != "" && ReadText(stored) != sig
  }

  /** Call `i` of a run reports a change. */
  ghost predicate Reports<C>(f: C -> Attempt, stored: Stored, calls: seq<C>, i: nat)
    requires i < |calls|
  {
    f(calls[i]).Taken? && Differs(After(f, stored, calls[..i]), f(calls[i]).sig)
  }

  /** The file that is left reads as the signature taken. */
  predicate Saves(a: Attempt) {
    a.Taken? && ReadText(a.file) == a.sig != ""
  }

  lemma AfterSnoc<C>(f: C -> Attempt, stored: Stored, calls: seq<C>, call: C)
    ensures After(f, stored, calls + [call]) == Left(f(call), After(f, stored, calls))
  {
    assert (calls + [call])[..|calls|] == calls;
  }

  /** Stored signatures that follow each other call by call are those after each call. */
  lemma {:induction false} StatesFollow<C>(f: C -> Attempt, states: seq<Stored>, calls: seq<C>, n: nat)
    requires |states| == |calls| + 1 && n <= |calls|
    requires forall i :: 0 <= i < |calls| ==> states[i + 1] == Left(f(calls[i]), states[i])
    ensures states[n] == After(f, states[0], calls[..n])
  {
    if n == 0 {
    } else {
      StatesFollow(f, states, calls, n - 1);
      OneMore(calls, n - 1);
      AfterSnoc(f, states[0], calls[..n - 1], calls[n - 1]);
      assert states[n - 1 + 1] == Left(f(calls[n - 1]), states[n - 1]);
    }
  }

  lemma {:induction false} IdleKeeps<C>(f: C -> Attempt, stored: Stored, before: seq<C>, idle: seq<C>)
    requires forall c :: c in idle ==> f(c).Idle?
    ensures After(f, stored, before + idle) == After(f, stored, before)
  {
    if idle == [] {
      assert before + idle == before;
    } else {
      var init := idle[..|idle| - 1];
      IdleKeeps(f, stored, before, init);
      assert (before + idle)[..|before + idle| - 1] == before + init;
      assert idle[|idle| - 1] in idle;
    }
  }

  /** What a call compares with after a call that saved its signature and idle calls. */
  lemma ComparesWithLast<C>(f: C -> Attempt, stored: Stored, before: seq<C>, a: C, idle: seq<C>)
    requires Saves(f(a)) && forall c :: c in idle ==> f(c).Idle?
    ensures ReadText(After(f, stored, before + [a] + idle)) == f(a).sig
  {
    IdleKeeps(f, stored, before + [a], idle);
    AfterSnoc(f, stored, before, a);
  }

  /** The calls up to some call `i` leave the signature of the first call, and call `i`, if there
      is one, leaves another. */
  lemma {:induction false} KeptUntil<C>(f: C -> Attempt, stored: Stored, calls: seq<C>) returns (i: nat)
    requires calls != [] && Saves(f(calls[0]))
    ensures 0 < i <= |calls| && ReadText(After(f, stored, calls[..i])) == f(calls[0]).sig
    ensures i < |calls| ==> f(calls[i]).Taken? && ReadText(f(calls[i]).file) != f(calls[0]).sig
  {
    var n := |calls| - 1;
    if n == 0 {
      i := 1;
      assert calls[..1] == calls;
    } else {
      var last := f(calls[n]);
      i := KeptUntil(f, stored, calls[..n]);
      assert calls[..n][..i] == calls[..i];
      if i == n && !(last.Taken? && ReadText(last.file) != f(calls[0]).sig) {
        i := n + 1;
        assert calls[..i] == calls && calls[..i][..n] == calls[..n];
      }
    }
  }

  /** If the first and the last call of a run take different signatures, some call after the
      first still finds that of the first, and is the last call or leaves another. */
  lemma FirstChange<C>(f: C -> Attempt, stored: Stored, calls: seq<C>) returns (i: nat)
    requires calls != [] && Saves(f(calls[0]))
    requires f(calls[|calls| - 1]).Taken? && f(calls[|calls| - 1]).sig != f(calls[0]).sig
    ensures 0 < i < |calls| && f(calls[i]).Taken?
    ensures ReadText(After(f, stored, calls[..i])) == f(calls[0]).sig
    ensures i == |calls| - 1 || ReadText(f(calls[i]).file) != f(calls[0]).sig
  {
    var n := |calls| - 1;
    i := KeptUntil(f, stored, calls[..n]);
    assert calls[..n][..i] == calls[..i];
  }

  /** If every call that takes a signature saves it, that call reports a change. */
  lemma SomeCallReports<C>(f: C -> Attempt, stored: Stored, calls: seq<C>)
    requires calls != [] && Saves(f(calls[0])) && forall c :: c in calls && f(c).Taken? ==> Saves(f(c))
    requires f(calls[|calls| - 1]).Taken? && f(calls[|calls| - 1]).sig != f(calls[0]).sig
    ensures exists i :: 0 < i < |calls| && Reports(f, stored, calls, i)
  {
    var i := FirstChange(f, stored, calls);
    assert calls[i] in calls;
    assert Reports(f, stored, calls, i);
  }
}
