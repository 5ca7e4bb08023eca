/** The two prefix rules that decide whether a scan skips a path. */
module Excludes {
  import opened Strings
  import opened Trees

  /** `rel` is `prefix` or lies below it. */
  predicate Under(prefix: string, rel: string) {
    rel == prefix || HasPrefix(rel, prefix + "/")
  }

  function StripLead(s: string): string {
    TrimPrefix(TrimPrefix(s, "./"), "/")
  }

  /** The path an exclusion names, without a final slash or wildcard. */
  function ExcludedPath(ex: string): string {
    TrimSuffix(TrimSuffix(StripLead(TrimSpace(ex)), "/"), "/**")
  }

  /** The rule of the preflight scan. */
  ghost predicate Skips(excludes: seq<string>, rel: string) {
    exists ex :: ex in excludes && TrimSpace(ex) != "" && Under(ExcludedPath(ex), StripLead(rel))
  }

  ghost function PreflightRule(excludes: seq<string>): string -> bool {
    (p: string) => Skips(excludes, p)
  }

  /** The body of the loop: one exclusion. */
  method SkippedBy(exclude: string, path: string) returns (hit: bool)
    ensures hit <==> TrimSpace(exclude) != "" && Under(ExcludedPath(exclude), path)
  {
    var ex := TrimSpace(exclude);
    if ex == "" {
      return false;
    }
    ex := TrimPrefix(ex, "./");
    ex := TrimPrefix(ex, "/");
    ex := TrimSuffix(ex, "/");
    if HasSuffix(ex, "/**") {
      var prefix := TrimSuffix(ex, "/**");
      return path == prefix || HasPrefix(path, prefix + "/");
    }
    hit := path == ex || HasPrefix(path, ex + "/");
  }

  method ShouldSkip(rel: string, excludes: seq<string>) returns (skip: bool)
    ensures skip <==> Skips(excludes, rel)
  {
    var path := TrimPrefix(TrimPrefix(rel, "./"), "/");
    var i := 0;
    while i < |excludes|
      invariant 0 <= i <= |excludes|
      invariant forall j :: 0 <= j < i ==> TrimSpace(excludes[j]) == "" || !Under(ExcludedPath(excludes[j]), path)
    {
      var hit := SkippedBy(excludes[i], path);
      if hit {
        assert excludes[i] in excludes;
        return true;
      }
      i := i + 1;
    }
    skip := false;
  }

  lemma UnderClosed(prefix: string, rel: string, i: nat)
    requires i < |rel| && rel[i] == '/' && Under(prefix, rel[..i])
    ensures Under(prefix, rel)
  {
    if rel[..i] == prefix {
      assert rel[..i + 1] == prefix + "/";
    } else {
      assert rel[..i][..|prefix| + 1] == rel[..|prefix| + 1];
    }
  }

  lemma ProperUnstripped(rel: string, i: nat)
    requires ProperPath(rel) && 0 < i <= |rel| && (i < |rel| ==> rel[i] == '/')
    ensures StripLead(rel[..i]) == rel[..i]
  {
    assert rel[..i][0] == rel[0];
  }

  /** A list of exclusions skips what one of them skips. */
  lemma SkipsEach(excludes: seq<string>, rel: string)
    ensures Skips(excludes, rel) <==> exists ex :: ex in excludes && Skips([ex], rel)
    ensures PrefixSkips(excludes, rel) <==> exists ex :: ex in excludes && PrefixSkips([ex], rel)
  {
    forall ex
      ensures Skips([ex], rel) <==> TrimSpace(ex) != "" && Under(ExcludedPath(ex), StripLead(rel))
      ensures PrefixSkips([ex], rel) <==> TrimSpace(ex) != "" && PrefixRule(TrimSpace(ex), rel)
    {
      assert ex in [ex];
    }
  }

  /** Lists put together skip what either skips. */
  lemma SkipsConcat(a: seq<string>, b: seq<string>, rel: string)
    ensures Skips(a + b, rel) <==> Skips(a, rel) || Skips(b, rel)
    ensures PrefixSkips(a + b, rel) <==> PrefixSkips(a, rel) || PrefixSkips(b, rel)
  {
    assert forall ex :: ex in a + b <==> ex in a || ex in b;
    SkipsEach(a + b, rel);
    SkipsEach(a, rel);
    SkipsEach(b, rel);
  }

  /** Whatever lies below a skipped path is skipped too. */
  lemma SkipsClosed(excludes: seq<string>, rel: string)
    requires ProperPath(rel)
    ensures ClosedOn(PreflightRule(excludes), rel)
  {
    forall i | 0 < i < |rel| && rel[i] == '/' && Skips(excludes, rel[..i])
      ensures Skips(excludes, rel)
    {
      var ex :| ex in excludes && TrimSpace(ex) != "" && Under(ExcludedPath(ex), StripLead(rel[..i]));
      ProperUnstripped(rel, i);
      ProperUnstripped(rel, |rel|);
      assert rel[..|rel|] == rel;
      UnderClosed(ExcludedPath(ex), rel, i);
    }
  }

  /** The preflight walk lists exactly the paths that are not skipped. */
  lemma PreflightWalkIsFilter<M>(excludes: seq<string>, kids: Kids<M>)
    requires Proper(kids)
    ensures Walk(PreflightRule(excludes), "", kids) == NotSkipped(PreflightRule(excludes), Flatten("", kids))
  {
    forall rel | ProperPath(rel)
      ensures ClosedOn(PreflightRule(excludes), rel)
    {
      SkipsClosed(excludes, rel);
    }
    PrunedIsFiltered(PreflightRule(excludes), kids);
  }

  // ---------------------------------------------------------------- the rule of the diff scan

  /** The rule of the signature walk: plain exclusions are string prefixes. */
  ghost predicate PrefixSkips(excludes: seq<string>, rel: string) {
    exists ex :: ex in excludes && TrimSpace(ex) != "" && PrefixRule(TrimSpace(ex), rel)
  }

  ghost function SignatureRule(excludes: seq<string>): string -> bool {
    (p: string) => PrefixSkips(excludes, p)
  }

  predicate PrefixRule(ex: string, rel: string) {
    if HasSuffix(ex, "/**") then
      var p := TrimSuffix(ex, "/**");
      p != "" && Under(p, rel)
    else HasPrefix(rel, ex)
  }

  lemma PrefixSkipsClosed(excludes: seq<string>, rel: string)
    ensures ClosedOn(SignatureRule(excludes), rel)
  {
    forall i | 0 < i < |rel| && rel[i] == '/' && PrefixSkips(excludes, rel[..i])
      ensures PrefixSkips(excludes, rel)
    {
      var ex0 :| ex0 in excludes && TrimSpace(ex0) != "" && PrefixRule(TrimSpace(ex0), rel[..i]);
      var ex := TrimSpace(ex0);
      if HasSuffix(ex, "/**") {
        UnderClosed(TrimSuffix(ex, "/**"), rel, i);
      } else {
        assert rel[..i][..|ex|] == rel[..|ex|];
      }
    }
  }

  /** The signature walk visits exactly the paths that its rule does not skip. */
  lemma SignatureWalkIsFilter<M>(excludes: seq<string>, kids: Kids<M>)
    requires Proper(kids)
    ensures Walk(SignatureRule(excludes), "", kids)
         == NotSkipped(SignatureRule(excludes), Flatten("", kids))
  {
    forall rel | ProperPath(rel)
      ensures ClosedOn(SignatureRule(excludes), rel)
    {
      PrefixSkipsClosed(excludes, rel);
    }
    PrunedIsFiltered(SignatureRule(excludes), kids);
  }
}
