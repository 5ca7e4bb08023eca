/** Where the rules of the two scans agree on one and the same exclusion. */
module ExclusionRules {
  import opened Lists
  import opened Strings
  import opened Trees
  import opened Excludes

  // ---------------------------------------------------------------- paths of real trees

  /** File names joined by slashes. */
  predicate RealPath(rel: string) {
    var i := IndexOf(rel, '/');
    if i == |rel| then ProperName(rel) else ProperName(rel[..i]) && RealPath(rel[i + 1..])
  }

  /** File names, each followed by a slash, and any further characters but slashes: what a
      longer real path can begin with. */
  predicate Extendable(s: string) {
    var i := IndexOf(s, '/');
    i == |s| || (ProperName(s[..i]) && Extendable(s[i + 1..]))
  }

  lemma FirstSlash(a: string, b: string)
    requires '/' !in a
    ensures IndexOf(a + "/" + b, '/') == |a| && (a + "/" + b)[..|a|] == a && (a + "/" + b)[|a| + 1..] == b
  {
    var s := a + "/" + b;
    assert s[..|a|] == a;
    IndexOfAt(s, '/', |a|);
  }

  lemma JoinTwice(base: string, name: string, tail: string)
    requires name != ""
    ensures Join(Join(base, name), tail) == Join(base, name + "/" + tail)
  {
    if base != "" {
      assert base + "/" + name + "/" + tail == base + "/" + (name + "/" + tail);
    }
  }

  lemma {:induction false} JoinReal(base: string, name: string)
    requires RealPath(base) && ProperName(name)
    ensures RealPath(base + "/" + name)
  {
    var i := IndexOf(base, '/');
    if i == |base| {
      FirstSlash(base, name);
    } else {
      var first, tail := base[..i], base[i + 1..];
      JoinReal(tail, name);
      assert base == first + "/" + tail;
      JoinTwice(first, tail, name);
      FirstSlash(first, tail + "/" + name);
    }
  }

  lemma {:induction false} FlattenReal<M>(base: string, kids: Kids<M>)
    requires Proper(kids) && (base == "" || RealPath(base))
    ensures forall e :: e in Flatten(base, kids) ==> RealPath(e.rel)
    decreases kids
  {
    match kids
    case Nil =>
    case Cons(name, node, rest) =>
      if base != "" {
        JoinReal(base, name);
      }
      FlattenReal(base, rest);
      if node.Dir? {
        FlattenReal(Join(base, name), node.kids);
      }
  }

  /** A tree with nothing but one path. */
  function TreeOf(rel: string): Kids<()> {
    var i := IndexOf(rel, '/');
    if i == |rel| then Cons(rel, Leaf(()), Nil) else Cons(rel[..i], Dir("", TreeOf(rel[i + 1..])), Nil)
  }

  lemma OnlyDirectory<M>(base: string, name: string, kids: Kids<M>, e: Entry<M>)
    requires e in Flatten(Join(base, name), kids)
    ensures e in Flatten(base, Cons(name, Dir("", kids), Nil))
  {
  }

  lemma {:induction false} TreeOfHas(base: string, rel: string)
    requires RealPath(rel)
    ensures Proper(TreeOf(rel)) && exists e :: e in Flatten(base, TreeOf(rel)) && e.rel == Join(base, rel)
    decreases |rel|
  {
    var i := IndexOf(rel, '/');
    if i == |rel| {
      assert Flatten(base, TreeOf(rel))[0].rel == Join(base, rel);
    } else {
      var first, tail := rel[..i], rel[i + 1..];
      TreeOfHas(Join(base, first), tail);
      var e :| e in Flatten(Join(base, first), TreeOf(tail)) && e.rel == Join(Join(base, first), tail);
      JoinTwice(base, first, tail);
      assert rel == first + "/" + tail;
      OnlyDirectory(base, first, TreeOf(tail), e);
    }
  }

  /** These are exactly the paths that trees have. */
  lemma RealExactly(rel: string)
    ensures RealPath(rel) <==> exists kids: Kids<()>, e :: Proper(kids) && e in Flatten("", kids) && e.rel == rel
  {
    if RealPath(rel) {
      TreeOfHas("", rel);
    }
    forall kids: Kids<()>, e | Proper(kids) && e in Flatten("", kids)
      ensures RealPath(e.rel)
    {
      FlattenReal("", kids);
    }
  }

  // ---------------------------------------------------------------- beginnings of real paths

  lemma {:induction false} PrefixExtendable(s: string, t: string)
    requires s <= t && Extendable(t)
    ensures Extendable(s)
  {
    var i := IndexOf(s, '/');
    if i == |s| {
    } else {
      assert t[..i] == s[..i];
      IndexOfAt(t, '/', i);
      assert s[i + 1..] <= t[i + 1..];
      PrefixExtendable(s[i + 1..], t[i + 1..]);
    }
  }

  lemma {:induction false} RealExtendable(rel: string)
    ensures RealPath(rel) <==> Extendable(rel + "/")
  {
    var i := IndexOf(rel, '/');
    if i == |rel| {
      FirstSlash(rel, "");
      assert rel + "/" + "" == rel + "/";
    } else {
      RealExtendable(rel[i + 1..]);
      assert rel == rel[..i] + "/" + rel[i + 1..];
      assert rel + "/" == rel[..i] + "/" + (rel[i + 1..] + "/");
      FirstSlash(rel[..i], rel[i + 1..] + "/");
    }
  }

  lemma ProperLonger(s: string)
    requires '/' !in s
    ensures ProperName(s + "x") && IndexOf(s + "x", '/') == |s + "x"|
  {
    var t := s + "x";
    assert t[|t| - 1] == 'x';
    assert "."[0] != 'x' && ".."[1] != 'x';
    assert forall i :: 0 <= i < |t| ==> t[i] == if i < |s| then s[i] else 'x';
  }

  /** An extendable text goes on to a real path. */
  lemma {:induction false} ExtendedReal(s: string)
    requires Extendable(s)
    ensures RealPath(s + "x")
  {
    var i := IndexOf(s, '/');
    var t := s + "x";
    if i == |s| {
      ProperLonger(s);
    } else {
      ExtendedReal(s[i + 1..]);
      assert t[..i] == s[..i];
      IndexOfAt(t, '/', i);
      assert t[i + 1..] == s[i + 1..] + "x";
    }
  }

  lemma BeginsReal(s: string, rel: string)
    requires RealPath(rel) && s <= rel
    ensures Extendable(s)
  {
    RealExtendable(rel);
    PrefixExtendable(s, rel + "/");
  }

  lemma LeadNotExtendable(s: string)
    requires HasPrefix(s, "/") || HasPrefix(s, "./")
    ensures !Extendable(s)
  {
    if HasPrefix(s, "/") {
      assert IndexOf(s, '/') == 0;
    } else {
      assert s[0] == "./"[0] && s[1] == "./"[1];
      assert IndexOf(s, '/') == 1 && s[..1] == ".";
    }
  }

  lemma ExtendableUnstripped(s: string)
    requires Extendable(s)
    ensures StripLead(s) == s
  {
    if HasPrefix(s, "/") || HasPrefix(s, "./") {
      LeadNotExtendable(s);
    }
  }

  lemma RealUnstripped(rel: string)
    requires RealPath(rel)
    ensures StripLead(rel) == rel && rel != ""
  {
    RealExtendable(rel);
    PrefixExtendable(rel, rel + "/");
    ExtendableUnstripped(rel);
  }

  /** A real path lies under `p` only if `p` is a real path itself. */
  lemma UnderReal(p: string, rel: string)
    requires RealPath(rel) && Under(p, rel)
    ensures RealPath(p)
  {
    if rel != p {
      BeginsReal(p + "/", rel);
      RealExtendable(p);
    }
  }

  // ---------------------------------------------------------------- where the rules agree

  lemma OneExclusion(ex: string, rel: string)
    requires RealPath(rel)
    ensures Skips([ex], rel) <==> TrimSpace(ex) != "" && Under(ExcludedPath(ex), rel)
    ensures PrefixSkips([ex], rel) <==> TrimSpace(ex) != "" && PrefixRule(TrimSpace(ex), rel)
  {
    RealUnstripped(rel);
    assert ex in [ex];
  }

  lemma UnderIff(p: string, rel: string)
    ensures Under(p, rel) <==> p <= rel && (|p| == |rel| || rel[|p|] == '/')
  {
    if p <= rel && |p| < |rel| {
      assert rel[..|p| + 1] == p + [rel[|p|]];
    }
    if p + "/" <= rel {
      assert rel[|p|] == (p + "/")[|p|] && rel[..|p|] == (p + "/")[..|p|];
    }
  }

  lemma TrimSuffixShorter(s: string, p: string)
    requires p != ""
    ensures |TrimSuffix(s, p)| <= |s|
    ensures |TrimSuffix(s, p)| == |s| <==> !HasSuffix(s, p)
  {
  }

  lemma StripLeadShorter(s: string)
    ensures |StripLead(s)| <= |s|
    ensures |StripLead(s)| == |s| ==> StripLead(s) == s
  {
  }

  lemma PlainForm(ex: string)
    requires ExcludedPath(ex) == ex
    ensures TrimSpace(ex) == ex && !HasSuffix(ex, "/**")
  {
    var t := TrimSpace(ex);
    var u := StripLead(t);
    var v := TrimSuffix(u, "/");
    TrimSpaceShorter(ex);
    StripLeadShorter(t);
    TrimSuffixShorter(u, "/");
    TrimSuffixShorter(v, "/**");
  }

  /** On one path: an exclusion without decoration, such as `foo`, is read differently exactly on
      the paths that go on with something other than a slash, such as `foobar`. */
  lemma PlainAgreesExactly(ex: string, rel: string)
    requires ex != "" && ExcludedPath(ex) == ex && RealPath(rel)
    ensures (PrefixSkips([ex], rel) <==> Skips([ex], rel)) <==> !(ex <= rel && |ex| < |rel| && rel[|ex|] != '/')
  {
    PlainForm(ex);
    OneExclusion(ex, rel);
    UnderIff(ex, rel);
  }

  /** Some path lies under `p` in a tree exactly if `p` is such a path. */
  ghost predicate HidesBelow(p: string) {
    exists rel :: RealPath(rel) && Under(p, rel)
  }

  lemma HidesExactly(p: string)
    ensures HidesBelow(p) <==> RealPath(p)
  {
    if RealPath(p) {
      assert Under(p, p);
    }
    forall rel | RealPath(rel) && Under(p, rel)
      ensures RealPath(p)
    {
      UnderReal(p, rel);
    }
  }

  /** The two rules read an exclusion alike on every path of every tree. */
  ghost predicate Agree(ex: string) {
    forall rel :: RealPath(rel) ==> (PrefixSkips([ex], rel) <==> Skips([ex], rel))
  }

  lemma DecoratedUnreal(t: string)
    requires HasSuffix(t, "/**") && StripLead(t) != t
    ensures !RealPath(TrimSuffix(t, "/**"))
  {
    var q := TrimSuffix(t, "/**");
    if HasPrefix(q, "/") || HasPrefix(q, "./") {
      RealExtendable(q);
      LeadNotExtendable(q + "/");
    } else {
      assert q == t[..|q|];
      assert q == "" || q == ".";
    }
  }

  /** The exclusion hides nothing from the metadata scan: then it must hide nothing at all. */
  lemma UnlessPrefixHides(ex: string)
    requires TrimSpace(ex) != "" && forall rel :: RealPath(rel) ==> !PrefixRule(TrimSpace(ex), rel)
    ensures Agree(ex) <==> !RealPath(ExcludedPath(ex))
  {
    var p := ExcludedPath(ex);
    forall rel | RealPath(rel)
      ensures (PrefixSkips([ex], rel) <==> Skips([ex], rel)) <==> !Under(p, rel)
    {
      OneExclusion(ex, rel);
    }
    HidesExactly(p);
  }

  lemma SamePrefixAgrees(ex: string)
    requires TrimSpace(ex) != "" && HasSuffix(TrimSpace(ex), "/**")
    requires TrimSuffix(TrimSpace(ex), "/**") == ExcludedPath(ex)
    ensures Agree(ex)
  {
    forall rel | RealPath(rel)
      ensures PrefixSkips([ex], rel) <==> Skips([ex], rel)
    {
      OneExclusion(ex, rel);
      if Under(ExcludedPath(ex), rel) {
        UnderReal(ExcludedPath(ex), rel);
      }
    }
  }

  lemma WildcardAgrees(ex: string)
    requires HasSuffix(TrimSpace(ex), "/**")
    ensures Agree(ex) <==> TrimSuffix(TrimSpace(ex), "/**") == ExcludedPath(ex) || !RealPath(ExcludedPath(ex))
  {
    var t := TrimSpace(ex);
    var q := TrimSuffix(t, "/**");
    if q == ExcludedPath(ex) {
      SamePrefixAgrees(ex);
    } else {
      DecoratedUnreal(t);
      forall rel | RealPath(rel)
        ensures !PrefixRule(t, rel)
      {
        if Under(q, rel) {
          UnderReal(q, rel);
        }
      }
      UnlessPrefixHides(ex);
    }
  }

  lemma Disagree(ex: string, rel: string)
    requires RealPath(rel) && TrimSpace(ex) != "" && (PrefixRule(TrimSpace(ex), rel) <==> !Under(ExcludedPath(ex), rel))
    ensures !Agree(ex)
  {
    OneExclusion(ex, rel);
  }

  lemma BeforeSuffix(s: string, p: string, c: char)
    requires HasSuffix(s, [c] + p)
    ensures TrimSuffix(s, [c] + p) + [c] <= s
  {
    var n := |s| - |p| - 1;
    assert s[n] == s[n..][0] == c;
    OneMore(s, n);
  }

  /** Without a slash at its end, the path an exclusion names goes on with one. */
  lemma SlashFollows(u: string)
    requires HasSuffix(u, "/")
    ensures TrimSuffix(TrimSuffix(u, "/"), "/**") + "/" <= u
  {
    var v := TrimSuffix(u, "/");
    BeforeSuffix(u, "", '/');
    assert ['/'] + "" == "/" && ['/'] + "**" == "/**";
    if HasSuffix(v, "/**") {
      BeforeSuffix(v, "**", '/');
    }
  }

  /** `foo` hides `foox` from one scan only, `foo/` hides `foo` from the other only. */
  lemma ExtendableDisagrees(ex: string)
    requires TrimSpace(ex) != "" && !HasSuffix(TrimSpace(ex), "/**") && Extendable(TrimSpace(ex))
    ensures !Agree(ex)
  {
    var t, p := TrimSpace(ex), ExcludedPath(ex);
    ExtendableUnstripped(t);
    if HasSuffix(t, "/") {
      SlashFollows(t);
      PrefixExtendable(p + "/", t);
      RealExtendable(p);
      Disagree(ex, p);
    } else {
      assert p == t;
      ExtendedReal(t);
      UnderIff(t, t + "x");
      Disagree(ex, t + "x");
    }
  }

  lemma PlainAgrees(ex: string)
    requires TrimSpace(ex) != "" && !HasSuffix(TrimSpace(ex), "/**")
    ensures Agree(ex) <==> !Extendable(TrimSpace(ex)) && !RealPath(ExcludedPath(ex))
  {
    var t := TrimSpace(ex);
    if Extendable(t) {
      ExtendableDisagrees(ex);
    } else {
      forall rel | RealPath(rel)
        ensures !PrefixRule(t, rel)
      {
        if t <= rel {
          BeginsReal(t, rel);
        }
      }
      UnlessPrefixHides(ex);
    }
  }

  /** An exclusion of blanks hides nothing. With a final wildcard the two prefixes must be the
      same, unless the preflight scan's is no path at all. Without one, nothing may be hidden
      from either scan. */
  lemma AgreeExactly(ex: string)
    ensures var t, p := TrimSpace(ex), ExcludedPath(ex);
            Agree(ex) <==>
            || t == ""
            || (HasSuffix(t, "/**") && TrimSuffix(t, "/**") == p)
            || (!RealPath(p) && (HasSuffix(t, "/**") || !Extendable(t)))
  {
    if TrimSpace(ex) == "" {
      forall rel | RealPath(rel)
        ensures PrefixSkips([ex], rel) <==> Skips([ex], rel)
      {
        OneExclusion(ex, rel);
      }
    } else if HasSuffix(TrimSpace(ex), "/**") {
      WildcardAgrees(ex);
    } else {
      PlainAgrees(ex);
    }
  }

  lemma TrimmedEnds(s: string)
    requires TrimSpace(s) == s && s != ""
    ensures !IsSpace(s[0]) && !IsSpace(s[|s| - 1])
  {
    TrimLeftEnds(s);
    TrimRightEnds(TrimLeft(s));
  }

  lemma LeadStripped(p: string, lead: string)
    requires RealPath(p) && ExcludedPath(p) == p && lead in {"./", "/"}
    ensures TrimSpace(lead + p) == lead + p && ExcludedPath(lead + p) == p
  {
    PlainForm(p);
    RealUnstripped(p);
    TrimmedEnds(p);
    var t := lead + p;
    assert t[0] == lead[0] && t[|t| - 1] == p[|p| - 1];
    TrimSpaceId(t);
    StripOneLead(p, lead);
  }

  lemma StripOneLead(p: string, lead: string)
    requires StripLead(p) == p && p != "" && lead in {"./", "/"}
    ensures StripLead(lead + p) == p
  {
    var t := lead + p;
    assert t[|lead|..] == p;
    assert t[0] == lead[0];
  }

  lemma SlashStripped(p: string)
    requires RealPath(p) && ExcludedPath(p) == p
    ensures TrimSpace(p + "/") == p + "/" && ExcludedPath(p + "/") == p
  {
    PlainForm(p);
    RealUnstripped(p);
    TrimmedEnds(p);
    var t := p + "/";
    assert t[0] == p[0] && t[|t| - 1] == '/';
    TrimSpaceId(t);
    RealExtendable(p);
    ExtendableUnstripped(t);
    assert t[..|p|] == p && t[|p|..] == "/";
  }

  lemma LeadHidesNothing(t: string, rel: string)
    requires (HasPrefix(t, "/") || HasPrefix(t, "./")) && RealPath(rel)
    ensures !PrefixRule(t, rel)
  {
    if HasSuffix(t, "/**") {
      DecoratedUnreal(t);
      if Under(TrimSuffix(t, "/**"), rel) {
        UnderReal(TrimSuffix(t, "/**"), rel);
      }
    } else {
      LeadNotExtendable(t);
      if t <= rel {
        BeginsReal(t, rel);
      }
    }
  }

  /** `./foo` and `/foo` hide `foo` and what lies below it from the preflight scan, and nothing
      from the other. */
  lemma LeadForms(p: string, lead: string, rel: string)
    requires RealPath(p) && ExcludedPath(p) == p && lead in {"./", "/"} && RealPath(rel)
    ensures (Skips([lead + p], rel) <==> Under(p, rel)) && !PrefixSkips([lead + p], rel)
  {
    LeadStripped(p, lead);
    OneExclusion(lead + p, rel);
    LeadHidesNothing(lead + p, rel);
  }

  /** `foo/` hides the same from the preflight scan, and from the other all of it but `foo`. */
  lemma SlashForm(p: string, rel: string)
    requires RealPath(p) && ExcludedPath(p) == p && RealPath(rel)
    ensures Skips([p + "/"], rel) <==> Under(p, rel)
    ensures PrefixSkips([p + "/"], rel) <==> Under(p, rel) && rel != p
  {
    SlashStripped(p);
    OneExclusion(p + "/", rel);
    assert (p + "/")[|p|] == '/';
  }

  lemma WildcardUnstripped(p: string)
    requires RealPath(p)
    ensures StripLead(p + "/**") == p + "/**"
  {
    RealExtendable(p);
    ExtendableUnstripped(p + "/");
    assert (p + "/**")[..|p| + 1] == p + "/";
    assert (p + "/**")[0] == (p + "/")[0] && (p + "/**")[1] == (p + "/")[1];
  }

  lemma WildcardSuffix(p: string)
    ensures var t := p + "/**"; HasSuffix(t, "/**") && TrimSuffix(t, "/**") == p && !HasSuffix(t, "/")
  {
    var t := p + "/**";
    assert t[|p|..] == "/**" && t[..|p|] == p;
    assert t[|t| - 1] == '*';
    assert t[|t| - 1..] == [t[|t| - 1]];
  }

  lemma WildcardTrimmed(p: string)
    requires RealPath(p) && ExcludedPath(p) == p
    ensures TrimSpace(p + "/**") == p + "/**"
  {
    PlainForm(p);
    RealUnstripped(p);
    TrimmedEnds(p);
    var t := p + "/**";
    assert t[0] == p[0] && t[|t| - 1] == '*';
    TrimSpaceId(t);
  }

  /** A path with a final wildcard means the same to both scans: it and what lies below it. */
  lemma WildcardForm(p: string, rel: string)
    requires RealPath(p) && ExcludedPath(p) == p && RealPath(rel)
    ensures Skips([p + "/**"], rel) <==> Under(p, rel)
    ensures PrefixSkips([p + "/**"], rel) <==> Under(p, rel)
  {
    WildcardTrimmed(p);
    WildcardUnstripped(p);
    WildcardSuffix(p);
    RealUnstripped(p);
    OneExclusion(p + "/**", rel);
  }
}
