/** Matching a path against a list of exclusion patterns. */
module Matchers {
  import opened Strings
  import opened Regexps
  import opened Globs

  /** Some pattern that is not blank matches the path. */
  ghost predicate Excluded(patterns: seq<string>, rel: string) {
    exists p :: p in patterns && TrimSpace(p) != "" && LineMatch(ToSlash(TrimSpace(p)), ToSlash(rel))
  }

  /** On a path without a newline a list of patterns excludes what one of its globs matches. */
  lemma ExcludedByGlob(patterns: seq<string>, rel: string)
    requires NewlineFree(ToSlash(rel))
    ensures Excluded(patterns, rel) <==>
            exists p :: p in patterns && TrimSpace(p) != "" && GlobMatch(ToSlash(TrimSpace(p)), ToSlash(rel))
  {
    forall g
      ensures LineMatch(g, ToSlash(rel)) <==> GlobMatch(g, ToSlash(rel))
    {
      SameWithoutNewlines(g, ToSlash(rel));
    }
  }

  ghost predicate AnyMatches(res: seq<seq<Node>>, s: string) {
    exists k :: 0 <= k < |res| && Search(res[k], s)
  }

  /** The regexps compiled for the patterns that are not blank, in order. */
  ghost function Compiled(patterns: seq<string>): seq<seq<Node>> {
    if patterns == [] then []
    else
      var p := TrimSpace(patterns[|patterns| - 1]);
      Compiled(patterns[..|patterns| - 1]) + (if p == "" then [] else [[Begin] + Nodes(ToSlash(p)) + [End]])
  }

  class Matcher {
    var res: seq<seq<Node>>

    constructor (patterns: seq<string>)
      ensures res == Compiled(patterns)
    {
      res := [];
      new;
      var i := 0;
      while i < |patterns|
        invariant 0 <= i <= |patterns|
        invariant res == Compiled(patterns[..i])
      {
        var p := TrimSpace(patterns[i]);
        assert patterns[..i + 1][..i] == patterns[..i];
        if p != "" {
          var nodes := Compile(ToSlash(p));
          res := res + [nodes];
        }
        i := i + 1;
      }
      assert patterns[..i] == patterns;
    }

    method MatchRel(rel: string) returns (matched: bool)
      ensures matched <==> AnyMatches(res, ToSlash(rel))
    {
      var path := ToSlash(rel);
      var k := 0;
      while k < |res|
        invariant 0 <= k <= |res|
        invariant forall j :: 0 <= j < k ==> !Search(res[j], path)
      {
        var hit := MatchString(res[k], path);
        if hit {
          return true;
        }
        k := k + 1;
      }
      matched := false;
    }
  }

  /** The search of the regexp library: try every starting position. */
  method MatchString(nodes: seq<Node>, s: string) returns (matched: bool)
    ensures matched <==> Search(nodes, s)
  {
    var i := 0;
    while i <= |s|
      invariant 0 <= i <= |s| + 1
      invariant forall j :: 0 <= j < i ==> !MatchesAt(nodes, s, j)
    {
      if MatchesAt(nodes, s, i) {
        return true;
      }
      i := i + 1;
    }
    matched := false;
  }

  /** A matcher built from the patterns accepts exactly the excluded paths. */
  lemma {:induction false} CompiledSearches(patterns: seq<string>, rel: string)
    ensures AnyMatches(Compiled(patterns), ToSlash(rel)) <==> Excluded(patterns, rel)
  {
    if patterns == [] {
    } else {
      var init, last := patterns[..|patterns| - 1], patterns[|patterns| - 1];
      CompiledSearches(init, rel);
      var p := TrimSpace(last);
      var all, some := Compiled(patterns), Compiled(init);
      CompiledMatches(ToSlash(p), ToSlash(rel));
      assert forall x :: x in patterns <==> x in init || x == last;
      assert Excluded(patterns, rel)
        <==> Excluded(init, rel) || (p != "" && LineMatch(ToSlash(p), ToSlash(rel)));
      if p != "" {
        assert all == some + [[Begin] + Nodes(ToSlash(p)) + [End]];
      } else {
        assert all == some;
      }
      SearchesSplit(some, all, ToSlash(rel));
    }
  }

  lemma SearchesSplit(some: seq<seq<Node>>, all: seq<seq<Node>>, s: string)
    requires |some| <= |all| <= |some| + 1 && forall k :: 0 <= k < |some| ==> all[k] == some[k]
    ensures AnyMatches(all, s) <==> AnyMatches(some, s) || (|some| < |all| && Search(all[|some|], s))
  {
    if k :| 0 <= k < |all| && Search(all[k], s) {
      if k < |some| {
        assert Search(some[k], s);
      }
    }
    if k :| 0 <= k < |some| && Search(some[k], s) {
      assert Search(all[k], s);
    }
  }
}
