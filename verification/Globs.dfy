/** Exclusion patterns: the compiler from globs to regexps, and matching. */
module Globs {
  import opened Regexps
  import Lists

  // ---------------------------------------------------------------- what a glob means

  /** No slash occurs in `s`. */
  predicate SlashFree(s: string) {
    forall i :: 0 <= i < |s| ==> s[i] != '/'
  }

  predicate NewlineFree(s: string) {
    forall i :: 0 <= i < |s| ==> s[i] != '\n'
  }

  predicate DoubleStar(g: string) {
    |g| >= 2 && g[0] == '*' && g[1] == '*'
  }

  predicate StartsWithStar(s: string) {
    s != "" && s[0] == '*'
  }

  /** A glob matches a whole path: `**` stands for any string, `*` for any string without a
      slash, `?` for one character other than a slash, everything else for itself. */
  ghost predicate GlobMatch(g: string, s: string)
    decreases |g|
  {
    if g == "" then s == ""
    else if DoubleStar(g) then exists k :: 0 <= k <= |s| && GlobMatch(g[2..], s[k..])
    else if g[0] == '*' then exists k :: 0 <= k <= |s| && SlashFree(s[..k]) && GlobMatch(g[1..], s[k..])
    else if g[0] == '?' then s != "" && s[0] != '/' && GlobMatch(g[1..], s[1..])
    else s != "" && s[0] == g[0] && GlobMatch(g[1..], s[1..])
  }

  // ---------------------------------------------------------------- the compiler

  const ESCAPED := ".+()|[]{}^$\\/"

  /** The first token of a glob: its length there, the regexp text for it, and the node that
      text stands for. */
  datatype Token = Token(len: nat, text: string, node: Node)

  function FirstToken(g: string): (t: Token)
    requires g != ""
    ensures 1 <= t.len <= |g|
  {
    if DoubleStar(g) then Token(2, ".*", Star(Any))
    else if g[0] == '*' then Token(1, "[^/]*", Star(NotSlash))
    else if g[0] == '?' then Token(1, "[^/]", One(NotSlash))
    else if g[0] in ESCAPED then Token(1, ['\\', g[0]], One(Only(g[0])))
    else Token(1, [g[0]], One(Only(g[0])))
  }

  /** The regexp text for a glob without its anchors, and the nodes it stands for. */
  function Emit(g: string): string {
    if g == "" then "" else FirstToken(g).text + Emit(g[FirstToken(g).len..])
  }

  function Nodes(g: string): seq<Node> {
    if g == "" then [] else [FirstToken(g).node] + Nodes(g[FirstToken(g).len..])
  }

  lemma EmitFirst(g: string, i: nat)
    requires i < |g|
    ensures var t := FirstToken(g[i..]);
            i + t.len <= |g| && Emit(g[i..]) == t.text + Emit(g[i + t.len..])
  {
    var t := FirstToken(g[i..]);
    assert g[i..][t.len..] == g[i + t.len..];
  }

  lemma EmitStep(g: string, i: nat, b: string)
    requires i < |g| && b + Emit(g[i..]) == "^" + Emit(g)
    ensures var t := FirstToken(g[i..]);
            i + t.len <= |g| && (b + t.text) + Emit(g[i + t.len..]) == "^" + Emit(g)
  {
    var t := FirstToken(g[i..]);
    EmitFirst(g, i);
    Lists.Assoc(b, t.text, Emit(g[i + t.len..]));
  }

  /** The compiler as it runs: one pass over the glob, writing to a buffer. */
  method GlobToRegexp(glob: string) returns (re: string)
    ensures re == "^" + Emit(glob) + "$"
  {
    var b := "^";
    var i := 0;
    assert glob[0..] == glob;
    while i < |glob|
      invariant 0 <= i <= |glob|
      invariant b + Emit(glob[i..]) == "^" + Emit(glob)
    {
      var c := glob[i];
      EmitStep(glob, i, b);
      if c == '*' {
        if i + 1 < |glob| && glob[i + 1] == '*' {
          b := b + ".*";
          i := i + 1;
        } else {
          b := b + "[^/]*";
        }
      } else if c == '?' {
        b := b + "[^/]";
      } else {
        ghost var b0 := b;
        if c in ESCAPED {
          b := b + "\\";
        }
        b := b + [c];
        assert b == b0 + (if c in ESCAPED then ['\\', c] else [c]);
      }
      i := i + 1;
    }
    assert b == "^" + Emit(glob);
    re := b + "$";
  }

  /** Compiling never fails: the text is a well-formed regexp for every pattern. */
  method Compile(glob: string) returns (nodes: seq<Node>)
    ensures nodes == [Begin] + Nodes(glob) + [End]
  {
    var re := GlobToRegexp(glob);
    CompiledParses(glob);
    var p := Parse(re);
    nodes := p.nodes;
  }

  // ---------------------------------------------------------------- the text parses back

  /** Text that does not begin with a star leaves the token before it alone. */
  lemma ParseToken(g: string, rest: string)
    requires g != "" && !StartsWithStar(rest)
    ensures Parse(FirstToken(g).text + rest) == Cons(FirstToken(g).node, Parse(rest))
  {
    if DoubleStar(g) {
      ParseAnyStar(rest);
    } else if g[0] == '*' {
      ParseSegmentStar(rest);
    } else {
      ParseOne(g, rest);
    }
  }

  lemma ParseAnyStar(rest: string)
    ensures Parse(".*" + rest) == Cons(Star(Any), Parse(rest))
  {
    var text := ".*" + rest;
    assert text[0] == '.' && text[1] == '*' && text[2..] == rest;
    assert ParseAtom(text) == Atom(One(Any), 1);
  }

  lemma ParseSegmentStar(rest: string)
    ensures Parse("[^/]*" + rest) == Cons(Star(NotSlash), Parse(rest))
  {
    var text := "[^/]*" + rest;
    assert text[0] == '[' && text[4] == '*' && text[5..] == rest;
    assert text[..4] == "[^/]";
    assert ParseAtom(text) == Atom(One(NotSlash), 4);
  }

  lemma ParseOne(g: string, rest: string)
    requires g != "" && g[0] != '*' && !StartsWithStar(rest)
    ensures Parse(FirstToken(g).text + rest) == Cons(FirstToken(g).node, Parse(rest))
  {
    if g[0] == '?' {
      ParseSegmentChar(rest);
    } else {
      ParseLiteral(g[0], rest);
    }
  }

  lemma ParseSegmentChar(rest: string)
    requires !StartsWithStar(rest)
    ensures Parse("[^/]" + rest) == Cons(One(NotSlash), Parse(rest))
  {
    var text := "[^/]" + rest;
    assert text[0] == '[' && text[..4] == "[^/]" && text[4..] == rest;
    assert ParseAtom(text) == Atom(One(NotSlash), 4);
  }

  lemma ParseLiteral(c: char, rest: string)
    requires c != '*' && c != '?' && !StartsWithStar(rest)
    ensures Parse((if c in ESCAPED then ['\\', c] else [c]) + rest) == Cons(One(Only(c)), Parse(rest))
  {
    var t := if c in ESCAPED then ['\\', c] else [c];
    assert (t + rest)[|t|..] == rest;
    assert ParseAtom(t + rest) == Atom(One(Only(c)), |t|);
  }

  /** The emitted text never begins with a star, so no repetition is misread. */
  lemma EmitStart(g: string)
    ensures !StartsWithStar(Emit(g) + "$")
  {
    if g != "" {
      assert FirstToken(g).text[0] != '*';
    }
  }

  lemma {:induction false} EmitParses(g: string)
    ensures Parse(Emit(g) + "$") == Parsed(Nodes(g) + [End])
    decreases |g|
  {
    if g == "" {
      assert Emit(g) + "$" == "$";
      assert Parse("$") == Cons(End, Parse("$"[1..]));
    } else {
      var t := FirstToken(g);
      var tail := g[t.len..];
      EmitParses(tail);
      EmitStart(tail);
      ParseToken(g, Emit(tail) + "$");
      assert Emit(g) + "$" == t.text + (Emit(tail) + "$");
      assert Nodes(g) + [End] == [t.node] + (Nodes(tail) + [End]);
    }
  }

  /** The compiled text reads as the anchored tokens of the glob. */
  lemma CompiledParses(g: string)
    ensures Parse("^" + Emit(g) + "$") == Parsed([Begin] + Nodes(g) + [End])
  {
    EmitParses(g);
    EmitStart(g);
    var t := "^" + Emit(g) + "$";
    assert t[1..] == Emit(g) + "$";
    assert [Begin] + (Nodes(g) + [End]) == [Begin] + Nodes(g) + [End];
  }

  // ---------------------------------------------------------------- meaning is preserved

  /** What the compiled glob matches: as `GlobMatch`, but `**` stops at a newline. */
  ghost predicate LineMatch(g: string, s: string)
    decreases |g|
  {
    if g == "" then s == ""
    else if DoubleStar(g) then exists k :: 0 <= k <= |s| && NewlineFree(s[..k]) && LineMatch(g[2..], s[k..])
    else if g[0] == '*' then exists k :: 0 <= k <= |s| && SlashFree(s[..k]) && LineMatch(g[1..], s[k..])
    else if g[0] == '?' then s != "" && s[0] != '/' && LineMatch(g[1..], s[1..])
    else s != "" && s[0] == g[0] && LineMatch(g[1..], s[1..])
  }

  predicate AllIn(cs: Chars, s: string) {
    forall i :: 0 <= i < |s| ==> cs.Has(s[i])
  }

  lemma AllInTail(cs: Chars, c: char, s: string)
    ensures AllIn(cs, [c] + s) <==> cs.Has(c) && AllIn(cs, s)
  {
    if AllIn(cs, [c] + s) {
      forall i | 0 <= i < |s|
        ensures cs.Has(s[i])
      {
        assert ([c] + s)[i + 1] == s[i];
      }
      assert cs.Has(([c] + s)[0]);
    }
  }

  /** A star matches exactly by skipping some run of its characters. */
  lemma {:induction false} StarSkips(cs: Chars, rest: seq<Node>, s: string, i: nat)
    requires i <= |s|
    ensures MatchesAt([Star(cs)] + rest, s, i)
       <==> exists k :: i <= k <= |s| && AllIn(cs, s[i..k]) && MatchesAt(rest, s, k)
    decreases |s| - i
  {
    var nodes := [Star(cs)] + rest;
    assert nodes[1..] == rest;
    if MatchesAt(rest, s, i) {
      assert AllIn(cs, s[i..i]);
    }
    if i < |s| {
      StarSkips(cs, rest, s, i + 1);
      if cs.Has(s[i]) && MatchesAt(nodes, s, i + 1) {
        var k :| i + 1 <= k <= |s| && AllIn(cs, s[i + 1..k]) && MatchesAt(rest, s, k);
        assert s[i..k] == [s[i]] + s[i + 1..k];
      }
      forall k | i < k <= |s| && AllIn(cs, s[i..k]) && MatchesAt(rest, s, k)
        ensures MatchesAt(nodes, s, i)
      {
        assert s[i..k] == [s[i]] + s[i + 1..k];
        assert cs.Has(s[i..k][0]);
        AllInTail(cs, s[i], s[i + 1..k]);
      }
    }
  }

  lemma {:induction false} NodesMatch(g: string, s: string, i: nat)
    requires i <= |s|
    ensures MatchesAt(Nodes(g) + [End], s, i) <==> LineMatch(g, s[i..])
    decreases |g|
  {
    var nodes := Nodes(g) + [End];
    if g == "" {
      assert nodes == [End];
      assert nodes[1..] == [];
    } else if DoubleStar(g) {
      StarMatch(Any, g, g[2..], s, i);
    } else if g[0] == '*' {
      StarMatch(NotSlash, g, g[1..], s, i);
    } else {
      assert nodes[1..] == Nodes(g[1..]) + [End];
      if i < |s| {
        NodesMatch(g[1..], s, i + 1);
        assert s[i..][1..] == s[i + 1..];
      }
    }
  }

  lemma {:induction false} StarMatch(cs: Chars, g: string, tail: string, s: string, i: nat)
    requires i <= |s| && |tail| < |g| && Nodes(g) == [Star(cs)] + Nodes(tail)
    ensures MatchesAt(Nodes(g) + [End], s, i)
       <==> exists k :: 0 <= k <= |s[i..]| && AllIn(cs, s[i..][..k]) && LineMatch(tail, s[i..][k..])
    decreases |g|, 0
  {
    var rest := Nodes(tail) + [End];
    assert Nodes(g) + [End] == [Star(cs)] + rest;
    StarSkips(cs, rest, s, i);
    forall k | i <= k <= |s|
      ensures MatchesAt(rest, s, k) <==> LineMatch(tail, s[i..][k - i..])
      ensures s[i..k] == s[i..][..k - i]
    {
      NodesMatch(tail, s, k);
      assert s[i..][k - i..] == s[k..];
    }
    forall k | 0 <= k <= |s[i..]|
      ensures s[i..][..k] == s[i..i + k]
    {
    }
  }

  /** On every path the compiled regexp accepts exactly what `LineMatch` says. */
  lemma CompiledMatches(g: string, s: string)
    ensures Search([Begin] + Nodes(g) + [End], s) <==> LineMatch(g, s)
  {
    var nodes := [Begin] + Nodes(g) + [End];
    assert nodes[1..] == Nodes(g) + [End];
    NodesMatch(g, s, 0);
    assert s[0..] == s;
    if LineMatch(g, s) {
      assert MatchesAt(nodes, s, 0);
    }
  }

  lemma {:induction false} SameWithoutNewlines(g: string, s: string)
    requires NewlineFree(s)
    ensures LineMatch(g, s) <==> GlobMatch(g, s)
    decreases |g|
  {
    if g == "" {
    } else if DoubleStar(g) {
      forall k | 0 <= k <= |s|
        ensures NewlineFree(s[..k]) && (LineMatch(g[2..], s[k..]) <==> GlobMatch(g[2..], s[k..]))
      {
        SameWithoutNewlines(g[2..], s[k..]);
      }
    } else if g[0] == '*' {
      forall k | 0 <= k <= |s|
        ensures LineMatch(g[1..], s[k..]) <==> GlobMatch(g[1..], s[k..])
      {
        SameWithoutNewlines(g[1..], s[k..]);
      }
    } else if s != "" {
      SameWithoutNewlines(g[1..], s[1..]);
    }
  }

  lemma NoLineMatch(s: string)
    requires !NewlineFree(s)
    ensures !LineMatch("**", s)
  {
    assert "**"[2..] == "";
    forall k | 0 <= k <= |s| && NewlineFree(s[..k])
      ensures s[k..] != ""
    {
    }
  }

  /** Compiling keeps the meaning of every glob on a path exactly when the path has no newline. */
  lemma CompilationPreservesMeaning(s: string)
    ensures NewlineFree(s)
       <==> forall g :: Search([Begin] + Nodes(g) + [End], s) <==> GlobMatch(g, s)
  {
    forall g
      ensures Search([Begin] + Nodes(g) + [End], s) <==> LineMatch(g, s)
      ensures NewlineFree(s) ==> (LineMatch(g, s) <==> GlobMatch(g, s))
    {
      CompiledMatches(g, s);
      if NewlineFree(s) {
        SameWithoutNewlines(g, s);
      }
    }
    if !NewlineFree(s) {
      var g := "**";
      assert GlobMatch("", s[|s|..]);
      assert g[2..] == "";
      assert GlobMatch(g, s);
      NoLineMatch(s);
      assert !(Search([Begin] + Nodes(g) + [End], s) <==> GlobMatch(g, s));
    }
  }

  /** A glob without wildcards matches itself and nothing else. */
  lemma {:induction false} PlainGlobMatchesItself(g: string, s: string)
    requires forall i :: 0 <= i < |g| ==> g[i] != '*' && g[i] != '?'
    ensures LineMatch(g, s) <==> s == g
  {
    if g != "" && s != "" {
      assert !(DoubleStar(g));
      assert g == [g[0]] + g[1..] && s == [s[0]] + s[1..];
      PlainGlobMatchesItself(g[1..], s[1..]);
    }
  }
}
