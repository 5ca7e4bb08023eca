/** The part of RE2 syntax that compiled patterns use, and what it matches. */
module Regexps {

  /** A set of characters that one position may match. */
  datatype Chars = Any | NotSlash | Only(c: char) {
    /** Without the `s` flag a dot does not match a newline. */
    predicate Has(x: char) {
      match this
      case Any => x != '\n'
      case NotSlash => x != '/'
      case Only(c) => x == c
    }
  }

  datatype Node = Begin | End | One(cs: Chars) | Star(cs: Chars)

  datatype Parsed = Parsed(nodes: seq<Node>) | SyntaxError

  predicate IsMeta(c: char) {
    c in ".+*?()|[]{}^$\\"
  }

  /** ASCII punctuation, which a backslash makes literal. */
  predicate IsPunct(c: char) {
    '!' <= c <= '/' || ':' <= c <= '@' || '[' <= c <= '`' || '{' <= c <= '~'
  }

  /** One atom at the front of a regexp: its node and its length in characters. */
  datatype Atom = Atom(node: Node, len: nat) | NoAtom

  function ParseAtom(t: string): (r: Atom)
    ensures r.Atom? ==> 1 <= r.len <= |t|
  {
    if t == "" then NoAtom
    else if t[0] == '^' then Atom(Begin, 1)
    else if t[0] == '$' then Atom(End, 1)
    else if t[0] == '.' then Atom(One(Any), 1)
    else if |t| >= 4 && t[0] == '[' && t[1] == '^' && t[2] == '/' && t[3] == ']' then Atom(One(NotSlash), 4)
    else if t[0] == '\\' then
      if |t| > 1 && IsPunct(t[1]) then Atom(One(Only(t[1])), 2) else NoAtom
    else if IsMeta(t[0]) then NoAtom
    else Atom(One(Only(t[0])), 1)
  }

  /** Atoms in sequence, each single character possibly repeated. A repetition of anything
      else, and every other construct, is outside this part of the syntax. */
  function Parse(t: string): Parsed
    decreases |t|
  {
    if t == "" then Parsed([])
    else
      var a := ParseAtom(t);
      if a.NoAtom? then SyntaxError
      else if a.len < |t| && t[a.len] == '*' then
        if !a.node.One? then SyntaxError
        else Cons(Star(a.node.cs), Parse(t[a.len + 1..]))
      else Cons(a.node, Parse(t[a.len..]))
  }

  function Cons(n: Node, rest: Parsed): Parsed {
    if rest.SyntaxError? then SyntaxError else Parsed([n] + rest.nodes)
  }

  /** `nodes` match `s` from position `i` on, ending anywhere. */
  predicate MatchesAt(nodes: seq<Node>, s: string, i: nat)
    requires i <= |s|
    decreases |nodes|, |s| - i
  {
    if nodes == [] then true
    else
      match nodes[0]
      case Begin => i == 0 && MatchesAt(nodes[1..], s, i)
      case End => i == |s| && MatchesAt(nodes[1..], s, i)
      case One(cs) => i < |s| && cs.Has(s[i]) && MatchesAt(nodes[1..], s, i + 1)
      case Star(cs) => MatchesAt(nodes[1..], s, i) || (i < |s| && cs.Has(s[i]) && MatchesAt(nodes, s, i + 1))
  }

  /** An unanchored search, as a match of a string against a regexp is. */
  ghost predicate Search(nodes: seq<Node>, s: string) {
    exists i :: 0 <= i <= |s| && MatchesAt(nodes, s, i)
  }
}
