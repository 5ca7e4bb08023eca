/** The string functions of the Go library that the program uses. */
module Strings {

  function Itself(s: string): string {
    s
  }

  /** White space in the sense of the Unicode property. */
  predicate IsSpace(c: char) {
    || '\t' <= c <= '\r' || c == ' ' || c == '\U{85}' || c == '\U{A0}'
    || c == '\U{1680}' || '\U{2000}' <= c <= '\U{200A}' || c == '\U{2028}' || c == '\U{2029}'
    || c == '\U{202F}' || c == '\U{205F}' || c == '\U{3000}'
  }

  function TrimLeft(s: string): string {
    if s != "" && IsSpace(s[0]) then TrimLeft(s[1..]) else s
  }

  function TrimRight(s: string): string {
    if s != "" && IsSpace(s[|s| - 1]) then TrimRight(s[..|s| - 1]) else s
  }

  function TrimSpace(s: string): string {
    TrimRight(TrimLeft(s))
  }

  predicate HasPrefix(s: string, p: string) {
    p <= s
  }

  predicate HasSuffix(s: string, p: string) {
    |p| <= |s| && s[|s| - |p|..] == p
  }

  function TrimPrefix(s: string, p: string): string {
    if p <= s then s[|p|..] else s
  }

  function TrimSuffix(s: string, p: string): string {
    if HasSuffix(s, p) then s[..|s| - |p|] else s
  }

  /** Backslashes become slashes. */
  function ToSlash(s: string): (r: string)
    ensures |r| == |s|
    ensures forall i :: 0 <= i < |s| ==> r[i] == if s[i] == '\\' then '/' else s[i]
  {
    seq(|s|, i requires 0 <= i < |s| => if s[i] == '\\' then '/' else s[i])
  }

  lemma TrimSpaceId(s: string)
    requires s == "" || (!IsSpace(s[0]) && !IsSpace(s[|s| - 1]))
    ensures TrimSpace(s) == s
  {
  }

  lemma {:induction false} TrimLeftEnds(s: string)
    ensures TrimLeft(s) == "" || !IsSpace(TrimLeft(s)[0])
    ensures |TrimLeft(s)| <= |s| && s[|s| - |TrimLeft(s)|..] == TrimLeft(s)
  {
    if s != "" && IsSpace(s[0]) {
      TrimLeftEnds(s[1..]);
    }
  }

  lemma {:induction false} TrimRightEnds(s: string)
    ensures TrimRight(s) <= s
    ensures TrimRight(s) == "" || !IsSpace(TrimRight(s)[|TrimRight(s)| - 1])
  {
    if s != "" && IsSpace(s[|s| - 1]) {
      TrimRightEnds(s[..|s| - 1]);
    }
  }

  ghost predicate Spaces(s: string) {
    forall i :: 0 <= i < |s| ==> IsSpace(s[i])
  }

  lemma {:induction false} TrimLeftParts(s: string) returns (a: string)
    ensures s == a + TrimLeft(s) && Spaces(a)
  {
    a := "";
    if s != "" && IsSpace(s[0]) {
      var rest := TrimLeftParts(s[1..]);
      a := [s[0]] + rest;
    }
  }

  lemma {:induction false} TrimRightParts(s: string) returns (b: string)
    ensures s == TrimRight(s) + b && Spaces(b)
  {
    b := "";
    if s != "" && IsSpace(s[|s| - 1]) {
      var rest := TrimRightParts(s[..|s| - 1]);
      b := rest + [s[|s| - 1]];
    }
  }

  /** Trimming takes away exactly the white space at both ends. */
  lemma TrimSpaceExactly(s: string) returns (a: string, b: string)
    ensures s == a + (TrimSpace(s) + b) && Spaces(a) && Spaces(b)
    ensures var t := TrimSpace(s); t != "" ==> !IsSpace(t[0]) && !IsSpace(t[|t| - 1])
  {
    a := TrimLeftParts(s);
    b := TrimRightParts(TrimLeft(s));
    TrimLeftEnds(s);
    TrimRightEnds(TrimLeft(s));
  }

  /** Position of the first `c`, or the length. */
  function IndexOf(s: string, c: char): (i: nat)
    ensures i <= |s|
    ensures i < |s| ==> s[i] == c
    ensures forall j :: 0 <= j < i ==> s[j] != c
  {
    if s == "" || s[0] == c then 0 else 1 + IndexOf(s[1..], c)
  }

  lemma IndexOfAt(s: string, c: char, i: nat)
    requires i < |s| && s[i] == c && c !in s[..i]
    ensures IndexOf(s, c) == i
  {
    var j := IndexOf(s, c);
    assert forall k :: 0 <= k < i ==> s[k] == s[..i][k];
  }

  /** Trimming shortens a string or leaves it as it is. */
  lemma TrimSpaceShorter(s: string)
    ensures |TrimSpace(s)| <= |s|
    ensures |TrimSpace(s)| == |s| ==> TrimSpace(s) == s
  {
    var t := TrimLeft(s);
    TrimLeftEnds(s);
    TrimRightEnds(t);
    if |t| == |s| {
      assert s[0..] == t;
    }
    if |TrimRight(t)| == |t| {
      assert t[..|t|] == TrimRight(t);
    }
  }
}
