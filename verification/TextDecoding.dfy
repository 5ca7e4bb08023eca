/** Texts of lines whose fields are separated by bars, decoded from the right end. */
module TextDecoding {
  import opened Lists
  import opened Strings
  import opened Decimal
  import opened IndexText

  predicate Without(c: char, s: string) {
    c !in s
  }

  lemma SeparatorInTail(s: string, i: nat, j: nat, c: char)
    ensures i < j < |s| && s[j] == c ==> c in s[i + 1..]
  {
    if i < j < |s| {
      assert s[i + 1..][j - i - 1] == s[j];
    }
  }

  /** The piece after the last separator is determined. */
  lemma LastPiece(a: string, b: string, a': string, b': string, c: char)
    requires Without(c, b) && Without(c, b') && a + [c] + b == a' + [c] + b'
    ensures a == a' && b == b'
  {
    var s := a + [c] + b;
    assert s[|a|] == c && s[..|a|] == a && s[|a| + 1..] == b;
    assert s[|a'|] == c && s[..|a'|] == a' && s[|a'| + 1..] == b';
    SeparatorInTail(s, |a|, |a'|, c);
    SeparatorInTail(s, |a'|, |a|, c);
  }

  lemma PrintedTidy(v: int)
    requires Int64(v)
    ensures Without('|', Printed(v)) && Without('\n', Printed(v))
  {
    DecPlain(v);
  }

  lemma InitOfRest(lines: seq<string>)
    requires |lines| > 1
    ensures lines[1..][..|lines| - 2] == lines[..|lines| - 1][1..]
    ensures lines[1..][|lines| - 2] == lines[|lines| - 1]
  {
  }

  lemma {:induction false} TextFirst(lines: seq<string>)
    requires lines != []
    ensures Text(lines) == lines[0] + "\n" + Text(lines[1..])
  {
    if |lines| == 1 {
      assert lines[..0] == [] == lines[1..];
    } else {
      TextFirst(lines[..|lines| - 1]);
      InitOfRest(lines);
    }
  }

  /** No line of one list begins with a line of the other and a newline. */
  ghost predicate Separable(a: seq<string>, b: seq<string>) {
    forall x, y :: x in a && y in b ==> !(x + "\n" <= y) && !(y + "\n" <= x)
  }

  lemma FirstLineShorter(x: string, a: string, y: string, b: string)
    requires x + "\n" + a == y + "\n" + b && |x| < |y|
    ensures x + "\n" <= y
  {
    assert (x + "\n" + a)[..|x| + 1] == x + "\n";
    assert (y + "\n" + b)[..|x| + 1] == y[..|x| + 1];
  }

  lemma SeparableRest(a: seq<string>, b: seq<string>)
    requires Separable(a, b) && a != [] && b != []
    ensures Separable(a[1..], b[1..])
  {
    assert (forall x :: x in a[1..] ==> x in a) && forall y :: y in b[1..] ==> y in b;
  }

  /** A text determines its lines, among lists whose lines are not confused. */
  lemma {:induction false} TextDeterminesLines(a: seq<string>, b: seq<string>)
    requires Separable(a, b) && Text(a) == Text(b)
    ensures a == b
    decreases |a|
  {
    if a == [] {
      if b != [] {
        TextFirst(b);
      }
    } else if b == [] {
      TextFirst(a);
    } else {
      TextFirst(a);
      TextFirst(b);
      assert a[0] in a && b[0] in b;
      FirstLinesEqual(a[0], Text(a[1..]), b[0], Text(b[1..]));
      SeparableRest(a, b);
      TextDeterminesLines(a[1..], b[1..]);
      assert a == [a[0]] + a[1..] && b == [b[0]] + b[1..];
    }
  }

  lemma FirstLinesEqual(x: string, a: string, y: string, b: string)
    requires x + "\n" + a == y + "\n" + b && !(x + "\n" <= y) && !(y + "\n" <= x)
    ensures x == y && a == b
  {
    if |x| < |y| {
      FirstLineShorter(x, a, y, b);
    } else if |y| < |x| {
      FirstLineShorter(y, b, x, a);
    } else {
      var s, t := x + "\n" + a, y + "\n" + b;
      assert x == s[..|x|] && y == t[..|x|] && a == s[|x| + 1..] && b == t[|x| + 1..];
    }
  }

  function Bars(s: string): nat {
    if s == "" then 0 else Bars(s[..|s| - 1]) + (if s[|s| - 1] == '|' then 1 else 0)
  }

  /** Every newline in a path comes before its third bar. */
  predicate EarlyNewlines(rel: string) {
    forall i :: 0 <= i < |rel| && rel[i] == '\n' ==> Bars(rel[..i]) < 3
  }

  lemma {:induction false} BarsConcat(a: string, b: string)
    ensures Bars(a + b) == Bars(a) + Bars(b)
  {
    if b == "" {
      assert a + b == a;
    } else {
      BarsConcat(a, b[..|b| - 1]);
      InitOfConcat(a, b);
    }
  }

  lemma PrefixLine(line: string, rel: string)
    ensures line + "\n" <= rel <==> |line| < |rel| && rel[|line|] == '\n' && rel[..|line|] == line
  {
    if |line| < |rel| {
      OneMore(rel, |line|);
      if line + "\n" <= rel {
        assert rel[..|line| + 1] == line + "\n";
      }
    }
  }

  /** Such a path does not begin with a line of three bars or more and a newline. */
  lemma NotALine(line: string, rel: string)
    requires EarlyNewlines(rel) && Bars(line) >= 3
    ensures !(line + "\n" <= rel)
  {
    PrefixLine(line, rel);
  }

  lemma ThreeBars(a: string, b: string, c: string, d: string)
    ensures Bars(a + "|" + b + "|" + c + "|" + d) >= 3
  {
    BarsConcat(a + "|" + b + "|" + c + "|", d);
    BarsConcat(a + "|" + b + "|" + c, "|");
    BarsConcat(a + "|" + b + "|", c);
    BarsConcat(a + "|" + b, "|");
    BarsConcat(a + "|", b);
    BarsConcat(a, "|");
    OneBar();
  }

  lemma OneBar()
    ensures Bars("|") == 1
  {
    assert "|"[..0] == "";
  }

  lemma CharsOfTail(rel: string, tail: string)
    ensures forall n :: |rel| <= n < |rel + tail| ==> (rel + tail)[n] in tail
  {
    forall n | |rel| <= n < |rel + tail|
      ensures (rel + tail)[n] in tail
    {
      assert (rel + tail)[n] == tail[n - |rel|];
    }
  }

  /** A line made of a path and a tail without newlines begins with another line and a newline
      only if the path does. */
  lemma LineInsidePath(line: string, rel: string, tail: string)
    requires Without('\n', tail) && line + "\n" <= rel + tail
    ensures line + "\n" <= rel
  {
    var n, s := |line|, rel + tail;
    PrefixLine(line, s);
    CharsOfTail(rel, tail);
    assert n < |rel|;
    assert rel[..n] == s[..n];
    PrefixLine(line, rel);
  }

  // ---------------------------------------------------------------- digests

  /** A digest as hexadecimal text. */
  predicate HexText(d: string) {
    d != "" && forall i :: 0 <= i < |d| ==> '0' <= d[i] <= '9' || 'a' <= d[i] <= 'f'
  }

  ghost predicate PrintsHex(hash: string -> string) {
    forall x :: HexText(hash(x))
  }

  ghost predicate NoCollision(hash: string -> string, inputs: set<string>) {
    forall x, y :: x in inputs && y in inputs && hash(x) == hash(y) ==> x == y
  }

  /** A stored digest is read back as it was. */
  lemma HexReadsBack(sig: string)
    requires HexText(sig)
    ensures ReadText(Stored(sig + "\n")) == sig
  {
    var s := sig + "\n";
    assert !IsSpace(s[0]);
    assert TrimLeft(s) == s;
    assert s[..|s| - 1] == sig;
    assert TrimRight(s) == TrimRight(sig) == sig;
  }
}
