/** The saved index of a scan: one line of text per file, written and read back. */
module IndexText {
  import Lists
  import opened Strings
  import opened Decimal

  datatype FileMeta = FileMeta(size: int, mtimeMs: int)

  /** A state file, which may not exist yet. */
  datatype Stored = Missing | Stored(text: string)

  /** A stored signature, or nothing. */
  function ReadText(file: Stored): string {
    if file.Stored? then TrimSpace(file.text) else ""
  }

  ghost predicate InRange(m: FileMeta) {
    Int64(m.size) && Int64(m.mtimeMs)
  }

  // ---------------------------------------------------------------- printing

  function LineOf(rel: string, m: FileMeta): string {
    rel + "|" + Dec(m.size) + "|" + Dec(m.mtimeMs)
  }

  /** The lines, each ended by a newline. The signature hashes the same text. */
  function Text(lines: seq<string>): string {
    if lines == [] then "" else Text(lines[..|lines| - 1]) + lines[|lines| - 1] + "\n"
  }

  // ---------------------------------------------------------------- reading

  /** The pieces of `s` between occurrences of `c`. */
  function Split(s: string, c: char): (parts: seq<string>)
    ensures parts != []
    decreases |s|
  {
    var i := IndexOf(s, c);
    if i == |s| then [s] else [s[..i]] + Split(s[i + 1..], c)
  }

  /** The longest line the scanner accepts; a longer one ends the scan. */
  const MAX_LINE := 65535

  function DropCR(s: string): string {
    if s != "" && s[|s| - 1] == '\r' then s[..|s| - 1] else s
  }

  /** The lines of a text, up to the first one that is too long. */
  function ScanLines(text: string): seq<string>
    decreases |text|
  {
    if text == "" then []
    else
      var i := IndexOf(text, '\n');
      if i > MAX_LINE then []
      else if i == |text| then [DropCR(text)]
      else [DropCR(text[..i])] + ScanLines(text[i + 1..])
  }

  function DigitPrefix(s: string): (r: string)
    ensures r <= s && AllDigits(r)
  {
    if s == "" || !IsDigit(s[0]) then "" else [s[0]] + DigitPrefix(s[1..])
  }

  /** A decimal read off the front of a string: blanks, a sign, digits. Anything else, or a
      value that does not fit, leaves 0. */
  function ScanInt(s: string): int {
    SignedInt(TrimLeft(s))
  }

  function SignedInt(t: string): int {
    if t != "" && t[0] == '-' then Fitting(0 - LeadingValue(t[1..]))
    else if t != "" && t[0] == '+' then Fitting(LeadingValue(t[1..]))
    else Fitting(LeadingValue(t))
  }

  function LeadingValue(u: string): int {
    Value(DigitPrefix(u))
  }

  function Fitting(v: int): int {
    if Int64(v) then v else 0
  }

  datatype LineRead = Read(rel: string, meta: FileMeta) | Unreadable

  function ParseLine(line: string): LineRead {
    var parts := Split(TrimSpace(line), '|');
    if |parts| != 3 then Unreadable else Read(parts[0], FileMeta(ScanInt(parts[1]), ScanInt(parts[2])))
  }

  function Enter(m: map<string, FileMeta>, e: LineRead): map<string, FileMeta> {
    if e.Read? then m[e.rel := e.meta] else m
  }

  /** The map that the lines fill, later lines overriding earlier ones. Blank lines are
      unreadable like others without two bars. */
  function Collect(lines: seq<string>): map<string, FileMeta> {
    if lines == [] then map[] else Enter(Collect(lines[..|lines| - 1]), ParseLine(lines[|lines| - 1]))
  }

  function Load(text: string): map<string, FileMeta> {
    Collect(ScanLines(text))
  }

  /** The body of the loading loop: blank lines and lines without two bars are passed over. */
  method ReadLine(line: string) returns (e: LineRead)
    ensures e == ParseLine(line)
  {
    var ln := TrimSpace(line);
    if ln == "" {
      return Unreadable;
    }
    var parts := Split(ln, '|');
    if |parts| != 3 {
      return Unreadable;
    }
    var rel := parts[0];
    var sz := ScanInt(parts[1]);
    var mt := ScanInt(parts[2]);
    e := Read(rel, FileMeta(sz, mt));
  }

  method LoadIndex(text: string) returns (m: map<string, FileMeta>)
    ensures m == Load(text)
  {
    m := map[];
    var lines := ScanLines(text);
    var i := 0;
    while i < |lines|
      invariant 0 <= i <= |lines|
      invariant m == Collect(lines[..i])
    {
      CollectSnoc(lines[..i], lines[i]);
      assert lines[..i + 1] == lines[..i] + [lines[i]];
      var e := ReadLine(lines[i]);
      if e.Read? {
        m := m[e.rel := e.meta];
      }
      i := i + 1;
    }
    assert lines[..i] == lines;
  }

  method SaveIndex(lines: seq<string>) returns (text: string)
    ensures text == Text(lines)
  {
    text := "";
    var i := 0;
    while i < |lines|
      invariant 0 <= i <= |lines|
      invariant text == Text(lines[..i])
    {
      assert lines[..i + 1][..i] == lines[..i];
      text := text + lines[i];
      text := text + "\n";
      i := i + 1;
    }
    assert lines[..i] == lines;
  }

  // ---------------------------------------------------------------- paths that survive

  /** A path that the text form can carry: no bar, no newline, and no blank in front. */
  predicate Plain(rel: string) {
    '|' !in rel && '\n' !in rel && (rel == "" || !IsSpace(rel[0]))
  }

  lemma DigitsPlain(n: nat)
    ensures '|' !in Digits(n) && '\n' !in Digits(n) && DigitPrefix(Digits(n)) == Digits(n)
    ensures Digits(n) != "" && IsDigit(Digits(n)[0]) && IsDigit(Digits(n)[|Digits(n)| - 1])
  {
    DigitsDenote(n);
    DigitPrefixAll(Digits(n));
  }

  lemma {:induction false} DigitPrefixAll(s: string)
    requires AllDigits(s)
    ensures DigitPrefix(s) == s
  {
    if s == "" {
    } else {
      assert IsDigit(s[0]);
      assert forall i :: 0 <= i < |s[1..]| ==> s[1..][i] == s[i + 1];
      DigitPrefixAll(s[1..]);
    }
  }

  lemma DecPlain(v: int)
    ensures '|' !in Dec(v) && '\n' !in Dec(v) && Dec(v) != "" && IsDigit(Dec(v)[|Dec(v)| - 1])
  {
    DigitsPlain(if v < 0 then -v else v);
  }

  lemma ScanDec(v: int)
    requires Int64(v)
    ensures ScanInt(Dec(v)) == v
  {
    var n: nat := if v < 0 then -v else v;
    DigitsPlain(n);
    DigitsDenote(n);
    if v < 0 {
      ScanSigned(Digits(n));
    } else {
      ScanUnsigned(Digits(n));
    }
  }

  lemma ScanSigned(s: string)
    requires s != "" && AllDigits(s) && DigitPrefix(s) == s && Int64(0 - Value(s))
    ensures ScanInt("-" + s) == 0 - Value(s)
  {
    var t := "-" + s;
    assert t[0] == '-' && t[1..] == s;
    assert TrimLeft(t) == t;
  }

  lemma ScanUnsigned(s: string)
    requires s != "" && AllDigits(s) && DigitPrefix(s) == s && Int64(Value(s))
    ensures ScanInt(s) == Value(s)
  {
    DigitFirst(s);
    var n: int := Value(DigitPrefix(s));
  }

  lemma DigitFirst(s: string)
    requires s != "" && AllDigits(s)
    ensures TrimLeft(s) == s && s[0] != '-' && s[0] != '+'
  {
    assert IsDigit(s[0]);
  }

  lemma {:induction false} TrimLeftOver(blanks: string, s: string)
    requires Spaces(blanks) && s != "" && !IsSpace(s[0])
    ensures TrimLeft(blanks + s) == s
  {
    if blanks == "" {
      assert blanks + s == s;
    } else {
      TrimLeftOver(blanks[1..], s);
      assert (blanks + s)[1..] == blanks[1..] + s;
    }
  }

  /** The digits at the front end at the first character that is none. */
  lemma {:induction false} DigitPrefixOf(ds: string, rest: string)
    requires AllDigits(ds) && (rest != "" ==> !IsDigit(rest[0]))
    ensures DigitPrefix(ds + rest) == ds
  {
    if ds == "" {
      assert ds + rest == rest;
    } else {
      DigitPrefixOf(ds[1..], rest);
      assert (ds + rest)[1..] == ds[1..] + rest;
      assert ds == [ds[0]] + ds[1..];
    }
  }

  lemma AfterSign(sign: string, u: string)
    requires (sign == "" || sign == "+" || sign == "-") && u != "" && IsDigit(u[0])
    ensures SignedInt(sign + u) == Fitting(if sign == "-" then 0 - LeadingValue(u) else LeadingValue(u))
    ensures sign + u != "" && !IsSpace((sign + u)[0])
  {
    var t := sign + u;
    if sign == "" {
      assert t == u;
    } else {
      assert t[0] == sign[0] && t[1..] == u;
    }
  }

  lemma SkipBlanks(blanks: string, t: string)
    requires Spaces(blanks) && t != "" && !IsSpace(t[0])
    ensures ScanInt(blanks + t) == SignedInt(t)
  {
    TrimLeftOver(blanks, t);
  }

  /** A number is read off after blanks and a sign, up to the first character that is no digit;
      0 stands for one that does not fit. */
  lemma ScanIntMeans(blanks: string, sign: string, u: string, text: string)
    requires Spaces(blanks) && (sign == "" || sign == "+" || sign == "-") && u != "" && IsDigit(u[0])
    requires text == blanks + (sign + u)
    ensures ScanInt(text) == Fitting(if sign == "-" then 0 - LeadingValue(u) else LeadingValue(u))
  {
    AfterSign(sign, u);
    SkipBlanks(blanks, sign + u);
  }

  lemma SplitJoin(a: string, b: string, c: char)
    requires c !in a
    ensures Split(a + [c] + b, c) == [a] + Split(b, c)
  {
    var s := a + [c] + b;
    assert s[..|a|] == a && s[|a| + 1..] == b;
    IndexOfAt(s, c, |a|);
  }

  lemma SplitNone(a: string, c: char)
    requires c !in a
    ensures Split(a, c) == [a]
  {
    var i := IndexOf(a, c);
  }

  lemma ParseThree(a: string, b: string, d: string)
    requires '|' !in a && '|' !in b && '|' !in d
    requires (a == "" || !IsSpace(a[0])) && d != "" && !IsSpace(d[|d| - 1])
    ensures ParseLine(a + "|" + b + "|" + d) == Read(a, FileMeta(ScanInt(b), ScanInt(d)))
  {
    ThreeTrimmed(a, b, d);
    SplitThree(a, b, d);
  }

  /** Pieces that a split yields, joined again. */
  function Joined(parts: seq<string>, c: char): string
    requires parts != []
  {
    if |parts| == 1 then parts[0] else parts[0] + [c] + Joined(parts[1..], c)
  }

  lemma {:induction false} SplitJoined(s: string, c: char)
    ensures Joined(Split(s, c), c) == s && forall p :: p in Split(s, c) ==> c !in p
    decreases |s|
  {
    var i := IndexOf(s, c);
    if i < |s| {
      var parts := Split(s, c);
      SplitJoined(s[i + 1..], c);
      assert parts[0] == s[..i] && parts[1..] == Split(s[i + 1..], c);
      assert s == s[..i] + [c] + s[i + 1..];
    }
  }

  lemma ThreeParts(s: string)
    requires |Split(s, '|')| == 3
    ensures var parts := Split(s, '|');
            && s == parts[0] + "|" + parts[1] + "|" + parts[2]
            && '|' !in parts[0] && '|' !in parts[1] && '|' !in parts[2]
  {
    var parts := Split(s, '|');
    SplitJoined(s, '|');
    assert parts[1..][1..] == [parts[2]];
    assert parts[0] in parts && parts[1] in parts && parts[2] in parts;
    assert Joined(parts[1..], '|') == parts[1] + ['|'] + parts[2];
    Lists.Assoc(parts[0] + "|", parts[1] + "|", parts[2]);
    Lists.Assoc(parts[0] + "|", parts[1], "|");
  }

  /** The text has two bars, and these three pieces around them. */
  ghost predicate HasPieces(s: string, rel: string, b: string, d: string) {
    '|' !in rel && '|' !in b && '|' !in d && s == rel + "|" + b + "|" + d
  }

  /** A line is read exactly if it has two bars when trimmed: the path before the first, the
      numbers after it. */
  lemma ReadExactly(line: string, rel: string, meta: FileMeta)
    ensures ParseLine(line) == Read(rel, meta) <==>
            exists b, d :: HasPieces(TrimSpace(line), rel, b, d) && meta == FileMeta(ScanInt(b), ScanInt(d))
  {
    var s := TrimSpace(line);
    if ParseLine(line) == Read(rel, meta) {
      ThreeParts(s);
      assert HasPieces(s, rel, Split(s, '|')[1], Split(s, '|')[2]);
    }
    if b, d :| HasPieces(s, rel, b, d) && meta == FileMeta(ScanInt(b), ScanInt(d)) {
      SplitThree(rel, b, d);
    }
  }

  lemma ThreeTrimmed(a: string, b: string, d: string)
    requires (a == "" || !IsSpace(a[0])) && d != "" && !IsSpace(d[|d| - 1])
    ensures TrimSpace(a + "|" + b + "|" + d) == a + "|" + b + "|" + d
  {
    var line := a + "|" + b + "|" + d;
    assert line[|line| - 1] == d[|d| - 1];
    assert line[0] == if a == "" then '|' else a[0];
    TrimSpaceId(line);
  }

  lemma SplitThree(a: string, b: string, d: string)
    requires '|' !in a && '|' !in b && '|' !in d
    ensures Split(a + "|" + b + "|" + d, '|') == [a, b, d]
  {
    assert a + "|" + b + "|" + d == a + ['|'] + (b + ['|'] + d);
    SplitJoin(a, b + ['|'] + d, '|');
    SplitJoin(b, d, '|');
    SplitNone(d, '|');
  }

  /** The line of a plain path reads back as its entry. */
  lemma LineReadsBack(rel: string, m: FileMeta)
    requires Plain(rel) && InRange(m)
    ensures ParseLine(LineOf(rel, m)) == Read(rel, m)
  {
    DecPlain(m.size);
    DecPlain(m.mtimeMs);
    ScanDec(m.size);
    ScanDec(m.mtimeMs);
    ParseThree(rel, Dec(m.size), Dec(m.mtimeMs));
  }

  /** A line the scanner passes on as it is. */
  predicate ProperLine(line: string) {
    '\n' !in line && |line| <= MAX_LINE && DropCR(line) == line
  }

  lemma LineProper(rel: string, m: FileMeta)
    requires '\n' !in rel && |LineOf(rel, m)| <= MAX_LINE
    ensures ProperLine(LineOf(rel, m))
  {
    DecPlain(m.size);
    DecPlain(m.mtimeMs);
    var line, d := LineOf(rel, m), Dec(m.mtimeMs);
    assert line[|line| - 1] == d[|d| - 1];
  }

  lemma ScanLine(line: string, rest: string)
    requires ProperLine(line)
    ensures ScanLines(line + "\n" + rest) == [line] + ScanLines(rest)
  {
    var text := line + "\n" + rest;
    assert text[..|line|] == line && text[|line| + 1..] == rest;
    IndexOfAt(text, '\n', |line|);
  }

  lemma TextSnoc(lines: seq<string>, last: string, rest: string)
    ensures Text(lines + [last]) + rest == Text(lines) + (last + "\n" + rest)
  {
    assert (lines + [last])[..|lines|] == lines;
  }

  lemma PrependLine(init: seq<string>, last: string, tail: seq<string>)
    ensures init + ([last] + tail) == (init + [last]) + tail
  {
  }

  /** A text of proper lines splits into those lines. */
  lemma {:induction false} TextScans(lines: seq<string>, rest: string)
    requires forall i :: 0 <= i < |lines| ==> ProperLine(lines[i])
    ensures ScanLines(Text(lines) + rest) == lines + ScanLines(rest)
    decreases |lines|
  {
    if lines == [] {
      assert Text(lines) + rest == rest;
    } else {
      var init, last := lines[..|lines| - 1], lines[|lines| - 1];
      assert lines == init + [last];
      TextScans(init, last + "\n" + rest);
      ScanLine(last, rest);
      TextSnoc(init, last, rest);
      PrependLine(init, last, ScanLines(rest));
    }
  }

  // ---------------------------------------------------------------- the round trip

  ghost predicate LineIn(line: string, m: map<string, FileMeta>) {
    exists rel :: rel in m && line == LineOf(rel, m[rel])
  }

  /** `lines` are the lines of entries of `m`. */
  ghost predicate LinesFrom(lines: seq<string>, m: map<string, FileMeta>) {
    forall i :: 0 <= i < |lines| ==> LineIn(lines[i], m)
  }

  /** After some well-formed lines the scan ends at a line that is too long, and reads a last
      line that has no newline. */
  lemma ScanEnds(lines: seq<string>, rest: string)
    requires forall i :: 0 <= i < |lines| ==> ProperLine(lines[i])
    ensures IndexOf(rest, '\n') > MAX_LINE ==> ScanLines(Text(lines) + rest) == lines
    ensures rest != "" && '\n' !in rest && |rest| <= MAX_LINE ==>
              ScanLines(Text(lines) + rest) == lines + [DropCR(rest)]
  {
    TextScans(lines, rest);
    if IndexOf(rest, '\n') > MAX_LINE {
      assert ScanLines(rest) == [];
      assert lines + [] == lines;
    }
  }

  /** Entry `i` is the last one for `rel`. */
  ghost predicate LastFor(es: seq<LineRead>, rel: string, meta: FileMeta, i: nat) {
    && i < |es| && es[i] == Read(rel, meta)
    && forall j :: i < j < |es| ==> es[j].Unreadable? || es[j].rel != rel
  }

  ghost function Entered(es: seq<LineRead>): map<string, FileMeta> {
    if es == [] then map[] else Enter(Entered(es[..|es| - 1]), es[|es| - 1])
  }

  lemma {:induction false} EnteredExactly(es: seq<LineRead>, rel: string, meta: FileMeta)
    ensures rel in Entered(es) && Entered(es)[rel] == meta <==> exists i :: LastFor(es, rel, meta, i)
  {
    if es == [] {
    } else {
      var init, last := es[..|es| - 1], es[|es| - 1];
      EnteredExactly(init, rel, meta);
      if last.Read? && last.rel == rel {
        assert last.meta == meta ==> LastFor(es, rel, meta, |es| - 1);
      } else {
        assert forall i :: LastFor(init, rel, meta, i) ==> LastFor(es, rel, meta, i);
        assert forall i :: LastFor(es, rel, meta, i) ==> LastFor(init, rel, meta, i);
      }
    }
  }

  ghost function Reads(lines: seq<string>): (es: seq<LineRead>)
    ensures |es| == |lines|
  {
    seq(|lines|, i requires 0 <= i < |lines| => ParseLine(lines[i]))
  }

  lemma {:induction false} CollectEnters(lines: seq<string>)
    ensures Collect(lines) == Entered(Reads(lines))
  {
    if lines == [] {
    } else {
      CollectEnters(lines[..|lines| - 1]);
      assert Reads(lines)[..|lines| - 1] == Reads(lines[..|lines| - 1]);
    }
  }

  /** The map has for a path what the last line says that reads as an entry for it. */
  lemma CollectedExactly(lines: seq<string>, rel: string, meta: FileMeta)
    ensures rel in Collect(lines) && Collect(lines)[rel] == meta <==> exists i :: LastFor(Reads(lines), rel, meta, i)
  {
    CollectEnters(lines);
    EnteredExactly(Reads(lines), rel, meta);
  }

  ghost predicate AllPlain(m: map<string, FileMeta>) {
    forall rel :: rel in m ==> Plain(rel)
  }

  ghost predicate AllInRange(m: map<string, FileMeta>) {
    forall rel :: rel in m ==> InRange(m[rel])
  }

  /** The entries of `m` whose line is among `lines`. */
  ghost function EntriesIn(lines: seq<string>, m: map<string, FileMeta>): map<string, FileMeta> {
    map rel | rel in m && LineOf(rel, m[rel]) in lines :: m[rel]
  }

  lemma LineInjective(r: string, m: FileMeta, r': string, m': FileMeta)
    requires Plain(r) && InRange(m) && Plain(r') && InRange(m') && LineOf(r, m) == LineOf(r', m')
    ensures r == r' && m == m'
  {
    LineReadsBack(r, m);
    LineReadsBack(r', m');
  }

  lemma EntriesSnoc(init: seq<string>, m: map<string, FileMeta>, rel: string, line: string)
    requires AllPlain(m) && AllInRange(m) && rel in m && line == LineOf(rel, m[rel])
    ensures EntriesIn(init + [line], m) == EntriesIn(init, m)[rel := m[rel]]
  {
    forall r | r in m
      ensures LineOf(r, m[r]) in init + [line] <==> LineOf(r, m[r]) in init || r == rel
    {
      if LineOf(r, m[r]) == line {
        LineInjective(r, m[r], rel, m[rel]);
      }
    }
  }

  lemma CollectSnoc(init: seq<string>, line: string)
    ensures Collect(init + [line]) == Enter(Collect(init), ParseLine(line))
  {
    assert (init + [line])[..|init|] == init;
  }

  lemma {:induction false} CollectLines(lines: seq<string>, m: map<string, FileMeta>)
    requires LinesFrom(lines, m) && AllPlain(m) && AllInRange(m)
    ensures Collect(lines) == EntriesIn(lines, m)
  {
    if lines == [] {
    } else {
      var init, last := lines[..|lines| - 1], lines[|lines| - 1];
      assert lines == init + [last];
      CollectLines(init, m);
      assert LineIn(last, m);
      var rel :| rel in m && last == LineOf(rel, m[rel]);
      CollectSnoc(init, last);
      EntriesSnoc(init, m, rel, last);
      LineReadsBack(rel, m[rel]);
    }
  }

  /** `lines` list the entries of `m`, each in a line the scanner accepts. */
  ghost predicate Covers(lines: seq<string>, m: map<string, FileMeta>) {
    && LinesFrom(lines, m)
    && (forall rel :: rel in m ==> LineOf(rel, m[rel]) in lines)
    && (forall i :: 0 <= i < |lines| ==> |lines[i]| <= MAX_LINE)
  }

  /** Reading back what was written gives the entries, when all paths are plain. */
  lemma LoadSaved(lines: seq<string>, m: map<string, FileMeta>)
    requires Covers(lines, m) && AllPlain(m) && AllInRange(m)
    ensures Load(Text(lines)) == m
  {
    forall i | 0 <= i < |lines|
      ensures ProperLine(lines[i])
    {
      assert LineIn(lines[i], m);
      var rel :| rel in m && lines[i] == LineOf(rel, m[rel]);
      LineProper(rel, m[rel]);
    }
    ScanWhole(lines);
    CollectLines(lines, m);
    assert EntriesIn(lines, m) == m;
  }

  lemma ScanWhole(lines: seq<string>)
    requires forall i :: 0 <= i < |lines| ==> ProperLine(lines[i])
    ensures ScanLines(Text(lines)) == lines
  {
    TextScans(lines, "");
    assert Text(lines) + "" == Text(lines);
    assert lines + ScanLines("") == lines;
  }

  lemma TrimKeeps(s: string, c: char)
    requires c !in s
    ensures c !in TrimSpace(s)
    ensures TrimSpace(s) == "" || !IsSpace(TrimSpace(s)[0])
  {
    TrimLeftEnds(s);
    TrimRightEnds(TrimLeft(s));
  }

  lemma SplitFirst(s: string, c: char)
    ensures Split(s, c)[0] <= s && c !in Split(s, c)[0]
  {
  }

  /** Whatever line is read, the path it yields is plain. */
  lemma ReadPathIsPlain(line: string)
    requires '\n' !in line
    ensures ParseLine(line).Read? ==> Plain(ParseLine(line).rel)
  {
    var t := TrimSpace(line);
    TrimKeeps(line, '\n');
    SplitFirst(t, '|');
    var rel := Split(t, '|')[0];
    if rel != "" {
      assert rel[0] == t[0];
    }
  }

  lemma {:induction false} ScannedLinesEndAtNewline(text: string)
    ensures forall ln :: ln in ScanLines(text) ==> '\n' !in ln
    decreases |text|
  {
    if text == "" {
    } else {
      var i := IndexOf(text, '\n');
      if i < |text| {
        ScannedLinesEndAtNewline(text[i + 1..]);
      }
    }
  }

  lemma {:induction false} CollectedPathsPlain(lines: seq<string>)
    requires forall ln :: ln in lines ==> '\n' !in ln
    ensures forall rel :: rel in Collect(lines) ==> Plain(rel)
  {
    if lines == [] {
    } else {
      CollectedPathsPlain(lines[..|lines| - 1]);
      ReadPathIsPlain(lines[|lines| - 1]);
    }
  }

  /** The index survives saving and loading exactly when every path in it is plain. */
  lemma RoundTripExactly(lines: seq<string>, m: map<string, FileMeta>)
    requires Covers(lines, m) && AllInRange(m)
    ensures Load(Text(lines)) == m <==> AllPlain(m)
  {
    if AllPlain(m) {
      LoadSaved(lines, m);
    } else {
      ScannedLinesEndAtNewline(Text(lines));
      CollectedPathsPlain(ScanLines(Text(lines)));
    }
  }
}
