/** The PowerShell scripts that add, remove and read virtual path rules. */
module PowerShellRules {
  import opened Strings
  import opened RuleFiles

  /** Case folding of names, for ASCII letters. */
  function Lower(c: char): char {
    if 'A' <= c <= 'Z' then c + ('a' - 'A') else c
  }

  function Fold(s: string): string {
    seq(|s|, i requires 0 <= i < |s| => Lower(s[i]))
  }

  function Parsed(line: string): Option<string> {
    Header(IsSpace, TrimSpace(line))
  }

  function Edited(line: string): Option<string> {
    Header(IsSpace, TrimRight(line))
  }

  function Target(line: string): Option<string> {
    match Assigned(IsSpace, TrimSpace(line))
    case None => None
    case Some(value) => Some(TrimSpace(value))
  }

  const PS := Dialect(Parsed, Edited, Target, Fold)

  /** A line sets a target exactly when it reads `target`, blanks, an equals sign, the value; the
      blanks around the line and the value do not count. */
  lemma TargetExactly(line: string, t: string)
    ensures Target(line) == Some(t)
       <==> exists blank, value :: TargetShape(IsSpace, TrimSpace(line), blank, value) && t == TrimSpace(value)
  {
    if Target(line) == Some(t) {
      var value := Assigned(IsSpace, TrimSpace(line)).value;
      AssignedExactly(IsSpace, TrimSpace(line), value);
      var blank :| TargetShape(IsSpace, TrimSpace(line), blank, value);
    }
    if blank, value :| TargetShape(IsSpace, TrimSpace(line), blank, value) && t == TrimSpace(value) {
      AssignedOfShape(IsSpace, TrimSpace(line), blank, value);
    }
  }

  lemma EditedIsParsed(line: string)
    requires Edited(line).Some?
    ensures Parsed(line) == Edited(line)
  {
    TrimRightEnds(line);
    assert line[0] == TrimRight(line)[0] == '[';
  }

  lemma PsCoherent()
    ensures Coherent(PS)
  {
    forall line | Edited(line).Some?
      ensures Parsed(line) == Edited(line)
    {
      EditedIsParsed(line);
    }
  }

  /** The parser sees a header that the editor misses exactly when it is indented. */
  lemma HeadersDifferExactly(line: string)
    ensures Parsed(line) != Edited(line) <==> line != "" && IsSpace(line[0]) && Parsed(line).Some?
  {
    TrimRightEnds(line);
    if line != "" && IsSpace(line[0]) {
      assert TrimRight(line) == "" || TrimRight(line)[0] == line[0];
      assert Edited(line) == None;
    }
  }

  // ---------------------------------------------------------------- reading

  ghost predicate ReadSoFar(table0: map<string, string>, lines: seq<string>, table: map<string, string>,
        curV: string, curT: string) {
    var s := Scanned(PS, lines);
    s.block.name == curV && s.block.target == curT && table == Entered(PS, table0, s.rules)
  }

  lemma ReadOne(table0: map<string, string>, lines: seq<string>, line: string, table: map<string, string>,
        curV: string, curT: string)
    requires ReadSoFar(table0, lines, table, curV, curT)
    ensures Parsed(line).Some? ==>
              ReadSoFar(table0, lines + [line], if curV != "" && curT != "" then table[Fold(curV) := curT] else table,
                        Parsed(line).value, "")
    ensures Parsed(line).None? && Target(line).Some? && curV != "" ==>
              ReadSoFar(table0, lines + [line], table, curV, Target(line).value)
    ensures Parsed(line).None? && (Target(line).None? || curV == "") ==>
              ReadSoFar(table0, lines + [line], table, curV, curT)
  {
    ScannedSnoc(PS, lines, line);
    var s := Scanned(PS, lines);
    EnteredSnoc(PS, table0, s.rules, s.block);
  }

  /** The rules of one file entered into the table. */
  method ParseFile(table0: map<string, string>, lines: seq<string>) returns (table: map<string, string>)
    ensures table == Entered(PS, table0, Rules(PS, lines))
  {
    table := table0;
    var curV, curT := "", "";
    var i := 0;
    while i < |lines|
      invariant 0 <= i <= |lines|
      invariant ReadSoFar(table0, lines[..i], table, curV, curT)
    {
      ReadOne(table0, lines[..i], lines[i], table, curV, curT);
      assert lines[..i + 1] == lines[..i] + [lines[i]];
      var line := TrimSpace(lines[i]);
      i := i + 1;
      if line == "" || line[0] == '#' || line[0] == ';' {
        continue;
      }
      var m := Header(IsSpace, line);
      if m.Some? {
        if curV != "" && curT != "" {
          table := table[Fold(curV) := curT];
        }
        curV, curT := m.value, "";
        continue;
      }
      var m2 := Assigned(IsSpace, line);
      if m2.Some? && curV != "" {
        curT := TrimSpace(m2.value);
      }
    }
    assert lines[..i] == lines;
    EnteredSnoc(PS, table0, Scanned(PS, lines).rules, Scanned(PS, lines).block);
    if curV != "" && curT != "" {
      table := table[Fold(curV) := curT];
    }
  }

  /** The table of several files, each read on its own. */
  ghost function MeaningOfAll(files: seq<seq<string>>): map<string, string> {
    if files == [] then map[]
    else Entered(PS, MeaningOfAll(files[..|files| - 1]), Rules(PS, files[|files| - 1]))
  }

  method ParseFiles(files: seq<seq<string>>) returns (rules: map<string, string>)
    ensures rules == MeaningOfAll(files)
  {
    rules := map[];
    var i := 0;
    while i < |files|
      invariant 0 <= i <= |files|
      invariant rules == MeaningOfAll(files[..i])
    {
      assert files[..i + 1][..i] == files[..i];
      rules := ParseFile(rules, files[i]);
      i := i + 1;
    }
    assert files[..i] == files;
  }

  // ---------------------------------------------------------------- names

  function TrimStartSlashes(s: string): string {
    if s != "" && (s[0] == '\\' || s[0] == '/') then TrimStartSlashes(s[1..]) else s
  }

  /** Runs of slashes become one slash. */
  function Collapse(s: string): string {
    if |s| < 2 then s
    else if s[0] == '/' && s[1] == '/' then Collapse(s[1..])
    else [s[0]] + Collapse(s[1..])
  }

  function TrimEndSlashes(s: string): string {
    if s != "" && s[|s| - 1] == '/' then TrimEndSlashes(s[..|s| - 1]) else s
  }

  function Normalized(arg: string): string {
    TrimEndSlashes(Collapse(ToSlash(TrimStartSlashes(TrimSpace(arg)))))
  }

  ghost predicate SingleSlashes(s: string) {
    forall i, j :: 0 <= i < j < |s| && j == i + 1 ==> s[i] != '/' || s[j] != '/'
  }

  /** Single slashes inside, none at the ends, no backslash. */
  ghost predicate NormalShape(s: string) {
    && '\\' !in s
    && (s != "" ==> s[0] != '/' && s[|s| - 1] != '/')
    && SingleSlashes(s)
  }

  lemma {:induction false} StartTrimmed(s: string)
    ensures var r := TrimStartSlashes(s); |r| <= |s| && (r != "" ==> r[0] != '/' && r[0] != '\\')
  {
    if s == "" {
    } else {
      StartTrimmed(s[1..]);
    }
  }

  lemma {:induction false} Collapsed(s: string)
    requires '\\' !in s
    ensures var r := Collapse(s);
            |r| <= |s| && SingleSlashes(r) && '\\' !in r && (s != "" ==> r != "" && r[0] == s[0])
  {
    if |s| >= 2 {
      Collapsed(s[1..]);
    }
  }

  lemma {:induction false} CollapseNothing(s: string)
    requires SingleSlashes(s)
    ensures Collapse(s) == s
  {
    if |s| >= 2 {
      assert SingleSlashes(s[1..]);
      CollapseNothing(s[1..]);
    }
  }

  lemma {:induction false} EndTrimmed(s: string)
    ensures var r := TrimEndSlashes(s); r <= s && (r != "" ==> r[|r| - 1] != '/')
  {
    if s == "" {
    } else {
      EndTrimmed(s[..|s| - 1]);
    }
  }

  /** A normalised name has the normal shape and is no longer than the argument without its blanks. */
  lemma NormalizedShape(arg: string)
    ensures NormalShape(Normalized(arg)) && |Normalized(arg)| <= |TrimSpace(arg)|
  {
    var a := TrimStartSlashes(TrimSpace(arg));
    StartTrimmed(TrimSpace(arg));
    var b := ToSlash(a);
    Collapsed(b);
    var c := Collapse(b);
    EndTrimmed(c);
    var r := TrimEndSlashes(c);
    if r != "" {
      assert r[0] == c[0] == b[0];
    }
  }

  lemma NormalAlready(r: string)
    requires NormalShape(r) && TrimSpace(r) == r
    ensures Normalized(r) == r
  {
    assert TrimStartSlashes(r) == r;
    assert ToSlash(r) == r;
    CollapseNothing(r);
  }

  /** Normalising again changes nothing exactly when no blank has come to an end of the name. */
  lemma NormalizeTwice(arg: string)
    ensures Normalized(Normalized(arg)) == Normalized(arg) <==> TrimSpace(Normalized(arg)) == Normalized(arg)
  {
    var r := Normalized(arg);
    NormalizedShape(arg);
    NormalizedShape(r);
    TrimSpaceShorter(r);
    if TrimSpace(r) == r {
      NormalAlready(r);
    }
  }

  // ---------------------------------------------------------------- which name it is

  /** The pieces of a path: its runs of characters between slashes. */
  function Pieces(s: string): seq<string> {
    var i := IndexOf(s, '/');
    var first := if i == 0 then [] else [s[..i]];
    if i == |s| then first else first + Pieces(s[i + 1..])
  }

  /** Pieces put together again with single slashes. */
  function Joined(pieces: seq<string>): string {
    if pieces == [] then ""
    else if |pieces| == 1 then pieces[0]
    else pieces[0] + "/" + Joined(pieces[1..])
  }

  /** The name that an argument stands for: the pieces between its slashes and backslashes. */
  function NameOf(arg: string): string {
    Joined(Pieces(ToSlash(TrimSpace(arg))))
  }

  lemma SlashFirst(s: string)
    ensures Pieces("/" + s) == Pieces(s)
  {
    assert ("/" + s)[1..] == s;
    assert IndexOf("/" + s, '/') == 0;
  }

  lemma PieceFirst(p: string, s: string)
    requires p != "" && '/' !in p
    ensures Pieces(p + "/" + s) == [p] + Pieces(s)
    ensures Pieces(p) == [p]
  {
    var t := p + "/" + s;
    assert t[..|p|] == p && t[|p| + 1..] == s;
    IndexOfAt(t, '/', |p|);
    assert IndexOf(p, '/') == |p| && p[..|p|] == p;
  }

  lemma {:induction false} SlashLast(s: string)
    ensures Pieces(s + "/") == Pieces(s)
  {
    var i := IndexOf(s, '/');
    if i == |s| {
      if s == "" {
        assert s + "/" == "/" + "";
        SlashFirst("");
      } else {
        assert s + "/" == s + "/" + "";
        PieceFirst(s, "");
      }
    } else {
      SlashLast(s[i + 1..]);
      IndexOfAt(s + "/", '/', i);
      assert (s + "/")[i + 1..] == s[i + 1..] + "/" && (s + "/")[..i] == s[..i];
    }
  }

  lemma {:induction false} TrimEndKeeps(s: string)
    ensures Pieces(TrimEndSlashes(s)) == Pieces(s)
  {
    if s != "" && s[|s| - 1] == '/' {
      TrimEndKeeps(s[..|s| - 1]);
      SlashLast(s[..|s| - 1]);
      assert s == s[..|s| - 1] + "/";
    }
  }

  lemma {:induction false} TrimStartKeeps(s: string)
    ensures Pieces(ToSlash(TrimStartSlashes(s))) == Pieces(ToSlash(s))
  {
    if s != "" && (s[0] == '\\' || s[0] == '/') {
      TrimStartKeeps(s[1..]);
      assert ToSlash(s) == "/" + ToSlash(s[1..]);
      SlashFirst(ToSlash(s[1..]));
    }
  }

  /** A character in front lengthens the first piece or is a piece of its own. */
  lemma CharFirst(c: char, s: string)
    requires c != '/'
    ensures s == "" || s[0] == '/' ==> Pieces([c] + s) == [[c]] + Pieces(s)
    ensures s != "" && s[0] != '/' ==> Pieces(s) != [] && Pieces([c] + s) == [[c] + Pieces(s)[0]] + Pieces(s)[1..]
  {
    var i, t := IndexOf(s, '/'), [c] + s;
    assert t[1..] == s;
    assert IndexOf(t, '/') == i + 1;
    assert t[..i + 1] == [c] + s[..i];
    assert i < |s| ==> t[i + 2..] == s[i + 1..];
  }

  lemma OneMoreChar(c: char, s: string, t: string)
    requires Pieces(s) == Pieces(t) && (s == "" <==> t == "") && (s != "" ==> s[0] == t[0])
    ensures Pieces([c] + s) == Pieces([c] + t)
  {
    if c == '/' {
      SlashFirst(s);
      SlashFirst(t);
    } else {
      CharFirst(c, s);
      CharFirst(c, t);
    }
  }

  lemma {:induction false} CollapseKeeps(s: string)
    requires '\\' !in s
    ensures Pieces(Collapse(s)) == Pieces(s)
  {
    if |s| >= 2 {
      CollapseKeeps(s[1..]);
      Collapsed(s[1..]);
      assert s == [s[0]] + s[1..];
      if s[0] == '/' && s[1] == '/' {
        SlashFirst(s[1..]);
      } else {
        OneMoreChar(s[0], Collapse(s[1..]), s[1..]);
      }
    }
  }

  /** A path of normal shape is its pieces, joined. */
  lemma {:induction false} NormalIsJoined(r: string)
    requires SingleSlashes(r) && (r != "" ==> r[0] != '/' && r[|r| - 1] != '/')
    ensures Joined(Pieces(r)) == r && (r != "" ==> Pieces(r) != [])
  {
    var i := IndexOf(r, '/');
    if r == "" {
    } else if i == |r| {
      PieceFirst(r, "");
    } else {
      var tail := r[i + 1..];
      assert r == r[..i] + "/" + tail;
      assert tail != "" && tail[0] != '/';
      NormalIsJoined(tail);
      PieceFirst(r[..i], tail);
      var ps := Pieces(r);
      assert ps[0] == r[..i] && ps[1..] == Pieces(tail);
    }
  }

  /** Normalising keeps the pieces of the argument, and so yields the name they make. */
  lemma NormalizedIsName(arg: string)
    ensures Pieces(Normalized(arg)) == Pieces(ToSlash(TrimSpace(arg)))
    ensures Normalized(arg) == NameOf(arg)
  {
    var t := TrimSpace(arg);
    var b := ToSlash(TrimStartSlashes(t));
    TrimStartKeeps(t);
    CollapseKeeps(b);
    TrimEndKeeps(Collapse(b));
    NormalizedShape(arg);
    NormalIsJoined(Normalized(arg));
  }

  /** Two names are the same to the scripts exactly when they differ in the case of ASCII
      letters only. */
  lemma FoldExactly(a: string, b: string)
    ensures Fold(a) == Fold(b) <==>
            |a| == |b| && forall i :: 0 <= i < |a| ==>
              || a[i] == b[i]
              || ('A' <= a[i] <= 'Z' && b[i] == a[i] + ('a' - 'A'))
              || ('A' <= b[i] <= 'Z' && a[i] == b[i] + ('a' - 'A'))
  {
    if Fold(a) == Fold(b) {
      assert |Fold(a)| == |Fold(b)|;
      forall i | 0 <= i < |a|
        ensures Lower(a[i]) == Lower(b[i])
      {
        assert Fold(a)[i] == Fold(b)[i];
      }
    }
  }

  // ---------------------------------------------------------------- removing and adding

  /** The blocks of a name removed, as both editors do it. `found` tells whether there was one. */
  method RemoveBlocks(lines: seq<string>, vpath: string) returns (out: seq<string>, found: bool)
    ensures out == Removed(PS, Fold(vpath), lines)
    ensures found <==> HasBlock(PS, Fold(vpath), lines)
    ensures !found ==> out == lines
  {
    out, found := [], false;
    var skip := false;
    var i := 0;
    while i < |lines|
      invariant 0 <= i <= |lines|
      invariant Edit(out, skip) == Editing(PS, Fold(vpath), lines[..i])
      invariant found <==> HasBlock(PS, Fold(vpath), lines[..i])
      invariant !found ==> out == lines[..i] && !skip
    {
      EditingMore(PS, Fold(vpath), lines, i);
      HasBlockSnoc(PS, Fold(vpath), lines[..i], lines[i]);
      var line := lines[i];
      i := i + 1;
      var m := Header(IsSpace, TrimRight(line));
      if m.Some? {
        if Fold(m.value) == Fold(vpath) {
          skip, found := true, true;
          continue;
        }
        if skip {
          skip := false;
        }
      }
      if !skip {
        out := out + [line];
      }
    }
    assert lines[..i] == lines;
  }

  /** The four lines that an addition appends. */
  function Appended(vpath: string, target: string, linkType: string): seq<string> {
    ["", "[vpath \"" + vpath + "\"]", "target=" + target, "type=" + linkType]
  }

  /** The file after a rule is added: its old blocks removed, a new one at the end. */
  function Upserted(vpath: string, target: string, linkType: string, lines: seq<string>): seq<string> {
    Removed(PS, Fold(vpath), lines) + Appended(vpath, target, linkType)
  }

  datatype Outcome = Died | Unchanged | Written(lines: seq<string>)

  method RemoveRule(file: Option<seq<string>>, arg: string, confirmed: bool) returns (r: Outcome)
    ensures r.Died? <==> file.None? || TrimSpace(NameOf(arg)) == "" || !confirmed
    ensures !r.Died? ==> Removed(PS, Fold(NameOf(arg)), file.value) == if r.Written? then r.lines else file.value
    ensures !r.Died? ==> (r.Written? <==> HasBlock(PS, Fold(NameOf(arg)), file.value))
  {
    NormalizedIsName(arg);
    if file.None? {
      return Died;
    }
    var vpath := Normalized(arg);
    if TrimSpace(vpath) == "" {
      return Died;
    }
    if !confirmed {
      return Died;
    }
    var out, found := RemoveBlocks(file.value, vpath);
    if !found {
      return Unchanged;
    }
    r := Written(out);
  }

  method AddRule(file: Option<seq<string>>, arg: string, target: string, linkType: string, confirmed: bool)
    returns (r: Outcome)
    ensures r.Died? <==> Fold(linkType) != "symlink" || TrimSpace(NameOf(arg)) == "" || (file.None? && !confirmed)
    ensures !r.Died?
         ==> r == Written(Removed(PS, Fold(NameOf(arg)), if file.Some? then file.value else [])
                          + ["", "[vpath \"" + NameOf(arg) + "\"]", "target=" + target, "type=" + linkType])
  {
    NormalizedIsName(arg);
    if Fold(linkType) != "symlink" {
      return Died;
    }
    var vpath := Normalized(arg);
    if TrimSpace(vpath) == "" {
      return Died;
    }
    var content := [];
    if file.Some? {
      content := file.value;
    }
    var out, _ := RemoveBlocks(content, vpath);
    out := out + [""];
    out := out + ["[vpath \"" + vpath + "\"]"];
    out := out + ["target=" + target];
    out := out + ["type=" + linkType];
    assert out == Upserted(vpath, target, linkType, content);
    if file.None? && !confirmed {
      return Died;
    }
    r := Written(out);
  }

  // ---------------------------------------------------------------- what an addition means

  lemma {:induction false} TrimCommutes(s: string)
    ensures TrimLeft(TrimRight(s)) == TrimRight(TrimLeft(s))
  {
    if s != "" && IsSpace(s[0]) {
      TrimCommutes(s[1..]);
      TrimRightCons(s);
    } else {
      TrimRightEnds(s);
    }
  }

  lemma {:induction false} TrimRightCons(s: string)
    requires s != ""
    ensures TrimRight(s) == if TrimRight(s[1..]) == "" then TrimRight([s[0]]) else [s[0]] + TrimRight(s[1..])
  {
    var n := |s|;
    if n > 1 && IsSpace(s[n - 1]) {
      assert s[1..][..n - 2] == s[..n - 1][1..];
      TrimRightCons(s[..n - 1]);
    } else if n == 1 {
      assert s == [s[0]];
    } else {
      assert s == [s[0]] + s[1..];
    }
  }

  lemma {:induction false} TrimRightAfter(p: string, s: string)
    requires p != "" && !IsSpace(p[|p| - 1])
    ensures TrimRight(p + s) == p + TrimRight(s)
  {
    if s == "" {
      assert p + s == p;
    } else {
      assert (p + s)[..|p + s| - 1] == p + s[..|s| - 1];
      TrimRightAfter(p, s[..|s| - 1]);
    }
  }

  lemma TargetLine(t: string)
    ensures Parsed("target=" + t) == None && Target("target=" + t) == Some(TrimSpace(t))
  {
    var line := "target=" + t;
    assert line[0] == 't';
    assert TrimLeft(line) == line;
    TrimRightAfter("target=", t);
    var s := "target=" + TrimRight(t);
    assert TrimSpace(line) == s;
    assert s[..6] == "target" && s[6..][0] == '=';
    assert s[6..][1..] == TrimRight(t);
    TrimCommutes(t);
    TrimTwiceRight(t);
  }

  lemma TrimTwiceRight(t: string)
    ensures TrimSpace(TrimRight(t)) == TrimSpace(t)
  {
    TrimCommutes(t);
    TrimRightEnds(TrimLeft(t));
    var r := TrimRight(TrimLeft(t));
    assert TrimRight(r) == r;
  }

  lemma QuoteInside(v: string)
    requires '"' in v
    ensures Captured(IsSpace, v + "\"]") == None
  {
    var body := v + "\"]";
    var q := IndexOf(body, '"');
    var j :| 0 <= j < |v| && v[j] == '"';
    assert body[j] == '"';
    assert q <= j;
    assert body[q + 2..][|v| - 1 - q] == ']';
  }

  lemma QuoteAfter(v: string)
    requires v != "" && '"' !in v
    ensures Captured(IsSpace, v + "\"]") == Some(v)
  {
    var body := v + "\"]";
    assert body[..|v|] == v;
    IndexOfAt(body, '"', |v|);
  }

  lemma HeaderOfBody(body: string)
    ensures Header(IsSpace, "[vpath \"" + body) == Captured(IsSpace, body)
  {
    var rest := " \"" + body;
    assert ("[vpath \"" + body)[6..] == rest;
    assert rest[..1] == " ";
    LeadingAt(IsSpace, rest, 1);
    assert rest[2..] == body;
  }

  /** The header line of a name reads back as the name exactly when the name has no quote. */
  lemma HeaderLine(v: string)
    requires v != ""
    ensures var line := "[vpath \"" + v + "\"]";
            Parsed(line) == Edited(line) == if '"' in v then None else Some(v)
  {
    var line := "[vpath \"" + v + "\"]";
    assert line == "[vpath \"" + (v + "\"]");
    assert line[0] == '[' && line[|line| - 1] == ']';
    TrimSpaceId(line);
    assert TrimRight(line) == line;
    HeaderOfBody(v + "\"]");
    if '"' in v {
      QuoteInside(v);
    } else {
      QuoteAfter(v);
    }
  }

  /** The other two lines are neither headers nor targets. */
  lemma OtherLines(ty: string)
    ensures Parsed("") == Target("") == None
    ensures Parsed("type=" + ty) == Target("type=" + ty) == None
  {
    var line := "type=" + ty;
    assert TrimLeft(line) == line;
    TrimRightAfter("type=", ty);
    assert TrimSpace(line)[0] == 't' && TrimSpace(line)[1] == 'y';
  }

  lemma AppendedOneByOne(lines: seq<string>, v: string, t: string, ty: string)
    ensures var a := Appended(v, t, ty);
            lines + a == (((lines + [a[0]]) + [a[1]]) + [a[2]]) + [a[3]]
  {
  }

  /** The parse after the four lines. A name with a quote makes no header; its target line
      then belongs to the last block of the file. */
  lemma ScannedAppended(lines: seq<string>, v: string, t: string, ty: string)
    requires v != ""
    ensures var s := Scanned(PS, lines);
            Scanned(PS, lines + Appended(v, t, ty)) ==
              if '"' !in v then Scan(s.rules + Flush(s.block), Rule(Some(Fold(v)), v, TrimSpace(t)))
              else if s.block.name != "" then s.(block := s.block.(target := TrimSpace(t)))
              else s
  {
    var a := Appended(v, t, ty);
    AppendedOneByOne(lines, v, t, ty);
    OtherLines(ty);
    HeaderLine(v);
    TargetLine(t);
    var l1 := lines + [a[0]];
    var l2 := l1 + [a[1]];
    var l3 := l2 + [a[2]];
    ScannedSnoc(PS, lines, a[0]);
    ScannedSnoc(PS, l1, a[1]);
    ScannedSnoc(PS, l2, a[2]);
    ScannedSnoc(PS, l3, a[3]);
  }

  /** The rules after an addition: those outside the removed blocks, then the new one. */
  lemma UpsertRules(lines: seq<string>, v: string, t: string, ty: string)
    requires v != "" && '"' !in v
    ensures Rules(PS, Upserted(v, t, ty, lines))
         == NotOwned(Fold(v), Rules(PS, lines)) + Flush(Rule(Some(Fold(v)), v, TrimSpace(t)))
  {
    PsCoherent();
    RemovalTakesOwned(PS, Fold(v), lines);
    ScannedAppended(Removed(PS, Fold(v), lines), v, t, ty);
  }

  ghost predicate AddsRule(v: string, t: string, ty: string) {
    forall lines :: Orderly(PS, Rules(PS, lines))
         ==> Meaning(PS, Upserted(v, t, ty, lines)) == Meaning(PS, lines)[Fold(v) := t]
  }

  lemma UpsertMeans(lines: seq<string>, v: string, t: string, ty: string)
    requires v != "" && '"' !in v && Orderly(PS, Rules(PS, lines))
    ensures Meaning(PS, Upserted(v, t, ty, lines))
         == if TrimSpace(t) == "" then Meaning(PS, lines) - {Fold(v)} else Meaning(PS, lines)[Fold(v) := TrimSpace(t)]
  {
    var k, rules := Fold(v), Rules(PS, lines);
    UpsertRules(lines, v, t, ty);
    EnteredWithout(PS, k, rules);
    EnteredSnoc(PS, map[], NotOwned(k, rules), Rule(Some(k), v, TrimSpace(t)));
    assert (Meaning(PS, lines) - {k})[k := TrimSpace(t)] == Meaning(PS, lines)[k := TrimSpace(t)];
  }

  lemma AddedToNothing(v: string, t: string, ty: string)
    requires v != ""
    ensures Rules(PS, []) == [] && Orderly(PS, Rules(PS, [])) && Meaning(PS, []) == map[]
    ensures '"' in v ==> Meaning(PS, Upserted(v, t, ty, [])) == map[]
  {
    ScannedAppended([], v, t, ty);
    assert Upserted(v, t, ty, []) == [] + Appended(v, t, ty);
  }

  /** Adding a rule maps its name to its target and changes nothing else, in every file whose
      rules stand in blocks of their own names, exactly when the name has no quote and the
      target is trimmed and not empty. */
  lemma UpsertAgreesExactly(v: string, t: string, ty: string)
    requires v != ""
    ensures AddsRule(v, t, ty) <==> '"' !in v && t == TrimSpace(t) && t != ""
  {
    if '"' !in v && t == TrimSpace(t) && t != "" {
      forall lines | Orderly(PS, Rules(PS, lines))
        ensures Meaning(PS, Upserted(v, t, ty, lines)) == Meaning(PS, lines)[Fold(v) := t]
      {
        UpsertMeans(lines, v, t, ty);
      }
    } else {
      AddedToNothing(v, t, ty);
      if '"' !in v {
        UpsertMeans([], v, t, ty);
      }
      assert map[][Fold(v) := t][Fold(v)] == t;
      assert Meaning(PS, Upserted(v, t, ty, [])) != Meaning(PS, [])[Fold(v) := t];
    }
  }

  /** A name with a quote changes the target of another rule: the last one of the file. */
  lemma QuotedNameRetargets(lines: seq<string>, v: string, t: string, ty: string)
    requires '"' in v && TrimSpace(t) != ""
    ensures var s := Scanned(PS, Removed(PS, Fold(v), lines));
            s.block.name != "" ==> Rules(PS, Upserted(v, t, ty, lines)) == s.rules + [s.block.(target := TrimSpace(t))]
  {
    ScannedAppended(Removed(PS, Fold(v), lines), v, t, ty);
  }

  /** A file without indented headers: every rule stands in a block of its own name, so
      removal and addition mean what they should. */
  lemma UnindentedOrderly(lines: seq<string>)
    requires forall line :: line in lines && line != "" && IsSpace(line[0]) ==> Parsed(line).None?
    ensures Orderly(PS, Rules(PS, lines))
    ensures forall k :: Meaning(PS, Removed(PS, k, lines)) == Meaning(PS, lines) - {k}
  {
    forall line | line in lines
      ensures Parsed(line) == Edited(line)
    {
      HeadersDifferExactly(line);
    }
    SameHeadersOrderly(PS, lines);
    PsCoherent();
    RemovalAgreesExactly(PS, lines);
  }

  lemma IndentedNotEdited(line: string)
    requires line != "" && IsSpace(line[0])
    ensures Edited(line).None?
  {
    HeadersDifferExactly(line);
    if Edited(line).Some? {
      EditedIsParsed(line);
    }
  }

  /** A rule under an indented header survives the removal of every name but that of the
      unindented header before it, its own name included. */
  lemma IndentedHeaderStays(before: seq<string>, h: string, line: string, after: seq<string>, k: string)
    requires h != "" && IsSpace(h[0]) && Parsed(h).Some?
    requires Parsed(line).None? && Target(line).Some? && Target(line).value != ""
    requires after != [] ==> Parsed(after[0]).Some?
    requires Scanned(PS, before).block.owner != Some(k)
    ensures var r := Rule(Scanned(PS, before).block.owner, Parsed(h).value, Target(line).value);
            r in Rules(PS, Removed(PS, k, before + [h] + [line] + after))
  {
    PsCoherent();
    IndentedNotEdited(h);
    UnseenHeaderStays(PS, before, h, line, after, k);
  }

  // ---------------------------------------------------------------- a directory of rule files

  /** The table of the directory is that of its files, later files overriding earlier ones. */
  lemma MeaningOfMore(files: seq<seq<string>>, file: seq<string>)
    ensures MeaningOfAll(files + [file]) == MeaningOfAll(files) + Meaning(PS, file)
  {
    assert (files + [file])[..|files|] == files;
    EnteredOver(PS, MeaningOfAll(files), Rules(PS, file));
  }

  lemma SplitLast(a: seq<seq<string>>, b: seq<seq<string>>)
    requires b != []
    ensures b == b[..|b| - 1] + [b[|b| - 1]] && a + b == (a + b[..|b| - 1]) + [b[|b| - 1]]
  {
  }

  lemma {:induction false} MeaningOfConcat(a: seq<seq<string>>, b: seq<seq<string>>)
    ensures MeaningOfAll(a + b) == MeaningOfAll(a) + MeaningOfAll(b)
  {
    if b == [] {
      assert a + b == a;
    } else {
      var init, last := b[..|b| - 1], b[|b| - 1];
      MeaningOfConcat(a, init);
      SplitLast(a, b);
      MeaningOfMore(a + init, last);
      MeaningOfMore(init, last);
      OverrideAssociates(MeaningOfAll(a), MeaningOfAll(init), Meaning(PS, last));
    }
  }

  lemma OverrideAssociates(x: map<string, string>, y: map<string, string>, z: map<string, string>)
    ensures x + (y + z) == (x + y) + z
  {
  }

  lemma OverriddenWithout(x: map<string, string>, y: map<string, string>, z: map<string, string>, k: string)
    ensures var others, edited := x + z, x + (y - {k}) + z;
            && edited - {k} == x + y + z - {k}
            && (k in edited <==> k in others)
            && (k in edited ==> edited[k] == others[k])
  {
  }

  /** Removing a name from one file of the directory, whose rules stand in blocks of their own
      names, leaves every other name as it is; the name itself is left exactly if some other
      file has it, and then means what the other files say. */
  lemma RemovalInDirectory(before: seq<seq<string>>, file: seq<string>, after: seq<seq<string>>, k: string)
    requires Orderly(PS, Rules(PS, file))
    ensures var others := MeaningOfAll(before + after);
            var edited := MeaningOfAll(before + [Removed(PS, k, file)] + after);
            && edited - {k} == MeaningOfAll(before + [file] + after) - {k}
            && (k in edited <==> k in others)
            && (k in edited ==> edited[k] == others[k])
  {
    PsCoherent();
    RemovalAgreesExactly(PS, file);
    MeaningOfMore(before, file);
    MeaningOfMore(before, Removed(PS, k, file));
    MeaningOfConcat(before, after);
    MeaningOfConcat(before + [file], after);
    MeaningOfConcat(before + [Removed(PS, k, file)], after);
    OverriddenWithout(MeaningOfAll(before), Meaning(PS, file), MeaningOfAll(after), k);
  }
}
