/** The shell scripts that remove and read virtual path rules, with their awk programs. */
module ShellRules {
  import opened Strings
  import opened RuleFiles

  predicate Blank(c: char) {
    c == ' ' || c == '\t'
  }

  predicate BlankOrCR(c: char) {
    Blank(c) || c == '\r'
  }

  predicate BlankOrBreak(c: char) {
    BlankOrCR(c) || c == '\n'
  }

  function StripEnd(drop: char -> bool, s: string): string {
    if s != "" && drop(s[|s| - 1]) then StripEnd(drop, s[..|s| - 1]) else s
  }

  function Trim(s: string): string {
    StripEnd(BlankOrBreak, s[Leading(BlankOrBreak, s)..])
  }

  /** The parser first drops blanks and carriage returns at the end of the line. */
  function Cleaned(line: string): string {
    StripEnd(BlankOrCR, line)
  }

  function Parsed(line: string): Option<string> {
    Header(Blank, Cleaned(line))
  }

  function Edited(line: string): Option<string> {
    Header(Blank, line)
  }

  function Target(line: string): Option<string> {
    match Assigned(Blank, Cleaned(line))
    case None => None
    case Some(value) => Some(Trim(value))
  }

  const SH := Dialect(Parsed, Edited, Target, Itself)

  /** A line sets a target exactly when it reads `target`, blanks, an equals sign, the value; the
      blanks at its end and around the value do not count. */
  lemma TargetExactly(line: string, t: string)
    ensures Target(line) == Some(t)
       <==> exists blank, value :: TargetShape(Blank, Cleaned(line), blank, value) && t == Trim(value)
  {
    if Target(line) == Some(t) {
      var value := Assigned(Blank, Cleaned(line)).value;
      AssignedExactly(Blank, Cleaned(line), value);
      var blank :| TargetShape(Blank, Cleaned(line), blank, value);
    }
    if blank, value :| TargetShape(Blank, Cleaned(line), blank, value) && t == Trim(value) {
      AssignedOfShape(Blank, Cleaned(line), blank, value);
    }
  }

  // ---------------------------------------------------------------- parser and editor

  lemma {:induction false} StrippedEnd(drop: char -> bool, s: string)
    ensures var r := StripEnd(drop, s); r <= s && All(drop, s[|r|..]) && (r != "" ==> !drop(r[|r| - 1]))
  {
    if s != "" && drop(s[|s| - 1]) {
      var init := s[..|s| - 1];
      StrippedEnd(drop, init);
      var r := StripEnd(drop, init);
      forall i | 0 <= i < |s| - |r|
        ensures drop(s[|r|..][i])
      {
        if |r| + i < |init| {
          assert init[|r|..][i] == s[|r|..][i];
        }
      }
    }
  }

  lemma {:induction false} StripAfter(drop: char -> bool, p: string, tail: string)
    requires p != "" && !drop(p[|p| - 1]) && All(drop, tail)
    ensures StripEnd(drop, p + tail) == p
  {
    if tail == "" {
      assert p + tail == p;
    } else {
      assert (p + tail)[..|p + tail| - 1] == p + tail[..|tail| - 1];
      StripAfter(drop, p, tail[..|tail| - 1]);
    }
  }

  /** Trimming takes away exactly the blanks and line ends at both ends. */
  lemma TrimExactly(s: string) returns (a: string, b: string)
    ensures s == a + (Trim(s) + b) && All(BlankOrBreak, a) && All(BlankOrBreak, b)
    ensures var t := Trim(s); t != "" ==> !BlankOrBreak(t[0]) && !BlankOrBreak(t[|t| - 1])
  {
    var n := Leading(BlankOrBreak, s);
    var u := s[n..];
    StrippedEnd(BlankOrBreak, u);
    a, b := s[..n], u[|Trim(s)|..];
  }

  /** The parser takes exactly the blanks and carriage returns off the end of a line. */
  lemma CleanedExactly(line: string) returns (b: string)
    ensures line == Cleaned(line) + b && All(BlankOrCR, b)
    ensures var t := Cleaned(line); t != "" ==> !BlankOrCR(t[|t| - 1])
  {
    StrippedEnd(BlankOrCR, line);
    b := line[|Cleaned(line)|..];
  }

  lemma HeaderWithoutTail(blank: string, name: string, tail: string)
    requires All(BlankOrCR, tail)
    ensures Cleaned(VPATH + (blank + ("\"" + (name + ("\"]" + tail)))))
         == VPATH + (blank + ("\"" + (name + ("\"]" + ""))))
  {
    var p := VPATH + (blank + ("\"" + (name + ("\"]" + ""))));
    assert VPATH + (blank + ("\"" + (name + ("\"]" + tail)))) == p + tail;
    StripAfter(BlankOrCR, p, tail);
  }

  lemma EditedIsParsed(line: string)
    requires Edited(line).Some?
    ensures Parsed(line) == Edited(line)
  {
    var blank, tail := ShapeOfHeader(Blank, line);
    var name := Edited(line).value;
    HeaderWithoutTail(blank, name, tail);
    HeaderOfShape(Blank, Cleaned(line), blank, name, "");
  }

  lemma ShCoherent()
    ensures Coherent(SH)
  {
    forall line | Edited(line).Some?
      ensures Parsed(line) == Edited(line)
    {
      EditedIsParsed(line);
    }
  }

  lemma ExtendTail(blank: string, name: string, tail: string, more: string)
    ensures (VPATH + (blank + ("\"" + (name + ("\"]" + tail))))) + more
         == VPATH + (blank + ("\"" + (name + ("\"]" + (tail + more)))))
  {
  }

  /** Without a carriage return the editor sees every header that the parser sees. */
  lemma NoReturnSameHeader(line: string)
    requires '\r' !in line
    ensures Parsed(line) == Edited(line)
  {
    if Edited(line).Some? {
      EditedIsParsed(line);
    } else if Parsed(line).Some? {
      var more := EndBlanks(line);
      HeaderBeforeBlanks(Cleaned(line), more);
    }
  }

  lemma EndBlanks(line: string) returns (more: string)
    requires '\r' !in line
    ensures line == Cleaned(line) + more && All(Blank, more)
  {
    StrippedEnd(BlankOrCR, line);
    more := line[|Cleaned(line)|..];
    assert forall i :: 0 <= i < |more| ==> more[i] in line;
  }

  lemma HeaderBeforeBlanks(clean: string, more: string)
    requires Header(Blank, clean).Some? && All(Blank, more)
    ensures Header(Blank, clean + more) == Header(Blank, clean)
  {
    var name := Header(Blank, clean).value;
    var blank, tail := ShapeOfHeader(Blank, clean);
    ExtendTail(blank, name, tail, more);
    HeaderOfShape(Blank, clean + more, blank, name, tail + more);
  }

  /** In a file without carriage returns every rule stands in a block of its own name, so that
      removing a name takes it, and nothing else, out of the file's meaning. */
  lemma NoReturnOrderly(lines: seq<string>)
    requires forall line :: line in lines ==> '\r' !in line
    ensures Orderly(SH, Rules(SH, lines))
    ensures forall k :: Meaning(SH, Removed(SH, k, lines)) == Meaning(SH, lines) - {k}
  {
    forall line | line in lines
      ensures Parsed(line) == Edited(line)
    {
      NoReturnSameHeader(line);
    }
    SameHeadersOrderly(SH, lines);
    ShCoherent();
    RemovalAgreesExactly(SH, lines);
  }

  /** A rule under a header that ends in a carriage return survives the removal of every name
      but that of the last header before it that the editor sees, its own name included. */
  lemma ReturnHidesHeader(before: seq<string>, h: string, line: string, after: seq<string>, k: string)
    requires h != "" && h[|h| - 1] == '\r' && Parsed(h).Some?
    requires Parsed(line).None? && Target(line).Some? && Target(line).value != ""
    requires after != [] ==> Parsed(after[0]).Some?
    requires Scanned(SH, before).block.owner != Some(k)
    ensures var r := Rule(Scanned(SH, before).block.owner, Parsed(h).value, Target(line).value);
            r in Rules(SH, Removed(SH, k, before + [h] + [line] + after))
  {
    ShCoherent();
    if Edited(h).Some? {
      EndsAfterReturn(h);
    }
    UnseenHeaderStays(SH, before, h, line, after, k);
  }

  lemma EndsAfterReturn(h: string)
    requires Edited(h).Some?
    ensures h != "" && h[|h| - 1] != '\r'
  {
    var blank, tail := ShapeOfHeader(Blank, h);
    assert h[|h| - 1] == if tail == "" then ']' else tail[|tail| - 1];
  }

  // ---------------------------------------------------------------- the awk programs

  /** The line printed for a rule. */
  function LineOfRule(r: Rule): string {
    r.name + "|" + r.target
  }

  function RuleLines(rules: seq<Rule>): (r: seq<string>)
    ensures |r| == |rules|
  {
    seq(|rules|, i requires 0 <= i < |rules| => LineOfRule(rules[i]))
  }

  ghost predicate ReadSoFar(lines: seq<string>, out: seq<string>, vpath: string, target: string) {
    var s := Scanned(SH, lines);
    s.block.name == vpath && s.block.target == target && out == RuleLines(s.rules)
  }

  lemma FlushLines(rules: seq<Rule>, block: Rule)
    ensures RuleLines(rules + Flush(block))
         == if block.name != "" && block.target != "" then RuleLines(rules) + [LineOfRule(block)] else RuleLines(rules)
  {
    assert RuleLines(rules + [block]) == RuleLines(rules) + [LineOfRule(block)];
    assert rules + [] == rules;
  }

  lemma CommentHasNoRule(line: string)
    ensures var c := Cleaned(line); var n := Leading(Blank, c);
            n == |c| || c[n] == '#' || c[n] == ';' ==> Parsed(line).None? && Target(line).None?
  {
    var c := Cleaned(line);
    assert VPATH[0] == '[';
  }

  lemma ReadOne(lines: seq<string>, line: string, out: seq<string>, vpath: string, target: string)
    requires ReadSoFar(lines, out, vpath, target)
    ensures Parsed(line).Some? ==>
              ReadSoFar(lines + [line], if vpath != "" && target != "" then out + [vpath + "|" + target] else out,
                        Parsed(line).value, "")
    ensures Parsed(line).None? && Target(line).Some? && vpath != "" ==>
              ReadSoFar(lines + [line], out, vpath, Target(line).value)
    ensures Parsed(line).None? && (Target(line).None? || vpath == "") ==> ReadSoFar(lines + [line], out, vpath, target)
  {
    ScannedSnoc(SH, lines, line);
    FlushLines(Scanned(SH, lines).rules, Scanned(SH, lines).block);
  }

  /** The parser: a line of output for each finished block. */
  method ParseLines(lines: seq<string>) returns (out: seq<string>)
    ensures out == RuleLines(Rules(SH, lines))
  {
    out := [];
    var vpath, target := "", "";
    var i := 0;
    while i < |lines|
      invariant 0 <= i <= |lines|
      invariant ReadSoFar(lines[..i], out, vpath, target)
    {
      ReadOne(lines[..i], lines[i], out, vpath, target);
      CommentHasNoRule(lines[i]);
      assert lines[..i + 1] == lines[..i] + [lines[i]];
      var line := StripEnd(BlankOrCR, lines[i]);
      i := i + 1;
      var n := Leading(Blank, line);
      if n == |line| || line[n] == '#' || line[n] == ';' {
        continue;
      }
      var m := Header(Blank, line);
      if m.Some? {
        if vpath != "" && target != "" {
          out := out + [vpath + "|" + target];
        }
        vpath, target := m.value, "";
        continue;
      }
      if vpath != "" {
        var m2 := Assigned(Blank, line);
        if m2.Some? {
          target := Trim(m2.value);
        }
      }
    }
    assert lines[..i] == lines;
    FlushLines(Scanned(SH, lines).rules, Scanned(SH, lines).block);
    if vpath != "" && target != "" {
      out := out + [vpath + "|" + target];
    }
  }

  /** The editor: the lines outside the blocks of `vp`; status 3 when there is no such block. */
  method RemoveBlocks(lines: seq<string>, vp: string) returns (out: seq<string>, status: int)
    ensures out == Removed(SH, vp, lines)
    ensures status == 3 ==> out == lines
    ensures status == if HasBlock(SH, vp, lines) then 0 else 3
  {
    var skip, removed := false, false;
    out := [];
    var i := 0;
    while i < |lines|
      invariant 0 <= i <= |lines|
      invariant Edit(out, skip) == Editing(SH, vp, lines[..i])
      invariant removed <==> HasBlock(SH, vp, lines[..i])
      invariant !removed ==> out == lines[..i] && !skip
    {
      EditingMore(SH, vp, lines, i);
      HasBlockSnoc(SH, vp, lines[..i], lines[i]);
      var line := lines[i];
      i := i + 1;
      var m := Header(Blank, line);
      if m.Some? && m.value == vp {
        skip, removed := true, true;
        continue;
      }
      if skip && m.Some? {
        skip := false;
      }
      if !skip {
        out := out + [line];
      }
    }
    assert lines[..i] == lines;
    status := if removed then 0 else 3;
  }

  // ---------------------------------------------------------------- the last rule for a name wins

  /** The first field of a line, up to a bar. */
  function Field(line: string): string {
    line[..IndexOf(line, '|')]
  }

  function Fields(lines: seq<string>): set<string> {
    set line | line in lines :: Field(line)
  }

  function Reversed(s: seq<string>): (r: seq<string>)
    ensures |r| == |s|
  {
    seq(|s|, i requires 0 <= i < |s| => s[|s| - 1 - i])
  }

  /** The lines whose first field no later line has. */
  function KeepLast(lines: seq<string>): seq<string> {
    if lines == [] then []
    else if Field(lines[0]) in Fields(lines[1..]) then KeepLast(lines[1..])
    else [lines[0]] + KeepLast(lines[1..])
  }

  /** Store the lines, then print them from the last to the first. */
  method Backwards(lines: seq<string>) returns (out: seq<string>)
    ensures out == Reversed(lines)
  {
    out := [];
    var i := |lines|;
    while i >= 1
      invariant 0 <= i <= |lines|
      invariant out == Reversed(lines[i..])
    {
      assert Reversed(lines[i - 1..]) == Reversed(lines[i..]) + [lines[i - 1]];
      out := out + [lines[i - 1]];
      i := i - 1;
    }
    assert lines[0..] == lines;
  }

  /** Lines of a reversed list from which those with a field seen before are dropped. */
  lemma KeepOneMore(lines: seq<string>, n: nat)
    requires 0 < n <= |lines|
    ensures var line := lines[n - 1];
            && Fields(lines[n - 1..]) == Fields(lines[n..]) + {Field(line)}
            && Reversed(KeepLast(lines[n - 1..]))
               == if Field(line) in Fields(lines[n..]) then Reversed(KeepLast(lines[n..]))
                  else Reversed(KeepLast(lines[n..])) + [line]
  {
    var s := lines[n - 1..];
    assert s[1..] == lines[n..] && s == [s[0]] + s[1..];
    assert forall x :: x in s <==> x == s[0] || x in s[1..];
    var rest := KeepLast(s[1..]);
    assert Reversed([s[0]] + rest) == Reversed(rest) + [s[0]];
  }

  /** Keep each line whose first field has not been seen. */
  method FirstOfEachField(lines: seq<string>, ghost forwards: seq<string>) returns (out: seq<string>)
    requires lines == Reversed(forwards)
    ensures out == Reversed(KeepLast(forwards))
  {
    out := [];
    var seen: set<string> := {};
    var i := 0;
    while i < |lines|
      invariant 0 <= i <= |lines|
      invariant seen == Fields(forwards[|forwards| - i..])
      invariant out == Reversed(KeepLast(forwards[|forwards| - i..]))
    {
      KeepOneMore(forwards, |forwards| - i);
      if Field(lines[i]) !in seen {
        out := out + [lines[i]];
      }
      seen := seen + {Field(lines[i])};
      i := i + 1;
    }
    assert forwards[0..] == forwards;
  }

  /** Reverse, keep the first line of each field, reverse back: the last line of each field. */
  method Normalize(lines: seq<string>) returns (out: seq<string>)
    ensures out == KeepLast(lines)
  {
    var backwards := Backwards(lines);
    var firsts := FirstOfEachField(backwards, lines);
    out := Backwards(firsts);
    assert Reversed(Reversed(KeepLast(lines))) == KeepLast(lines);
  }

  ghost function Names(rules: seq<Rule>): set<string> {
    set r | r in rules :: r.name
  }

  /** The rules whose name no later rule has, in order: each name where it occurs last. */
  ghost function LastOf(rules: seq<Rule>): seq<Rule> {
    if rules == [] then []
    else if rules[0].name in Names(rules[1..]) then LastOf(rules[1..])
    else [rules[0]] + LastOf(rules[1..])
  }

  lemma NamesConcat(a: seq<Rule>, b: seq<Rule>)
    ensures Names(a + b) == Names(a) + Names(b)
  {
    assert forall r :: r in a + b <==> r in a || r in b;
  }

  lemma NamesOne(r: Rule)
    ensures Names([r]) == {r.name}
  {
  }

  lemma {:induction false} EnteredNames(rules: seq<Rule>)
    ensures Entered(SH, map[], rules).Keys == Names(rules)
  {
    if rules == [] {
    } else {
      var init, last := rules[..|rules| - 1], rules[|rules| - 1];
      EnteredNames(init);
      assert rules == init + [last];
      NamesConcat(init, [last]);
      NamesOne(last);
    }
  }

  lemma EnteredFirst(rules: seq<Rule>)
    requires rules != []
    ensures Entered(SH, map[], rules) == map[rules[0].name := rules[0].target] + Entered(SH, map[], rules[1..])
  {
    var r := rules[0];
    EnteredConcat(SH, map[], [r], rules[1..]);
    assert rules == [r] + rules[1..];
    EnteredSnoc(SH, map[], [], r);
    assert [] + [r] == [r];
    EnteredOver(SH, map[r.name := r.target], rules[1..]);
  }

  lemma FirstAndRest(rules: seq<Rule>)
    requires rules != []
    ensures Names(rules) == {rules[0].name} + Names(rules[1..])
  {
    NamesOne(rules[0]);
    NamesConcat([rules[0]], rules[1..]);
    assert rules == [rules[0]] + rules[1..];
  }

  ghost predicate OncePerName(rules: seq<Rule>) {
    forall i, j :: 0 <= i < j < |rules| ==> rules[i].name != rules[j].name
  }

  /** The last rules have the names of all rules, each once. */
  lemma {:induction false} LastOfNames(rules: seq<Rule>)
    ensures Names(LastOf(rules)) == Names(rules) && OncePerName(LastOf(rules))
  {
    if rules == [] {
    } else {
      var r, rest := rules[0], rules[1..];
      LastOfNames(rest);
      FirstAndRest(rules);
      if r.name !in Names(rest) {
        FirstAndRest([r] + LastOf(rest));
        assert ([r] + LastOf(rest))[1..] == LastOf(rest);
        forall q | q in LastOf(rest)
          ensures q.name != r.name
        {
          assert q.name in Names(LastOf(rest));
        }
      }
    }
  }

  /** Keeping the last rule of each name keeps the meaning. */
  lemma {:induction false} LastOfMeans(rules: seq<Rule>)
    ensures Entered(SH, map[], LastOf(rules)) == Entered(SH, map[], rules)
  {
    if rules == [] {
    } else {
      var r, rest := rules[0], rules[1..];
      LastOfMeans(rest);
      EnteredFirst(rules);
      if r.name in Names(rest) {
        EnteredNames(rest);
        assert r.name in Entered(SH, map[], rest);
      } else {
        EnteredFirst([r] + LastOf(rest));
        assert ([r] + LastOf(rest))[1..] == LastOf(rest);
      }
    }
  }

  // ---------------------------------------------------------------- bars in names

  /** The first field of a rule's line. */
  ghost function FieldOf(r: Rule): string {
    Field(LineOfRule(r))
  }

  /** Different names have different first fields. */
  ghost predicate Apart(rules: seq<Rule>) {
    forall r, q :: r in rules && q in rules && FieldOf(r) == FieldOf(q) ==> r.name == q.name
  }

  lemma {:induction false} IndexOfPrefix(a: string, b: string, c: char)
    ensures IndexOf(a + [c] + b, c) == IndexOf(a, c)
  {
    var s := a + [c] + b;
    var i := IndexOf(a, c);
    assert forall j :: 0 <= j < |a| ==> s[j] == a[j];
    assert c !in s[..i];
    IndexOfAt(s, c, i);
  }

  lemma FieldIsName(r: Rule)
    ensures FieldOf(r) == r.name[..IndexOf(r.name, '|')]
    ensures '|' !in r.name ==> FieldOf(r) == r.name
  {
    IndexOfPrefix(r.name, r.target, '|');
    var i := IndexOf(r.name, '|');
    assert LineOfRule(r)[..i] == r.name[..i];
  }

  lemma SameNameSameField(r: Rule, q: Rule)
    requires r.name == q.name
    ensures FieldOf(r) == FieldOf(q)
  {
    FieldIsName(r);
    FieldIsName(q);
  }

  lemma FieldsOfRules(rules: seq<Rule>, f: string)
    ensures f in Fields(RuleLines(rules)) <==> exists r :: r in rules && FieldOf(r) == f
  {
    if f in Fields(RuleLines(rules)) {
      var line :| line in RuleLines(rules) && Field(line) == f;
      var i :| 0 <= i < |rules| && RuleLines(rules)[i] == line;
      assert rules[i] in rules;
    }
    if r :| r in rules && FieldOf(r) == f {
      var i :| 0 <= i < |rules| && rules[i] == r;
      assert RuleLines(rules)[i] in RuleLines(rules);
    }
  }

  /** The first rule's field comes back later if its name does. */
  lemma FirstComesBack(rules: seq<Rule>)
    requires rules != []
    ensures var r, rest := rules[0], rules[1..];
            && (r.name in Names(rest) ==> Field(LineOfRule(r)) in Fields(RuleLines(rest)))
            && (Apart(rules) && Field(LineOfRule(r)) in Fields(RuleLines(rest)) ==> r.name in Names(rest))
  {
    var r, rest := rules[0], rules[1..];
    FieldsOfRules(rest, FieldOf(r));
    if r.name in Names(rest) {
      var q :| q in rest && q.name == r.name;
      SameNameSameField(r, q);
    }
    if Apart(rules) && FieldOf(r) in Fields(RuleLines(rest)) {
      var q :| q in rest && FieldOf(q) == FieldOf(r);
      assert q in rules && r in rules;
    }
  }

  lemma {:induction false} ApartFromFirst(rules: seq<Rule>)
    requires rules != [] && Apart(rules[1..])
    requires rules[0].name in Names(rules[1..]) || Field(LineOfRule(rules[0])) !in Fields(RuleLines(rules[1..]))
    ensures Apart(rules)
  {
    var r, rest := rules[0], rules[1..];
    FieldsOfRules(rest, FieldOf(r));
    if r.name in Names(rest) {
      var p :| p in rest && p.name == r.name;
      SameNameSameField(p, r);
    }
    assert forall q :: q in rules ==> q == r || q in rest;
  }

  lemma LinesOfCons(r: Rule, rest: seq<Rule>)
    ensures RuleLines([r] + rest) == [LineOfRule(r)] + RuleLines(rest)
  {
  }

  lemma KeepLastFirst(rules: seq<Rule>)
    requires rules != []
    ensures var r, rest := rules[0], RuleLines(rules[1..]);
            KeepLast(RuleLines(rules))
              == if Field(LineOfRule(r)) in Fields(rest) then KeepLast(rest) else [LineOfRule(r)] + KeepLast(rest)
  {
    assert RuleLines(rules)[1..] == RuleLines(rules[1..]);
  }

  /** Dropping by first fields does what dropping by names does, if first fields tell the names apart. */
  lemma {:induction false} KeepLastWhenApart(rules: seq<Rule>)
    requires Apart(rules)
    ensures KeepLast(RuleLines(rules)) == RuleLines(LastOf(rules))
  {
    if rules == [] {
    } else {
      var r, rest := rules[0], rules[1..];
      assert forall q :: q in rest ==> q in rules;
      KeepLastWhenApart(rest);
      FirstComesBack(rules);
      KeepLastFirst(rules);
      LinesOfCons(r, LastOf(rest));
    }
  }

  /** Otherwise it keeps fewer lines. */
  lemma {:induction false} KeepLastCounts(rules: seq<Rule>)
    ensures |KeepLast(RuleLines(rules))| <= |LastOf(rules)|
    ensures |KeepLast(RuleLines(rules))| == |LastOf(rules)| ==> Apart(rules)
  {
    if rules == [] {
    } else {
      KeepLastCounts(rules[1..]);
      FirstComesBack(rules);
      KeepLastFirst(rules);
      if |KeepLast(RuleLines(rules))| == |LastOf(rules)| {
        ApartFromFirst(rules);
      }
    }
  }

  /** The shell's normalisation keeps exactly the last rule of each name, in the order of the
      last occurrences, if and only if first fields tell the names apart. */
  lemma NormalizedIsLastExactly(rules: seq<Rule>)
    ensures KeepLast(RuleLines(rules)) == RuleLines(LastOf(rules)) <==> Apart(rules)
  {
    KeepLastCounts(rules);
    if Apart(rules) {
      KeepLastWhenApart(rules);
    }
  }

  /** So it does when no name contains a bar. */
  lemma BarFreeApart(rules: seq<Rule>)
    requires forall r :: r in rules ==> '|' !in r.name
    ensures Apart(rules)
  {
    forall r, q | r in rules && q in rules && FieldOf(r) == FieldOf(q)
      ensures r.name == q.name
    {
      FieldIsName(r);
      FieldIsName(q);
    }
  }

  /** Two names that agree up to their first bars clash, in whatever list of rules they occur:
      of the last rules for each name some are lost, and of all lines with that first field only
      the last one is kept. */
  lemma BarNamesClash(rules: seq<Rule>, r: Rule, q: Rule)
    requires r in rules && q in rules && r.name != q.name
    requires r.name[..IndexOf(r.name, '|')] == q.name[..IndexOf(q.name, '|')]
    ensures |KeepLast(RuleLines(rules))| < |LastOf(rules)|
    ensures var kept := KeepLast(RuleLines(rules));
            LineOfRule(r) in kept && LineOfRule(q) in kept ==> LineOfRule(r) == LineOfRule(q)
  {
    FieldIsName(r);
    FieldIsName(q);
    KeepLastCounts(rules);
    OncePerField(RuleLines(rules));
  }

  lemma FieldsCons(line: string, rest: seq<string>)
    ensures Fields([line] + rest) == {Field(line)} + Fields(rest)
  {
    assert forall x :: x in [line] + rest <==> x == line || x in rest;
  }

  lemma {:induction false} KeptFields(lines: seq<string>)
    ensures Fields(KeepLast(lines)) == Fields(lines)
  {
    if lines == [] {
    } else {
      KeptFields(lines[1..]);
      FieldsCons(lines[0], lines[1..]);
      FieldsCons(lines[0], KeepLast(lines[1..]));
      assert lines == [lines[0]] + lines[1..];
    }
  }

  /** No two lines that are kept share their first field. */
  lemma {:induction false} OncePerField(lines: seq<string>)
    ensures forall x, y :: x in KeepLast(lines) && y in KeepLast(lines) && Field(x) == Field(y) ==> x == y
  {
    if lines == [] {
    } else {
      OncePerField(lines[1..]);
      KeptFields(lines[1..]);
    }
  }
}
