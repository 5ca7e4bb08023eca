/** Files of virtual path rules. Each script has its own reading of a line; what all of them
    share is stated for an arbitrary dialect. */
module RuleFiles {
  import opened Strings
  import Lists

  datatype Option<T> = None | Some(value: T)

  /** How one family of scripts reads a line: the name in a header as the parser and as the
      editor see it, the target a line sets, and what makes two names the same. */
  datatype Dialect = Dialect(
    parsed: string -> Option<string>,
    edited: string -> Option<string>,
    target: string -> Option<string>,
    key: string -> string)

  /** What the editor takes for a header the parser takes for the same header. */
  ghost predicate Coherent(d: Dialect) {
    && (forall line :: d.edited(line).Some? ==> d.parsed(line) == d.edited(line))
    && (forall line :: d.parsed(line).Some? ==> d.parsed(line).value != "")
  }

  // ---------------------------------------------------------------- the two patterns

  function Leading(space: char -> bool, s: string): (n: nat)
    ensures n <= |s|
    ensures forall i :: 0 <= i < n ==> space(s[i])
    ensures n < |s| ==> !space(s[n])
  {
    if s == "" || !space(s[0]) then 0 else 1 + Leading(space, s[1..])
  }

  predicate All(space: char -> bool, s: string) {
    forall i :: 0 <= i < |s| ==> space(s[i])
  }

  const VPATH := "[vpath"

  /** The name in a header: `[vpath`, blanks, a quoted name, a bracket, blanks. */
  function Header(space: char -> bool, line: string): Option<string> {
    if VPATH <= line then AfterWord(space, line[|VPATH|..]) else None
  }

  /** What follows the first word. */
  function AfterWord(space: char -> bool, rest: string): Option<string> {
    var n := Leading(space, rest);
    if n == 0 || n == |rest| || rest[n] != '"' then None else Captured(space, rest[n + 1..])
  }

  /** What follows the opening quote. */
  function Captured(space: char -> bool, body: string): Option<string> {
    var q := IndexOf(body, '"');
    if q == 0 || q + 1 >= |body| || body[q + 1] != ']' || !All(space, body[q + 2..]) then None
    else Some(body[..q])
  }

  /** What follows the equals sign of a target line. */
  function Assigned(space: char -> bool, line: string): Option<string> {
    if !("target" <= line) then None
    else
      var rest := line[6..];
      var n := Leading(space, rest);
      if n < |rest| && rest[n] == '=' then Some(rest[n + 1..]) else None
  }

  ghost predicate HeaderShape(space: char -> bool, line: string, blank: string, name: string, tail: string) {
    && line == VPATH + (blank + ("\"" + (name + ("\"]" + tail))))
    && blank != "" && All(space, blank) && All(space, tail)
    && name != "" && '"' !in name
  }

  lemma LeadingAt(space: char -> bool, s: string, n: nat)
    requires n < |s| && All(space, s[..n]) && !space(s[n])
    ensures Leading(space, s) == n
  {
    var m := Leading(space, s);
    assert forall i :: 0 <= i < n ==> s[..n][i] == s[i];
  }

  lemma HeaderOfShape(space: char -> bool, line: string, blank: string, name: string, tail: string)
    requires !space('"') && HeaderShape(space, line, blank, name, tail)
    ensures Header(space, line) == Some(name)
  {
    assert line[..|VPATH|] == VPATH;
    var rest := line[|VPATH|..];
    assert rest == blank + ("\"" + (name + ("\"]" + tail)));
    assert rest[..|blank|] == blank;
    LeadingAt(space, rest, |blank|);
    assert rest[|blank| + 1..] == name + ("\"]" + tail);
    CapturedOfShape(space, name, tail);
  }

  lemma CapturedOfShape(space: char -> bool, name: string, tail: string)
    requires name != "" && '"' !in name && All(space, tail)
    ensures Captured(space, name + ("\"]" + tail)) == Some(name)
  {
    var body := name + ("\"]" + tail);
    assert body[..|name|] == name && body[|name|] == '"' && body[|name| + 2..] == tail;
    IndexOfAt(body, '"', |name|);
  }

  lemma Cut(s: string, i: nat, c: char)
    requires i < |s| && s[i] == c
    ensures s == s[..i] + ([c] + s[i + 1..])
  {
  }

  lemma CutBracket(s: string)
    requires s != "" && s[0] == ']'
    ensures "\"]" + s[1..] == ['"'] + s
  {
  }

  lemma BodyShape(space: char -> bool, body: string) returns (tail: string)
    requires Captured(space, body).Some?
    ensures var name := Captured(space, body).value;
            body == name + ("\"]" + tail) && All(space, tail) && name != "" && '"' !in name
  {
    var q := IndexOf(body, '"');
    tail := body[q + 2..];
    Cut(body, q, '"');
    CutBracket(body[q + 1..]);
    assert body[q + 1..][1..] == tail;
  }

  lemma CutPrefix(line: string, word: string)
    requires word <= line
    ensures line == word + line[|word|..]
  {
  }

  lemma RestShape(space: char -> bool, rest: string, n: nat) returns (tail: string)
    requires n < |rest| && rest[n] == '"' && Captured(space, rest[n + 1..]).Some?
    ensures var name := Captured(space, rest[n + 1..]).value;
            && rest == rest[..n] + ("\"" + (name + ("\"]" + tail)))
            && All(space, tail) && name != "" && '"' !in name
  {
    tail := BodyShape(space, rest[n + 1..]);
    Cut(rest, n, '"');
  }

  lemma ShapeOfHeader(space: char -> bool, line: string) returns (blank: string, tail: string)
    requires Header(space, line).Some?
    ensures HeaderShape(space, line, blank, Header(space, line).value, tail)
  {
    var rest := line[|VPATH|..];
    blank, tail := RestOfHeader(space, rest);
    CutPrefix(line, VPATH);
  }

  lemma RestOfHeader(space: char -> bool, rest: string) returns (blank: string, tail: string)
    requires AfterWord(space, rest).Some?
    ensures var name := AfterWord(space, rest).value;
            && rest == blank + ("\"" + (name + ("\"]" + tail)))
            && blank != "" && All(space, blank) && All(space, tail) && name != "" && '"' !in name
  {
    var n := Leading(space, rest);
    blank := rest[..n];
    tail := RestShape(space, rest, n);
  }

  /** The reader finds exactly the names that the pattern `^\[vpath\s+"([^"]+)"\]\s*$` captures. */
  lemma HeaderExactly(space: char -> bool, line: string, name: string)
    requires !space('"')
    ensures Header(space, line) == Some(name) <==> exists blank, tail :: HeaderShape(space, line, blank, name, tail)
  {
    if Header(space, line) == Some(name) {
      var blank, tail := ShapeOfHeader(space, line);
    }
    if blank, tail :| HeaderShape(space, line, blank, name, tail) {
      HeaderOfShape(space, line, blank, name, tail);
    }
  }

  ghost predicate TargetShape(space: char -> bool, line: string, blank: string, value: string) {
    line == "target" + (blank + ("=" + value)) && All(space, blank)
  }

  /** The reader of target lines finds exactly what the pattern `^target\s*=(.*)$` captures. */
  lemma AssignedExactly(space: char -> bool, line: string, value: string)
    requires !space('=')
    ensures Assigned(space, line) == Some(value) <==> exists blank :: TargetShape(space, line, blank, value)
  {
    if Assigned(space, line) == Some(value) {
      var rest := line[6..];
      var n := Leading(space, rest);
      CutPrefix(line, "target");
      Cut(rest, n, '=');
      assert TargetShape(space, line, rest[..n], value);
    }
    if blank :| TargetShape(space, line, blank, value) {
      AssignedOfShape(space, line, blank, value);
    }
  }

  lemma AssignedOfShape(space: char -> bool, line: string, blank: string, value: string)
    requires !space('=') && TargetShape(space, line, blank, value)
    ensures Assigned(space, line) == Some(value)
  {
    var rest := blank + ("=" + value);
    assert line[..6] == "target" && line[6..] == rest;
    assert rest[..|blank|] == blank && rest[|blank| + 1..] == value;
    LeadingAt(space, rest, |blank|);
  }

  // ---------------------------------------------------------------- parsing

  /** A rule, with the key of the last header before it that the editor sees. */
  datatype Rule = Rule(owner: Option<string>, name: string, target: string)

  /** The parser's state: the rules so far and the block being read, nameless before any header. */
  datatype Scan = Scan(rules: seq<Rule>, block: Rule)

  const START := Scan([], Rule(None, "", ""))

  /** A block counts when it has a name and a target. */
  function Flush(block: Rule): seq<Rule> {
    if block.name != "" && block.target != "" then [block] else []
  }

  function ReadLine(d: Dialect, s: Scan, line: string): Scan {
    if d.parsed(line).Some? then
      var owner := if d.edited(line).Some? then Some(d.key(d.edited(line).value)) else s.block.owner;
      Scan(s.rules + Flush(s.block), Rule(owner, d.parsed(line).value, ""))
    else if d.target(line).Some? && s.block.name != "" then
      s.(block := s.block.(target := d.target(line).value))
    else s
  }

  function Read(d: Dialect, s: Scan, lines: seq<string>): Scan {
    if lines == [] then s else ReadLine(d, Read(d, s, lines[..|lines| - 1]), lines[|lines| - 1])
  }

  function Scanned(d: Dialect, lines: seq<string>): Scan {
    Read(d, START, lines)
  }

  /** The rules of a file, in order. */
  function Rules(d: Dialect, lines: seq<string>): seq<Rule> {
    Scanned(d, lines).rules + Flush(Scanned(d, lines).block)
  }

  /** Rules entered into a table, later ones overriding earlier ones. */
  function Entered(d: Dialect, table: map<string, string>, rules: seq<Rule>): map<string, string> {
    if rules == [] then table
    else Entered(d, table, rules[..|rules| - 1])[d.key(rules[|rules| - 1].name) := rules[|rules| - 1].target]
  }

  /** What a file means. */
  function Meaning(d: Dialect, lines: seq<string>): map<string, string> {
    Entered(d, map[], Rules(d, lines))
  }

  lemma EnteredSnoc(d: Dialect, table: map<string, string>, rules: seq<Rule>, r: Rule)
    ensures Entered(d, table, rules + [r]) == Entered(d, table, rules)[d.key(r.name) := r.target]
    ensures rules + [] == rules
  {
    assert (rules + [r])[..|rules|] == rules;
  }

  lemma {:induction false} EnteredConcat(d: Dialect, table: map<string, string>, a: seq<Rule>, b: seq<Rule>)
    ensures Entered(d, table, a + b) == Entered(d, Entered(d, table, a), b)
  {
    if b == [] {
      assert a + b == a;
    } else {
      EnteredConcat(d, table, a, b[..|b| - 1]);
      Lists.InitOfConcat(a, b);
    }
  }

  lemma {:induction false} EnteredOver(d: Dialect, table: map<string, string>, rules: seq<Rule>)
    ensures Entered(d, table, rules) == table + Entered(d, map[], rules)
  {
    if rules == [] {
    } else {
      EnteredOver(d, table, rules[..|rules| - 1]);
    }
  }

  lemma ReadSnoc(d: Dialect, s: Scan, lines: seq<string>, line: string)
    ensures Read(d, s, lines + [line]) == ReadLine(d, Read(d, s, lines), line)
  {
    assert (lines + [line])[..|lines|] == lines;
  }

  lemma ScannedSnoc(d: Dialect, lines: seq<string>, line: string)
    ensures Scanned(d, lines + [line]) == ReadLine(d, Scanned(d, lines), line)
  {
    ReadSnoc(d, START, lines, line);
  }

  // ---------------------------------------------------------------- removing a rule

  /** The editor's state: the lines kept so far, and whether it is inside a removed block. */
  datatype Edit = Edit(out: seq<string>, skip: bool)

  function EditLine(d: Dialect, k: string, e: Edit, line: string): Edit {
    if d.edited(line).Some? && d.key(d.edited(line).value) == k then Edit(e.out, true)
    else if d.edited(line).Some? || !e.skip then Edit(e.out + [line], false)
    else e
  }

  function Editing(d: Dialect, k: string, lines: seq<string>): Edit {
    if lines == [] then Edit([], false) else EditLine(d, k, Editing(d, k, lines[..|lines| - 1]), lines[|lines| - 1])
  }

  lemma EditingMore(d: Dialect, k: string, lines: seq<string>, i: nat)
    requires i < |lines|
    ensures Editing(d, k, lines[..i + 1]) == EditLine(d, k, Editing(d, k, lines[..i]), lines[i])
    ensures lines[..i + 1] == lines[..i] + [lines[i]]
  {
    assert lines[..i + 1][..i] == lines[..i];
  }

  /** The file without the blocks of `k`. */
  function Removed(d: Dialect, k: string, lines: seq<string>): seq<string> {
    Editing(d, k, lines).out
  }

  /** The editor sees a header of `k`. */
  ghost predicate HasBlock(d: Dialect, k: string, lines: seq<string>) {
    exists line :: line in lines && d.edited(line).Some? && d.key(d.edited(line).value) == k
  }

  lemma HasBlockSnoc(d: Dialect, k: string, lines: seq<string>, line: string)
    ensures HasBlock(d, k, lines + [line])
       <==> HasBlock(d, k, lines) || (d.edited(line).Some? && d.key(d.edited(line).value) == k)
  {
    assert forall x :: x in lines + [line] <==> x in lines || x == line;
  }

  /** The rules that no block of `k` contains. */
  function NotOwned(k: string, rules: seq<Rule>): seq<Rule> {
    if rules == [] then []
    else
      var last := rules[|rules| - 1];
      NotOwned(k, rules[..|rules| - 1]) + (if last.owner == Some(k) then [] else [last])
  }

  lemma NotOwnedFlush(k: string, rules: seq<Rule>, block: Rule)
    ensures NotOwned(k, rules + Flush(block))
         == NotOwned(k, rules) + (if block.owner == Some(k) then [] else Flush(block))
  {
    if Flush(block) == [] {
      assert rules + Flush(block) == rules;
    } else {
      assert (rules + [block])[..|rules|] == rules;
    }
  }

  /** How the parse of the edited lines follows the parse of all lines. */
  ghost predicate Follows(k: string, s: Scan, e: Edit, s': Scan) {
    && (e.skip <==> s.block.owner == Some(k))
    && (!e.skip ==> s' == Scan(NotOwned(k, s.rules), s.block))
    && (e.skip ==> s'.rules + Flush(s'.block) == NotOwned(k, s.rules) && s'.block.owner != Some(k))
  }

  lemma EditFollows(d: Dialect, k: string, s: Scan, e: Edit, s': Scan, line: string)
    requires Coherent(d) && Follows(k, s, e, s')
    ensures var e1 := EditLine(d, k, e, line);
            Follows(k, ReadLine(d, s, line), e1, if e1.out == e.out then s' else ReadLine(d, s', line))
  {
    NotOwnedFlush(k, s.rules, s.block);
  }

  /** Nothing so far stands in a block of `k`. */
  ghost predicate FreeOf(k: string, s: Scan) {
    s.block.owner != Some(k) && forall r :: r in s.rules ==> r.owner != Some(k)
  }

  lemma {:induction false} NoneOwned(k: string, rules: seq<Rule>)
    requires forall r :: r in rules ==> r.owner != Some(k)
    ensures NotOwned(k, rules) == rules
  {
    if rules == [] {
    } else {
      NoneOwned(k, rules[..|rules| - 1]);
      assert rules == rules[..|rules| - 1] + [rules[|rules| - 1]];
    }
  }

  lemma {:induction false} EditingFollows(d: Dialect, k: string, s: Scan, lines: seq<string>)
    requires Coherent(d) && FreeOf(k, s)
    ensures Follows(k, Read(d, s, lines), Editing(d, k, lines), Read(d, s, Removed(d, k, lines)))
  {
    if lines == [] {
      NoneOwned(k, s.rules);
    } else {
      var init, last := lines[..|lines| - 1], lines[|lines| - 1];
      var e := Editing(d, k, init);
      EditingFollows(d, k, s, init);
      EditFollows(d, k, Read(d, s, init), e, Read(d, s, e.out), last);
      ReadSnoc(d, s, e.out, last);
    }
  }

  /** Removal takes away exactly the rules read inside the removed blocks and keeps the others
      in order, for every file. */
  lemma RemovalTakesOwned(d: Dialect, k: string, lines: seq<string>)
    requires Coherent(d)
    ensures Rules(d, Removed(d, k, lines)) == NotOwned(k, Rules(d, lines))
  {
    EditingFollows(d, k, START, lines);
    NotOwnedFlush(k, Scanned(d, lines).rules, Scanned(d, lines).block);
  }

  // ---------------------------------------------------------------- when editing agrees with parsing

  /** Every rule stands in a block that the editor knows by the rule's own name. It fails only
      where the parser reads a header that the editor does not. */
  ghost predicate Orderly(d: Dialect, rules: seq<Rule>) {
    forall r :: r in rules ==> r.owner == Some(d.key(r.name))
  }

  lemma OrderlyInit(d: Dialect, rules: seq<Rule>)
    requires rules != [] && Orderly(d, rules)
    ensures Orderly(d, rules[..|rules| - 1])
    ensures rules[|rules| - 1].owner == Some(d.key(rules[|rules| - 1].name))
  {
    assert rules[|rules| - 1] in rules;
  }

  lemma WithoutUpdated(m: map<string, string>, k: string, j: string, t: string)
    ensures m[j := t] - {k} == if j == k then m - {k} else (m - {k})[j := t]
  {
  }

  lemma {:induction false} EnteredWithout(d: Dialect, k: string, rules: seq<Rule>)
    requires Orderly(d, rules)
    ensures Entered(d, map[], NotOwned(k, rules)) == Entered(d, map[], rules) - {k}
  {
    if rules == [] {
    } else {
      var init, last := rules[..|rules| - 1], rules[|rules| - 1];
      OrderlyInit(d, rules);
      EnteredWithout(d, k, init);
      EnteredSnoc(d, map[], NotOwned(k, init), last);
      WithoutUpdated(Entered(d, map[], init), k, d.key(last.name), last.target);
      if last.owner == Some(k) {
        assert NotOwned(k, rules) == NotOwned(k, init);
      } else {
        assert NotOwned(k, rules) == NotOwned(k, init) + [last];
      }
    }
  }

  lemma {:induction false} EnteredKeys(d: Dialect, table: map<string, string>, rules: seq<Rule>, r: Rule)
    requires r in rules
    ensures d.key(r.name) in Entered(d, table, rules)
  {
    if r != rules[|rules| - 1] {
      assert r in rules[..|rules| - 1];
      EnteredKeys(d, table, rules[..|rules| - 1], r);
    }
  }

  lemma {:induction false} StaysIn(k: string, rules: seq<Rule>, r: Rule)
    requires r in rules && r.owner != Some(k)
    ensures r in NotOwned(k, rules)
  {
    if r != rules[|rules| - 1] {
      assert r in rules[..|rules| - 1];
      StaysIn(k, rules[..|rules| - 1], r);
    }
  }

  /** Removing any name takes it, and nothing else, out of the file's meaning exactly when
      every rule stands in a block of its own name. */
  lemma RemovalAgreesExactly(d: Dialect, lines: seq<string>)
    requires Coherent(d)
    ensures (forall k :: Meaning(d, Removed(d, k, lines)) == Meaning(d, lines) - {k}) <==> Orderly(d, Rules(d, lines))
  {
    var rules := Rules(d, lines);
    if Orderly(d, rules) {
      forall k
        ensures Meaning(d, Removed(d, k, lines)) == Meaning(d, lines) - {k}
      {
        RemovalTakesOwned(d, k, lines);
        EnteredWithout(d, k, rules);
      }
    } else {
      var r :| r in rules && r.owner != Some(d.key(r.name));
      var k := d.key(r.name);
      RemovalTakesOwned(d, k, lines);
      StaysIn(k, rules, r);
      EnteredKeys(d, map[], NotOwned(k, rules), r);
      assert k in Meaning(d, Removed(d, k, lines)) && k !in Meaning(d, lines) - {k};
    }
  }

  /** A rule that stands in no block of `k` survives the removal of `k`, even if `k` is its own name. */
  lemma StrayRuleStays(d: Dialect, lines: seq<string>, r: Rule, k: string)
    requires Coherent(d) && r in Rules(d, lines) && r.owner != Some(k)
    ensures r in Rules(d, Removed(d, k, lines))
  {
    RemovalTakesOwned(d, k, lines);
    StaysIn(k, Rules(d, lines), r);
  }

  lemma {:induction false} RulesStay(d: Dialect, lines: seq<string>, more: seq<string>, r: Rule)
    requires r in Scanned(d, lines).rules
    ensures r in Scanned(d, lines + more).rules
  {
    if more == [] {
      assert lines + more == lines;
    } else {
      var init, last := more[..|more| - 1], more[|more| - 1];
      RulesStay(d, lines, init, r);
      assert lines + more == (lines + init) + [last];
      ScannedSnoc(d, lines + init, last);
    }
  }

  /** The rule that a header and the target line after it make, when a header or the end of
      the file follows. */
  lemma RuleOfBlock(d: Dialect, before: seq<string>, h: string, line: string, after: seq<string>)
    requires d.parsed(h).Some? && d.parsed(h).value != "" && d.edited(h).None?
    requires d.parsed(line).None? && d.target(line).Some? && d.target(line).value != ""
    requires after != [] ==> d.parsed(after[0]).Some?
    ensures Rule(Scanned(d, before).block.owner, d.parsed(h).value, d.target(line).value)
            in Rules(d, before + [h] + [line] + after)
  {
    var r := Rule(Scanned(d, before).block.owner, d.parsed(h).value, d.target(line).value);
    var block := before + [h] + [line];
    ScannedSnoc(d, before, h);
    ScannedSnoc(d, before + [h], line);
    BlockCounts(d, block, after, r);
  }

  lemma BlockCounts(d: Dialect, lines: seq<string>, after: seq<string>, r: Rule)
    requires Scanned(d, lines).block == r && r.name != "" && r.target != ""
    requires after != [] ==> d.parsed(after[0]).Some?
    ensures r in Rules(d, lines + after)
  {
    if after == [] {
      assert lines + after == lines;
    } else {
      ScannedSnoc(d, lines, after[0]);
      RulesStay(d, lines + [after[0]], after[1..], r);
      assert lines + after == lines + [after[0]] + after[1..];
    }
  }

  /** A rule under a header that the editor does not see survives the removal of every name but
      that of the last header before it that the editor does see. */
  lemma UnseenHeaderStays(d: Dialect, before: seq<string>, h: string, line: string, after: seq<string>, k: string)
    requires Coherent(d) && d.parsed(h).Some? && d.edited(h).None?
    requires d.parsed(line).None? && d.target(line).Some? && d.target(line).value != ""
    requires after != [] ==> d.parsed(after[0]).Some?
    requires Scanned(d, before).block.owner != Some(k)
    ensures var r := Rule(Scanned(d, before).block.owner, d.parsed(h).value, d.target(line).value);
            r in Rules(d, Removed(d, k, before + [h] + [line] + after))
  {
    var r := Rule(Scanned(d, before).block.owner, d.parsed(h).value, d.target(line).value);
    RuleOfBlock(d, before, h, line, after);
    StrayRuleStays(d, before + [h] + [line] + after, r, k);
  }

  ghost predicate SameHeaders(d: Dialect, lines: seq<string>) {
    forall line :: line in lines ==> d.parsed(line) == d.edited(line)
  }

  /** When parser and editor see the same headers, every rule stands in a block of its own name. */
  lemma {:induction false} SameHeadersOrderly(d: Dialect, lines: seq<string>)
    requires SameHeaders(d, lines)
    ensures Orderly(d, Rules(d, lines))
    ensures Orderly(d, Scanned(d, lines).rules)
    ensures var b := Scanned(d, lines).block; b.name != "" ==> b.owner == Some(d.key(b.name))
  {
    if lines == [] {
    } else {
      var init, last := lines[..|lines| - 1], lines[|lines| - 1];
      assert last in lines && forall line :: line in init ==> line in lines;
      SameHeadersOrderly(d, init);
    }
  }
}
