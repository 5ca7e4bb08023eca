/** Rule files read as one input, as the shell script gives them to awk: a block that one file
    leaves open runs on into the next. When removal from one file is still right. */
module RuleStreams {
  import opened Lists
  import opened RuleFiles
  import opened ShellRules

  /** Rules without their owners: what the parser knows of them. */
  function Bare(rules: seq<Rule>): (r: seq<Rule>)
    ensures |r| == |rules|
  {
    seq(|rules|, i requires 0 <= i < |rules| => rules[i].(owner := None))
  }

  /** A parse in which so far no header counts as an owner. */
  function Foreign(s: Scan): Scan {
    Scan(Bare(s.rules), s.block.(owner := None))
  }

  lemma BareConcat(a: seq<Rule>, b: seq<Rule>)
    ensures Bare(a + b) == Bare(a) + Bare(b)
  {
    forall i | 0 <= i < |a + b|
      ensures Bare(a + b)[i] == (Bare(a) + Bare(b))[i]
    {
      assert (a + b)[i] == if i < |a| then a[i] else b[i - |a|];
    }
  }

  lemma BareFlush(block: Rule)
    ensures Bare(Flush(block)) == Flush(block.(owner := None))
  {
  }

  lemma BareBare(rules: seq<Rule>)
    ensures Bare(Bare(rules)) == Bare(rules)
  {
  }

  lemma ForeignLine(d: Dialect, s: Scan, t: Scan, line: string)
    requires Foreign(s) == Foreign(t)
    ensures Foreign(ReadLine(d, s, line)) == Foreign(ReadLine(d, t, line))
  {
    BareConcat(s.rules, Flush(s.block));
    BareConcat(t.rules, Flush(t.block));
    BareFlush(s.block);
    BareFlush(t.block);
  }

  /** What is read does not depend on the owners. */
  lemma {:induction false} ForeignRead(d: Dialect, s: Scan, t: Scan, lines: seq<string>)
    requires Foreign(s) == Foreign(t)
    ensures Foreign(Read(d, s, lines)) == Foreign(Read(d, t, lines))
  {
    if lines == [] {
    } else {
      var init := lines[..|lines| - 1];
      ForeignRead(d, s, t, init);
      ForeignLine(d, Read(d, s, init), Read(d, t, init), lines[|lines| - 1]);
    }
  }

  lemma {:induction false} ReadConcat(d: Dialect, s: Scan, a: seq<string>, b: seq<string>)
    ensures Read(d, s, a + b) == Read(d, Read(d, s, a), b)
  {
    if b == [] {
      assert a + b == a;
    } else {
      ReadConcat(d, s, a, b[..|b| - 1]);
      InitOfConcat(a, b);
    }
  }

  // ---------------------------------------------------------------- a block that runs on

  ghost predicate HasHeader(d: Dialect, lines: seq<string>) {
    exists line :: line in lines && d.parsed(line).Some?
  }

  lemma HasHeaderSnoc(d: Dialect, lines: seq<string>)
    requires lines != []
    ensures HasHeader(d, lines) <==> HasHeader(d, lines[..|lines| - 1]) || d.parsed(lines[|lines| - 1]).Some?
  {
    assert lines == lines[..|lines| - 1] + [lines[|lines| - 1]];
  }

  /** The last target that is set before the first header. */
  ghost function HeadTarget(d: Dialect, lines: seq<string>): Option<string> {
    if lines == [] then None
    else
      var init, last := lines[..|lines| - 1], lines[|lines| - 1];
      if HasHeader(d, init) || d.parsed(last).Some? || d.target(last).None? then HeadTarget(d, init) else d.target(last)
  }

  /** A block after the lines that run on from it. */
  ghost function RunOn(d: Dialect, block: Rule, lines: seq<string>): Rule {
    if block.name != "" && HeadTarget(d, lines).Some? then block.(target := HeadTarget(d, lines).value) else block
  }

  lemma {:induction false} ReadBeforeHeader(d: Dialect, s: Scan, lines: seq<string>)
    requires !HasHeader(d, lines)
    ensures Read(d, s, lines) == s.(block := RunOn(d, s.block, lines))
    ensures Scanned(d, lines) == START
  {
    if lines == [] {
    } else {
      HasHeaderSnoc(d, lines);
      ReadBeforeHeader(d, s, lines[..|lines| - 1]);
    }
  }

  /** The state after `lines`, read from `s`, in terms of `lines` read on their own. */
  ghost predicate Continues(d: Dialect, s: Scan, lines: seq<string>) {
    var t := Scanned(d, lines);
    Foreign(Read(d, s, lines))
    == Foreign(Scan(s.rules + Flush(RunOn(d, s.block, lines)) + t.rules, t.block))
  }

  lemma HeaderLine(d: Dialect, s: Scan, line: string)
    requires d.parsed(line).Some?
    ensures ReadLine(d, s, line).rules == s.rules + Flush(s.block)
    ensures ReadLine(d, s, line).block.(owner := None) == Rule(None, d.parsed(line).value, "")
  {
  }

  lemma FirstHeader(d: Dialect, s: Scan, block: Rule, line: string)
    requires d.parsed(line).Some?
    ensures var t := ReadLine(d, START, line);
            Foreign(ReadLine(d, s.(block := block), line)) == Foreign(Scan(s.rules + Flush(block) + t.rules, t.block))
  {
    var rules := s.rules + Flush(block);
    HeaderLine(d, s.(block := block), line);
    HeaderLine(d, START, line);
    assert rules + [] == rules;
  }

  lemma ContinuesAtHeader(d: Dialect, s: Scan, init: seq<string>, last: string)
    requires Coherent(d) && !HasHeader(d, init) && d.parsed(last).Some?
    requires HeadTarget(d, init + [last]) == HeadTarget(d, init)
    ensures Continues(d, s, init + [last])
  {
    ReadBeforeHeader(d, s, init);
    ReadSnoc(d, s, init, last);
    ScannedSnoc(d, init, last);
    FirstHeader(d, s, RunOn(d, s.block, init), last);
  }

  lemma ContinuesPastHeader(d: Dialect, s: Scan, init: seq<string>, last: string)
    requires HasHeader(d, init) && Continues(d, s, init) && HeadTarget(d, init + [last]) == HeadTarget(d, init)
    ensures Continues(d, s, init + [last])
  {
    var t := Scanned(d, init);
    var rules := s.rules + Flush(RunOn(d, s.block, init));
    ReadSnoc(d, s, init, last);
    ScannedSnoc(d, init, last);
    ForeignLine(d, Read(d, s, init), Scan(rules + t.rules, t.block), last);
    Assoc(rules, t.rules, Flush(t.block));
  }

  lemma {:induction false} ReadContinues(d: Dialect, s: Scan, lines: seq<string>)
    requires Coherent(d) && HasHeader(d, lines)
    ensures Continues(d, s, lines)
  {
    var init, last := lines[..|lines| - 1], lines[|lines| - 1];
    HasHeaderSnoc(d, lines);
    assert lines == init + [last];
    if HasHeader(d, init) {
      ReadContinues(d, s, init);
      ContinuesPastHeader(d, s, init, last);
    } else {
      ContinuesAtHeader(d, s, init, last);
    }
  }

  /** The rules read when `lines` follow the state `s`. */
  function RulesFrom(d: Dialect, s: Scan, lines: seq<string>): seq<Rule> {
    Read(d, s, lines).rules + Flush(Read(d, s, lines).block)
  }

  lemma BareRules(s: Scan, t: Scan)
    requires Foreign(s) == Foreign(t)
    ensures Bare(s.rules + Flush(s.block)) == Bare(t.rules + Flush(t.block))
  {
    BareConcat(s.rules, Flush(s.block));
    BareConcat(t.rules, Flush(t.block));
    BareFlush(s.block);
    BareFlush(t.block);
  }

  /** They are those before, the open block with what runs on from it, and those of the lines on
      their own. */
  lemma RulesContinue(d: Dialect, s: Scan, lines: seq<string>)
    requires Coherent(d)
    ensures Bare(RulesFrom(d, s, lines)) == Bare(s.rules + Flush(RunOn(d, s.block, lines)) + Rules(d, lines))
  {
    var rules := s.rules + Flush(RunOn(d, s.block, lines));
    if HasHeader(d, lines) {
      var t := Scanned(d, lines);
      ReadContinues(d, s, lines);
      BareRules(Read(d, s, lines), Scan(rules + t.rules, t.block));
      Assoc(rules, t.rules, Flush(t.block));
    } else {
      ReadBeforeHeader(d, s, lines);
      assert rules + Rules(d, lines) == rules;
    }
  }

  // ---------------------------------------------------------------- removal from one of the files

  /** The state after `file`, which follows `before`; only headers in `file` count as owners. */
  function StateAfter(d: Dialect, before: seq<string>, file: seq<string>): Scan {
    Read(d, Foreign(Scanned(d, before)), file)
  }

  /** The rules up to the end of a block that `file` leaves open. */
  ghost function RulesThrough(d: Dialect, before: seq<string>, file: seq<string>, after: seq<string>): seq<Rule> {
    var s := StateAfter(d, before, file);
    s.rules + Flush(RunOn(d, s.block, after))
  }

  lemma StreamRules(d: Dialect, before: seq<string>, file: seq<string>, after: seq<string>)
    requires Coherent(d)
    ensures Bare(Rules(d, before + file + after)) == Bare(RulesThrough(d, before, file, after) + Rules(d, after))
  {
    ReadConcat(d, START, before + file, after);
    ReadConcat(d, START, before, file);
    var s0 := Scanned(d, before);
    BareBare(s0.rules);
    ForeignRead(d, s0, Foreign(s0), file);
    ForeignRead(d, Read(d, s0, file), StateAfter(d, before, file), after);
    BareRules(Read(d, Read(d, s0, file), after), Read(d, StateAfter(d, before, file), after));
    RulesContinue(d, StateAfter(d, before, file), after);
  }

  lemma ForeignFree(k: string, s: Scan)
    ensures FreeOf(k, Foreign(s))
  {
  }

  lemma SameMiddle(a: seq<Rule>, x: seq<Rule>, y: seq<Rule>, c: seq<Rule>)
    ensures Bare(a + x + c) == Bare(a + y + c) <==> Bare(x) == Bare(y)
  {
    BareConcat(a + x, c);
    BareConcat(a + y, c);
    BareConcat(a, x);
    BareConcat(a, y);
    var p, q := Bare(a) + Bare(x) + Bare(c), Bare(a) + Bare(y) + Bare(c);
    if p == q {
      assert |x| == |y|;
      assert p[|a|..|a| + |x|] == Bare(x) && q[|a|..|a| + |y|] == Bare(y);
    }
  }

  lemma RunOnChanges(d: Dialect, block: Rule, lines: seq<string>)
    ensures Bare(Flush(RunOn(d, block, lines))) == Bare(Flush(block)) <==> RunOn(d, block, lines) == block
  {
    BareFlush(block);
    BareFlush(RunOn(d, block, lines));
  }

  lemma ThroughAfterRemoval(d: Dialect, k: string, before: seq<string>, file: seq<string>, after: seq<string>)
    requires Coherent(d)
    ensures var s' := StateAfter(d, before, Removed(d, k, file));
            NotOwned(k, RulesThrough(d, before, file, after))
            == s'.rules + Flush(if Editing(d, k, file).skip then s'.block else RunOn(d, s'.block, after))
  {
    var s := StateAfter(d, before, file);
    ForeignFree(k, Scanned(d, before));
    EditingFollows(d, k, Foreign(Scanned(d, before)), file);
    NotOwnedFlush(k, s.rules, RunOn(d, s.block, after));
  }

  /** Removing `k` from a file between others takes away exactly the rules that stand in its
      blocks of `k`, with what runs on from them, if and only if it does not end in such a
      block from which a target runs on that the block before would take instead. */
  lemma RemovalInStreamExactly(d: Dialect, k: string, before: seq<string>, file: seq<string>, after: seq<string>)
    requires Coherent(d)
    ensures var kept := StateAfter(d, before, Removed(d, k, file)).block;
            var edited := Rules(d, before + Removed(d, k, file) + after);
            var expected := NotOwned(k, RulesThrough(d, before, file, after)) + Rules(d, after);
            Bare(edited) == Bare(expected) <==> !(Editing(d, k, file).skip && RunOn(d, kept, after) != kept)
  {
    var s' := StateAfter(d, before, Removed(d, k, file));
    StreamRules(d, before, Removed(d, k, file), after);
    ThroughAfterRemoval(d, k, before, file, after);
    if Editing(d, k, file).skip {
      SameMiddle(s'.rules, Flush(RunOn(d, s'.block, after)), Flush(s'.block), Rules(d, after));
      RunOnChanges(d, s'.block, after);
    }
  }

  // ---------------------------------------------------------------- what the files mean then

  lemma {:induction false} EnteredBare(d: Dialect, table: map<string, string>, rules: seq<Rule>)
    ensures Entered(d, table, Bare(rules)) == Entered(d, table, rules)
  {
    if rules == [] {
    } else {
      EnteredBare(d, table, rules[..|rules| - 1]);
      assert Bare(rules)[..|rules| - 1] == Bare(rules[..|rules| - 1]);
    }
  }

  /** Owned rules have their owner's name. */
  ghost predicate OwnNames(d: Dialect, rules: seq<Rule>) {
    forall r :: r in rules && r.owner.Some? ==> r.owner == Some(d.key(r.name))
  }

  lemma {:induction false} ReadOwnNames(d: Dialect, s: Scan, lines: seq<string>)
    requires SameHeaders(d, lines) && OwnNames(d, s.rules) && s.block.owner.None?
    ensures OwnNames(d, Read(d, s, lines).rules) && OwnNames(d, [Read(d, s, lines).block])
  {
    if lines == [] {
    } else {
      var init, last := lines[..|lines| - 1], lines[|lines| - 1];
      assert last in lines && forall line :: line in init ==> line in lines;
      ReadOwnNames(d, s, init);
    }
  }

  lemma {:induction false} EnteredWithoutOwned(d: Dialect, k: string, table: map<string, string>, rules: seq<Rule>)
    requires OwnNames(d, rules)
    ensures Entered(d, table, NotOwned(k, rules)) - {k} == Entered(d, table, rules) - {k}
  {
    if rules == [] {
    } else {
      var init, last := rules[..|rules| - 1], rules[|rules| - 1];
      assert last in rules && forall r :: r in init ==> r in rules;
      EnteredWithoutOwned(d, k, table, init);
      EnteredSnoc(d, table, NotOwned(k, init), last);
      WithoutUpdated(Entered(d, table, init), k, d.key(last.name), last.target);
      WithoutUpdated(Entered(d, table, NotOwned(k, init)), k, d.key(last.name), last.target);
    }
  }

  lemma MeaningOfStream(d: Dialect, lines: seq<string>, first: seq<Rule>, last: seq<Rule>)
    requires Bare(Rules(d, lines)) == Bare(first + last)
    ensures Meaning(d, lines) == Entered(d, map[], first) + Entered(d, map[], last)
  {
    EnteredBare(d, map[], Rules(d, lines));
    EnteredBare(d, map[], first + last);
    EnteredConcat(d, map[], first, last);
    EnteredOver(d, Entered(d, map[], first), last);
  }

  lemma OverriddenAlike(x: map<string, string>, y: map<string, string>, z: map<string, string>, k: string)
    requires x - {k} == y - {k}
    ensures (x + z) - {k} == (y + z) - {k}
  {
    assert forall j :: j != k ==> (j in x <==> j in x - {k}) && (j in y <==> j in y - {k});
    assert forall j :: j != k && j in x ==> x[j] == (x - {k})[j] && y[j] == (y - {k})[j];
  }

  lemma ThroughOwnNames(d: Dialect, before: seq<string>, file: seq<string>, after: seq<string>)
    requires SameHeaders(d, file)
    ensures OwnNames(d, RulesThrough(d, before, file, after))
  {
    var s := StateAfter(d, before, file);
    ReadOwnNames(d, Foreign(Scanned(d, before)), file);
    assert s.block in [s.block];
  }

  /** If the editor sees every header of the file and no target runs on, the names but the removed
      one keep their targets. */
  lemma OthersKeepMeaning(d: Dialect, k: string, before: seq<string>, file: seq<string>, after: seq<string>)
    requires Coherent(d) && SameHeaders(d, file)
    requires var kept := StateAfter(d, before, Removed(d, k, file)).block;
             Editing(d, k, file).skip ==> RunOn(d, kept, after) == kept
    ensures Meaning(d, before + Removed(d, k, file) + after) - {k} == Meaning(d, before + file + after) - {k}
  {
    var rules := RulesThrough(d, before, file, after);
    StreamRules(d, before, file, after);
    RemovalInStreamExactly(d, k, before, file, after);
    MeaningOfStream(d, before + file + after, rules, Rules(d, after));
    MeaningOfStream(d, before + Removed(d, k, file) + after, NotOwned(k, rules), Rules(d, after));
    ThroughOwnNames(d, before, file, after);
    EnteredWithoutOwned(d, k, map[], rules);
    OverriddenAlike(Entered(d, map[], NotOwned(k, rules)), Entered(d, map[], rules),
                    Entered(d, map[], Rules(d, after)), k);
  }

  /** In the shell this holds for every file without carriage returns that does not end in the
      removed block, or is followed by no target before the next header. */
  lemma RemovalInInput(before: seq<string>, file: seq<string>, after: seq<string>, k: string)
    requires forall line :: line in file ==> '\r' !in line
    requires Editing(SH, k, file).skip ==> HeadTarget(SH, after).None?
    ensures Meaning(SH, before + Removed(SH, k, file) + after) - {k} == Meaning(SH, before + file + after) - {k}
  {
    ShCoherent();
    forall line | line in file
      ensures Parsed(line) == Edited(line)
    {
      NoReturnSameHeader(line);
    }
    OthersKeepMeaning(SH, k, before, file, after);
  }
}
