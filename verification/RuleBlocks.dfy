/** Which rules a file has, read off its lines by position. */
module RuleBlocks {
  import opened RuleFiles

  /** From line `i` to line `n`: a header, and no further header up to the next one or the end. */
  ghost predicate IsBlock(d: Dialect, lines: seq<string>, i: nat, n: nat, name: string) {
    && i < n <= |lines| && d.parsed(lines[i]) == Some(name)
    && (forall k :: i < k < n ==> d.parsed(lines[k]).None?)
    && (n < |lines| ==> d.parsed(lines[n]).Some?)
  }

  /** The last target line between `i` and `n` sets `t`. */
  ghost predicate LastTarget(d: Dialect, lines: seq<string>, i: nat, n: nat, t: string)
    requires n <= |lines|
  {
    exists j :: i < j < n && d.target(lines[j]) == Some(t) && forall k :: j < k < n ==> d.target(lines[k]).None?
  }

  /** A block that ends at another header sets this target. */
  ghost predicate ClosedRule(d: Dialect, lines: seq<string>, name: string, t: string) {
    exists i: nat, n: nat :: n < |lines| && IsBlock(d, lines, i, n, name) && LastTarget(d, lines, i, n, t)
  }

  /** The last block sets this target. */
  ghost predicate OpenRule(d: Dialect, lines: seq<string>, name: string, t: string) {
    exists i: nat :: IsBlock(d, lines, i, |lines|, name) && LastTarget(d, lines, i, |lines|, t)
  }

  ghost predicate ListsRule(rules: seq<Rule>, name: string, t: string) {
    exists r :: r in rules && r.name == name && r.target == t
  }

  lemma ListsRuleSnoc(rules: seq<Rule>, block: Rule, name: string, t: string)
    ensures ListsRule(rules + Flush(block), name, t)
       <==> ListsRule(rules, name, t) || (block.name == name != "" && block.target == t != "")
  {
    assert forall r :: r in rules + Flush(block) <==> r in rules || r in Flush(block);
  }

  lemma SameBlock(d: Dialect, lines: seq<string>, line: string, i: nat, n: nat, name: string)
    requires n < |lines|
    ensures IsBlock(d, lines + [line], i, n, name) <==> IsBlock(d, lines, i, n, name)
  {
    var more := lines + [line];
    assert forall k :: 0 <= k < |lines| ==> more[k] == lines[k];
  }

  lemma BlockCloses(d: Dialect, lines: seq<string>, line: string, i: nat, name: string)
    ensures IsBlock(d, lines + [line], i, |lines|, name)
       <==> IsBlock(d, lines, i, |lines|, name) && d.parsed(line).Some?
  {
    var more := lines + [line];
    assert more[|lines|] == line && forall k :: 0 <= k < |lines| ==> more[k] == lines[k];
  }

  lemma BlockGoesOn(d: Dialect, lines: seq<string>, line: string, i: nat, name: string)
    ensures IsBlock(d, lines + [line], i, |lines| + 1, name) <==>
            if d.parsed(line).Some? then i == |lines| && d.parsed(line) == Some(name)
            else IsBlock(d, lines, i, |lines|, name)
  {
    var more := lines + [line];
    assert more[|lines|] == line && forall k :: 0 <= k < |lines| ==> more[k] == lines[k];
  }

  lemma SameTarget(d: Dialect, lines: seq<string>, line: string, i: nat, n: nat, t: string)
    requires n <= |lines|
    ensures LastTarget(d, lines + [line], i, n, t) <==> LastTarget(d, lines, i, n, t)
  {
    var more := lines + [line];
    assert forall k :: 0 <= k < |lines| ==> more[k] == lines[k];
  }

  lemma TargetGoesOn(d: Dialect, lines: seq<string>, line: string, i: nat, t: string)
    requires i < |lines|
    ensures LastTarget(d, lines + [line], i, |lines| + 1, t) <==>
            if d.target(line).Some? then d.target(line).value == t else LastTarget(d, lines, i, |lines|, t)
  {
    var more, n := lines + [line], |lines|;
    assert more[n] == line && forall k :: 0 <= k < n ==> more[k] == lines[k];
    if d.target(line).Some? {
      if d.target(line).value == t {
        assert d.target(more[n]) == Some(t);
      }
    }
  }

  /** What the parser's state says of the lines read. */
  ghost predicate Reflects(d: Dialect, lines: seq<string>, s: Scan, name: string, t: string) {
    && (ListsRule(s.rules, name, t) <==> t != "" && ClosedRule(d, lines, name, t))
    && (s.block.name == name != "" <==> exists i: nat :: IsBlock(d, lines, i, |lines|, name))
    && (s.block.name == name != "" && s.block.target == t != "" <==> t != "" && OpenRule(d, lines, name, t))
  }

  lemma ClosedMore(d: Dialect, lines: seq<string>, line: string, name: string, t: string)
    ensures ClosedRule(d, lines + [line], name, t)
       <==> ClosedRule(d, lines, name, t) || (d.parsed(line).Some? && OpenRule(d, lines, name, t))
  {
    forall i: nat, n: nat | n < |lines|
      ensures IsBlock(d, lines + [line], i, n, name) <==> IsBlock(d, lines, i, n, name)
      ensures LastTarget(d, lines + [line], i, n, t) <==> LastTarget(d, lines, i, n, t)
    {
      SameBlock(d, lines, line, i, n, name);
      SameTarget(d, lines, line, i, n, t);
    }
    forall i: nat
      ensures IsBlock(d, lines + [line], i, |lines|, name)
         <==> IsBlock(d, lines, i, |lines|, name) && d.parsed(line).Some?
      ensures LastTarget(d, lines + [line], i, |lines|, t) <==> LastTarget(d, lines, i, |lines|, t)
    {
      BlockCloses(d, lines, line, i, name);
      SameTarget(d, lines, line, i, |lines|, t);
    }
  }

  lemma OpenMore(d: Dialect, lines: seq<string>, line: string, name: string, t: string)
    requires d.parsed(line).None?
    ensures (exists i: nat :: IsBlock(d, lines + [line], i, |lines + [line]|, name))
       <==> exists i: nat :: IsBlock(d, lines, i, |lines|, name)
    ensures OpenRule(d, lines + [line], name, t) <==>
            if d.target(line).Some?
            then d.target(line).value == t && exists i: nat :: IsBlock(d, lines, i, |lines|, name)
            else OpenRule(d, lines, name, t)
  {
    var more := lines + [line];
    forall i: nat
      ensures IsBlock(d, more, i, |more|, name) <==> IsBlock(d, lines, i, |lines|, name)
      ensures i < |lines| ==>
                (LastTarget(d, more, i, |more|, t) <==>
                 if d.target(line).Some? then d.target(line).value == t else LastTarget(d, lines, i, |lines|, t))
    {
      BlockGoesOn(d, lines, line, i, name);
      if i < |lines| {
        TargetGoesOn(d, lines, line, i, t);
      }
    }
    if i: nat :| IsBlock(d, lines, i, |lines|, name) {
      assert IsBlock(d, more, i, |more|, name);
    }
  }

  lemma OpensAtHeader(d: Dialect, lines: seq<string>, line: string, name: string, t: string)
    requires d.parsed(line).Some?
    ensures (exists i: nat :: IsBlock(d, lines + [line], i, |lines + [line]|, name)) <==> d.parsed(line) == Some(name)
    ensures !OpenRule(d, lines + [line], name, t)
  {
    var more := lines + [line];
    forall i: nat
      ensures IsBlock(d, more, i, |more|, name) <==> i == |lines| && d.parsed(line) == Some(name)
    {
      BlockGoesOn(d, lines, line, i, name);
    }
    if d.parsed(line) == Some(name) {
      assert IsBlock(d, more, |lines|, |more|, name);
    }
  }

  lemma StepReflects(d: Dialect, lines: seq<string>, s: Scan, line: string, name: string, t: string)
    requires Coherent(d) && name != "" && Reflects(d, lines, s, name, t)
    ensures Reflects(d, lines + [line], ReadLine(d, s, line), name, t)
  {
    ClosedMore(d, lines, line, name, t);
    if d.parsed(line).Some? {
      ListsRuleSnoc(s.rules, s.block, name, t);
      OpensAtHeader(d, lines, line, name, t);
    } else {
      OpenMore(d, lines, line, name, t);
    }
  }

  lemma {:induction false} ScanReflects(d: Dialect, lines: seq<string>, name: string, t: string)
    requires Coherent(d) && name != ""
    ensures Reflects(d, lines, Scanned(d, lines), name, t)
  {
    if lines == [] {
    } else {
      var init, last := lines[..|lines| - 1], lines[|lines| - 1];
      ScanReflects(d, init, name, t);
      StepReflects(d, init, Scanned(d, init), last, name, t);
      assert lines == init + [last];
    }
  }

  lemma {:induction false} NamedRules(d: Dialect, lines: seq<string>)
    ensures forall r :: r in Scanned(d, lines).rules ==> r.name != ""
    ensures forall r :: r in Rules(d, lines) ==> r.name != ""
  {
    if lines == [] {
    } else {
      NamedRules(d, lines[..|lines| - 1]);
    }
  }

  /** A file has a rule exactly when some block has this name in its header and its last target
      line sets this target, which is not empty. */
  lemma RulesExactly(d: Dialect, lines: seq<string>, name: string, t: string)
    requires Coherent(d)
    ensures ListsRule(Rules(d, lines), name, t) <==>
            && name != "" && t != ""
            && exists i: nat, n: nat :: IsBlock(d, lines, i, n, name) && LastTarget(d, lines, i, n, t)
  {
    if name != "" {
      ScanReflects(d, lines, name, t);
      ListsRuleSnoc(Scanned(d, lines).rules, Scanned(d, lines).block, name, t);
    } else {
      NamedRules(d, lines);
    }
  }
}
