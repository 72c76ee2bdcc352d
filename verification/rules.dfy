/** The three rule-table operations of the daemon, on the table as the
    sequence of lines `iptables-save` prints: inserting a container's SNAT
    rule, removing a container's rules by tag, and pruning rules of
    containers that are no longer running. */
module Rules {
  import opened Wrappers
  import opened Seqs
  import opened Strings
  import opened Tags

  /** What the address resolver returns for a running container: the host
      address of its published port and its address on the bridge network. */
  datatype AddressPair = AddressPair(external: string, internal: string)

  /** The source-NAT rule `add_rule` installs for one container. */
  datatype SnatRule = SnatRule(
    table: string,
    chain: string,
    protocol: string,
    source: string,
    target: string,
    toSource: string,
    comment: string)

  /** How `iptables-save` prints a rule: the text before its comment token and
      the text after the comment token and the space that follows it. The
      format belongs to iptables, so the model takes it as a parameter. */
  datatype SavedText = SavedText(before: string, after: string)

  type Layout = SnatRule -> SavedText

  predicate EndsInNewline(s: string)
  {
    |s| > 0 && s[|s| - 1] == '\n'
  }

  /** The name as it reaches iptables. The command is one string split into
      words by `shlex.split`, and the name ends it, so a final newline is
      whitespace and is dropped from the comment word. */
  function ShellName(name: string): (r: string)
    ensures EndsInNewline(name) ==> r + "\n" == name
    ensures !EndsInNewline(name) ==> r == name
  {
    if EndsInNewline(name) then name[..|name| - 1] else name
  }

  /** The rule for container `name`: traffic from its internal address is
      rewritten to leave from its external address, tagged with the tag of
      the name as the command's last word carries it. */
  function BuildRule(name: string, ips: AddressPair): (r: SnatRule)
    ensures r.table == "nat" && r.chain == "POSTROUTING" && r.target == "SNAT"
    ensures r.protocol == "all" && r.source == ips.internal && r.toSource == ips.external
    ensures !EndsInNewline(name) ==> r.comment == Tag(name)
    ensures EndsInNewline(name) ==> r.comment + "\n" == Tag(name)
  {
    SnatRule("nat", "POSTROUTING", "all", ips.internal, "SNAT", ips.external, Tag(ShellName(name)))
  }

  /** The argument vector of the insertion command, `-I` placing the rule at
      the head of the chain: the program name, then eight option/value pairs. */
  function Argv(rule: SnatRule): (r: seq<string>)
    ensures |r| == 17 && r[0] == "iptables"
    ensures forall k :: 0 <= k < 8 ==> |r[2 * k + 1]| > 1 && r[2 * k + 1][0] == '-'
  {
    ["iptables", "-t", rule.table, "-I", rule.chain, "-p", rule.protocol, "-s", rule.source,
     "-j", rule.target, "--to-source", rule.toSource, "-m", "comment", "--comment", rule.comment]
  }

  /** The value following the first occurrence of `flag` in `args`, the way
      iptables reads an option. */
  function OptionValue(args: seq<string>, flag: string): (r: Option<string>)
  {
    if |args| < 2 then None
    else if args[0] == flag then Some(args[1])
    else OptionValue(args[1..], flag)
  }

  lemma {:induction false} OptionValueAt(args: seq<string>, flag: string, i: nat)
    requires i + 1 < |args| && args[i] == flag
    requires forall k :: 0 <= k < i ==> args[k] != flag
    ensures OptionValue(args, flag) == Some(args[i + 1])
  {
    if i > 0 {
      assert args[0] != flag;
      OptionValueAt(args[1..], flag, i - 1);
    }
  }

  /** A value that cannot be mistaken for an option flag. */
  predicate PlainValue(v: string)
  {
    |v| > 0 && v[0] != '-'
  }

  lemma NotAFlag(v: string, flag: string)
    requires PlainValue(v) && |flag| > 0 && flag[0] == '-'
    ensures v != flag
  {
  }

  /** The insertion command for a container, word by word. */
  function CommandWords(name: string, ips: AddressPair): (r: seq<string>)
  {
    ["iptables", "-t", "nat", "-I", "POSTROUTING", "-p", "all", "-s", ips.internal,
     "-j", "SNAT", "--to-source", ips.external, "-m", "comment", "--comment", Tag(ShellName(name))]
  }

  lemma ArgvWords(name: string, ips: AddressPair)
    ensures Argv(BuildRule(name, ips)) == CommandWords(name, ips)
  {
  }

  /** Reading the insertion command back gives where the rule goes: table
      nat, inserted at the head of POSTROUTING. */
  lemma ArgvPlacement(name: string, ips: AddressPair)
    ensures OptionValue(Argv(BuildRule(name, ips)), "-t") == Some("nat")
    ensures OptionValue(Argv(BuildRule(name, ips)), "-I") == Some("POSTROUTING")
  {
    ArgvWords(name, ips);
    var args := CommandWords(name, ips);
    assert args[0][0] != '-' && args[2][0] != '-' && args[1][1] != 'I';
    OptionValueAt(args, "-t", 1);
    OptionValueAt(args, "-I", 3);
  }

  /** Reading the insertion command back gives the translation: source the
      container's internal address, rewritten to its external address. */
  lemma ArgvTranslation(name: string, ips: AddressPair)
    requires PlainValue(ips.internal)
    ensures OptionValue(Argv(BuildRule(name, ips)), "-s") == Some(ips.internal)
    ensures OptionValue(Argv(BuildRule(name, ips)), "--to-source") == Some(ips.external)
  {
    ArgvWords(name, ips);
    SourceWord(name, ips);
    ToSourceWord(name, ips);
  }

  lemma SourceWord(name: string, ips: AddressPair)
    ensures OptionValue(CommandWords(name, ips), "-s") == Some(ips.internal)
  {
    var args := CommandWords(name, ips);
    forall k | 0 <= k < 7
      ensures args[k] != "-s"
    {
      if k % 2 == 1 {
        assert args[k][1] != 's';
      } else {
        assert args[k][0] != '-';
      }
    }
    OptionValueAt(args, "-s", 7);
  }

  lemma ToSourceWord(name: string, ips: AddressPair)
    requires PlainValue(ips.internal)
    ensures OptionValue(CommandWords(name, ips), "--to-source") == Some(ips.external)
  {
    var args := CommandWords(name, ips);
    forall k | 0 <= k < 11
      ensures args[k] != "--to-source"
    {
      if k == 8 {
        NotAFlag(args[k], "--to-source");
      } else if k % 2 == 1 {
        assert |args[k]| == 2;
      } else {
        assert args[k][0] != '-';
      }
    }
    OptionValueAt(args, "--to-source", 11);
  }

  /** Reading the insertion command back gives the SNAT target and, as the
      comment, the tag of the name without a final newline. */
  lemma ArgvTargetAndComment(name: string, ips: AddressPair)
    requires PlainValue(ips.internal) && PlainValue(ips.external)
    ensures OptionValue(Argv(BuildRule(name, ips)), "-j") == Some("SNAT")
    ensures OptionValue(Argv(BuildRule(name, ips)), "--comment") == Some(Tag(ShellName(name)))
  {
    ArgvWords(name, ips);
    TargetWord(name, ips);
    CommentWord(name, ips);
  }

  lemma TargetWord(name: string, ips: AddressPair)
    requires PlainValue(ips.internal)
    ensures OptionValue(CommandWords(name, ips), "-j") == Some("SNAT")
  {
    var args := CommandWords(name, ips);
    forall k | 0 <= k < 9
      ensures args[k] != "-j"
    {
      if k == 8 {
        NotAFlag(args[k], "-j");
      } else if k % 2 == 1 {
        assert args[k][1] != 'j';
      } else {
        assert args[k][0] != '-';
      }
    }
    OptionValueAt(args, "-j", 9);
  }

  lemma CommentWord(name: string, ips: AddressPair)
    requires PlainValue(ips.internal) && PlainValue(ips.external)
    ensures OptionValue(CommandWords(name, ips), "--comment") == Some(Tag(ShellName(name)))
  {
    var args := CommandWords(name, ips);
    forall k | 0 <= k < 15
      ensures args[k] != "--comment"
    {
      if k == 8 || k == 12 {
        NotAFlag(args[k], "--comment");
      } else {
        assert |args[k]| != |"--comment"|;
      }
    }
    OptionValueAt(args, "--comment", 15);
  }

  /** The line `iptables-save` prints for rule `r`. */
  function SavedLine(rule: SnatRule, layout: Layout): (r: string)
    ensures Contains(r, rule.comment + " ")
  {
    ContainsEmbedded(layout(rule).before, rule.comment + " ", layout(rule).after);
    assert layout(rule).before + rule.comment + " " + layout(rule).after
      == layout(rule).before + (rule.comment + " ") + layout(rule).after;
    layout(rule).before + rule.comment + " " + layout(rule).after
  }

  /** `add_rule`: when the container resolves, its rule goes into the table
      at index `at` and the result is true; when it is gone, nothing changes
      and the result is false. A rule already present for the name stays.
      `at` is where the head of chain POSTROUTING of table nat lies in the
      saved table, which is where `-I` puts a rule. */
  function AddRule(table: seq<string>, name: string, resolved: Option<AddressPair>, layout: Layout, at: nat): (r: (seq<string>, bool))
    requires at <= |table|
    ensures r.1 <==> resolved.Some?
    ensures r.1 ==> |r.0| == |table| + 1 && r.0[..at] == table[..at] && r.0[at + 1..] == table[at..]
    ensures r.1 ==> Contains(r.0[at], Tag(ShellName(name))) && r.0[at] == SavedLine(BuildRule(name, resolved.value), layout)
    ensures r.1 ==> multiset(r.0) == multiset(table) + multiset{r.0[at]}
    ensures !r.1 ==> r.0 == table
  {
    match resolved
    case None => (table, false)
    case Some(ips) =>
      var rule := BuildRule(name, ips);
      var line := SavedLine(rule, layout);
      ContainsPrefix(line, Tag(ShellName(name)), " ");
      assert table == table[..at] + table[at..];
      (table[..at] + [line] + table[at..], true)
  }

  /** A saved line whose text before the comment is free of the marker and of
      newlines, for a name without spaces or newlines, reads back as that name. */
  lemma AddedLineReadsBack(name: string, ips: AddressPair, layout: Layout)
    requires var t := layout(BuildRule(name, ips));
      !Contains(t.before, Marker) && '\n' !in t.before && '\n' !in t.after
    requires ' ' !in name && '\n' !in name
    ensures SearchGroup(SavedLine(BuildRule(name, ips), layout)) == Some(name)
  {
    var rule := BuildRule(name, ips);
    SearchRoundTrip(layout(rule).before, name, layout(rule).after);
  }

  /** For a name whose only newline is its last character, the saved line
      reads back as the name without that newline: the name the prune looks
      up among the running containers is not the name that started. */
  lemma AddedNewlineLineReadsBack(name: string, ips: AddressPair, layout: Layout)
    requires var t := layout(BuildRule(name, ips));
      !Contains(t.before, Marker) && '\n' !in t.before && '\n' !in t.after
    requires EndsInNewline(name) && ' ' !in name && '\n' !in name[..|name| - 1]
    ensures SearchGroup(SavedLine(BuildRule(name, ips), layout)) == Some(name[..|name| - 1])
  {
    var rule := BuildRule(name, ips);
    var short := name[..|name| - 1];
    assert ' ' !in short by {
      assert forall i :: 0 <= i < |short| ==> short[i] == name[i];
    }
    SearchRoundTrip(layout(rule).before, short, layout(rule).after);
  }

  // ---------------------------------------------------------------- remove

  /** The line test of `remove_rule`: keep a line unless it contains the tag. */
  function KeptByRemove(name: string): (r: string -> bool)
  {
    line => !Contains(line, Tag(name))
  }

  /** The lines no operation of the daemon may touch: those without the marker. */
  predicate Unowned(line: string)
  {
    !Owned(line)
  }

  /** The unowned lines of a table, in order. */
  function UnownedLines(table: seq<string>): (r: seq<string>)
  {
    Filter(table, Unowned)
  }

  /** `remove_rule`'s new table: every line that contains the tag as a substring is dropped. */
  function RemoveLines(table: seq<string>, name: string): (r: seq<string>)
    ensures |r| <= |table|
    ensures forall line :: line in r ==> line in table && !Contains(line, Tag(name))
  {
    Filter(table, KeptByRemove(name))
  }

  /** The loop of `remove_rule`, skipping tagged lines and appending the rest. */
  method RemoveRule(table: seq<string>, name: string) returns (kept: seq<string>)
    ensures kept == RemoveLines(table, name)
  {
    kept := [];
    var i := 0;
    while i < |table|
      invariant 0 <= i <= |table|
      invariant kept == RemoveLines(table[..i], name)
    {
      var line := table[i];
      assert table[..i + 1] == table[..i] + [line];
      FilterAppend(table[..i], [line], KeptByRemove(name));
      if Contains(line, Tag(name)) {
        i := i + 1;
        continue;
      }
      kept := kept + [line];
      i := i + 1;
    }
    assert table[..i] == table;
  }

  /** Removal keeps the input's lines in order, and keeps exactly those that
      do not contain the tag, each with all of its copies. */
  lemma RemoveLinesSpec(table: seq<string>, name: string)
    ensures IsSubsequence(RemoveLines(table, name), table)
    ensures forall line :: line in RemoveLines(table, name) <==> line in table && !Contains(line, Tag(name))
    ensures forall line ::
      multiset(RemoveLines(table, name))[line] == (if Contains(line, Tag(name)) then 0 else multiset(table)[line])
  {
    FilterIsSubsequence(table, KeptByRemove(name));
    forall line
      ensures line in RemoveLines(table, name) <==> line in table && !Contains(line, Tag(name))
      ensures multiset(RemoveLines(table, name))[line] ==
        if Contains(line, Tag(name)) then 0 else multiset(table)[line]
    {
      FilterMembership(table, KeptByRemove(name), line);
      FilterCount(table, KeptByRemove(name), line);
    }
  }

  /** Removing twice is removing once. */
  lemma RemoveIdempotent(table: seq<string>, name: string)
    ensures RemoveLines(RemoveLines(table, name), name) == RemoveLines(table, name)
  {
    FilterIdempotent(table, KeptByRemove(name));
  }

  /** Removing a tag that no line carries leaves the table as it was. */
  lemma RemoveAbsentIsNoOp(table: seq<string>, name: string)
    requires forall i :: 0 <= i < |table| ==> !Contains(table[i], Tag(name))
    ensures RemoveLines(table, name) == table
  {
    FilterKeepsAll(table, KeptByRemove(name));
  }

  /** Lines without the marker are never dropped or reordered by removal. */
  lemma RemoveKeepsUnowned(table: seq<string>, name: string)
    ensures UnownedLines(RemoveLines(table, name)) == UnownedLines(table)
  {
    forall i | 0 <= i < |table|
      ensures Unowned(table[i]) ==> KeptByRemove(name)(table[i])
    {
      if Contains(table[i], Tag(name)) {
        TaggedIsOwned(table[i], name);
      }
    }
    FilterNarrow(table, KeptByRemove(name), Unowned);
  }

  /** Removal matches by substring: removing `n` drops every line that
      removing any longer name `n + m` would drop, so removing `mc1` also
      removes the rules of `mc12`. */
  lemma RemoveMatchesLongerNames(table: seq<string>, n: string, m: string)
    ensures RemoveLines(RemoveLines(table, n + m), n) == RemoveLines(table, n)
  {
    forall i | 0 <= i < |table|
      ensures KeptByRemove(n)(table[i]) ==> KeptByRemove(n + m)(table[i])
    {
      assert Tag(n + m) == Tag(n) + m;
      if Contains(table[i], Tag(n + m)) {
        ContainsPrefix(table[i], Tag(n), m);
      }
    }
    FilterNarrow(table, KeptByRemove(n + m), KeptByRemove(n));
  }

  /** The concrete case: a die event for `mc1` also drops the rule of `mc12`. */
  lemma RemoveMc1DropsMc12(p: string, q: string)
    ensures RemoveLines([p + Tag("mc12") + q], "mc1") == []
  {
    assert p + Tag("mc12") + q == p + Tag("mc1") + ("2" + q);
    ContainsEmbedded(p, Tag("mc1"), "2" + q);
  }

  /** The empty name, the default when an event has none, drops every owned line. */
  lemma RemoveEmptyNameDropsAllOwned(table: seq<string>)
    ensures RemoveLines(table, "") == UnownedLines(table)
  {
    assert Tag("") == Marker;
    assert forall i :: 0 <= i < |table| ==> KeptByRemove("")(table[i]) == Unowned(table[i]);
    FilterSameTest(table, KeptByRemove(""), Unowned);
  }

  /** Inserting a rule for a container that had none and then removing it by
      its name gives the table back exactly, for a name without a final
      newline (see `NewlineNameSurvivesRemove` for the other case). */
  lemma AddThenRemoveRestores(table: seq<string>, name: string, ips: AddressPair, layout: Layout, at: nat)
    requires at <= |table| && !EndsInNewline(name)
    requires forall i :: 0 <= i < |table| ==> !Contains(table[i], Tag(name))
    ensures RemoveLines(AddRule(table, name, Some(ips), layout, at).0, name) == table
  {
    var added := AddRule(table, name, Some(ips), layout, at).0;
    var front, back := table[..at], table[at..];
    assert added == front + ([added[at]] + back);
    FilterAppend(front, [added[at]] + back, KeptByRemove(name));
    FilterAppend([added[at]], back, KeptByRemove(name));
    RemoveAbsentIsNoOp(front, name);
    RemoveAbsentIsNoOp(back, name);
    assert table == front + back;
  }

  /** For a name with a final newline the inserted line carries the tag
      without it, and a saved line holds no newline, so removal by the same
      name keeps the line: the rule stays. */
  lemma NewlineNameSurvivesRemove(table: seq<string>, name: string, ips: AddressPair, layout: Layout, at: nat)
    requires at <= |table| && EndsInNewline(name)
    requires '\n' !in SavedLine(BuildRule(name, ips), layout)
    ensures SavedLine(BuildRule(name, ips), layout) in RemoveLines(AddRule(table, name, Some(ips), layout, at).0, name)
  {
    var added := AddRule(table, name, Some(ips), layout, at).0;
    var line := added[at];
    assert Tag(name)[|Tag(name)| - 1] == '\n';
    if Contains(line, Tag(name)) {
      ContainsChar(line, Tag(name), '\n');
    }
    RemoveLinesSpec(added, name);
  }

  /** Inserting a rule anywhere leaves the unowned lines as they were. */
  lemma AddKeepsUnowned(table: seq<string>, name: string, resolved: Option<AddressPair>, layout: Layout, at: nat)
    requires at <= |table|
    ensures UnownedLines(AddRule(table, name, resolved, layout, at).0) == UnownedLines(table)
  {
    var added := AddRule(table, name, resolved, layout, at).0;
    if resolved.Some? {
      var line := added[at];
      assert added == added[..at] + [line] + added[at + 1..];
      TaggedIsOwned(line, ShellName(name));
      InsertOwnedKeepsUnowned(table, line, at);
    }
  }

  /** An owned line inserted at any position leaves the unowned lines as they were. */
  lemma InsertOwnedKeepsUnowned(table: seq<string>, line: string, at: nat)
    requires at <= |table| && !Unowned(line)
    ensures UnownedLines(table[..at] + [line] + table[at..]) == UnownedLines(table)
  {
    var front, back := table[..at], table[at..];
    assert front + [line] + back == front + ([line] + back);
    assert Filter([line], Unowned) == [];
    FilterAppend(front, [line] + back, Unowned);
    FilterAppend([line], back, Unowned);
    FilterAppend(front, back, Unowned);
    assert table == front + back;
  }

  // ----------------------------------------------------------------- prune

  /** An owned line on which the name search fails; `prune_rules` aborts on it. */
  predicate Malformed(line: string)
  {
    Owned(line) && SearchGroup(line).None?
  }

  /** The line test of `prune_rules`: keep unowned lines, and owned lines whose
      name is among the running containers. */
  predicate KeptByPrune(running: set<string>, line: string)
  {
    !Owned(line) || (SearchGroup(line).Some? && SearchGroup(line).value in running)
  }

  function PruneTest(running: set<string>): (r: string -> bool)
  {
    line => KeptByPrune(running, line)
  }

  /** `prune_rules`' new table, computed in one pass over the lines like its
      loop: None as soon as an owned line has no name to read (the exception
      is caught and nothing is written), otherwise the kept lines in order. */
  function PruneLines(table: seq<string>, running: set<string>): (r: Option<seq<string>>)
    ensures r.Some? ==> |r.value| <= |table|
    ensures r.Some? ==> forall line :: line in r.value ==> line in table && KeptByPrune(running, line)
    ensures r.None? ==> exists i :: 0 <= i < |table| && Malformed(table[i])
  {
    if |table| == 0 then Some([])
    else if Malformed(table[0]) then None
    else
      match PruneLines(table[1..], running)
      case None =>
        assert forall i :: 0 <= i < |table[1..]| ==> table[1..][i] == table[i + 1];
        None
      case Some(rest) => Some(if KeptByPrune(running, table[0]) then [table[0]] + rest else rest)
  }

  /** The one-pass prune gives up exactly when some owned line has no name to
      read, and otherwise yields the lines that pass the prune's test, in order. */
  lemma {:induction false} PruneFailsIffMalformed(table: seq<string>, running: set<string>)
    ensures PruneLines(table, running).None? <==> exists line :: line in table && Malformed(line)
    ensures PruneLines(table, running).Some? ==> PruneLines(table, running).value == Filter(table, PruneTest(running))
  {
    if |table| > 0 {
      PruneFailsIffMalformed(table[1..], running);
      assert forall line :: line in table <==> line == table[0] || line in table[1..];
    }
  }

  /** The loop of `prune_rules`, giving up at the first owned line whose name
      search fails. */
  method PruneRules(table: seq<string>, running: set<string>) returns (r: Option<seq<string>>)
    ensures r == PruneLines(table, running)
  {
    var kept := [];
    var i := 0;
    while i < |table|
      invariant 0 <= i <= |table|
      invariant kept == Filter(table[..i], PruneTest(running))
      invariant forall k :: 0 <= k < i ==> !Malformed(table[k])
    {
      var line := table[i];
      assert table[..i + 1] == table[..i] + [line];
      FilterAppend(table[..i], [line], PruneTest(running));
      if Owned(line) {
        var name := SearchGroup(line);
        if name.None? {
          PruneGivesUpAt(table, running, i);
          return None;
        }
        if name.value !in running {
          i := i + 1;
          continue;
        }
      }
      kept := kept + [line];
      i := i + 1;
    }
    assert table[..i] == table;
    PruneCompletes(table, running);
    return Some(kept);
  }

  /** An unreadable owned line at any position makes the prune give up. */
  lemma PruneGivesUpAt(table: seq<string>, running: set<string>, i: nat)
    requires i < |table| && Malformed(table[i])
    ensures PruneLines(table, running) == None
  {
    PruneFailsIffMalformed(table, running);
    assert table[i] in table;
  }

  /** Without unreadable owned lines the prune yields the filtered table. */
  lemma PruneCompletes(table: seq<string>, running: set<string>)
    requires forall k :: 0 <= k < |table| ==> !Malformed(table[k])
    ensures PruneLines(table, running) == Some(Filter(table, PruneTest(running)))
  {
    PruneFailsIffMalformed(table, running);
    forall line | line in table
      ensures !Malformed(line)
    {
      var k :| 0 <= k < |table| && table[k] == line;
    }
  }

  /** A successful prune keeps the input's lines in order, keeps an owned line
      with all its copies exactly when the name read from it is running, and
      leaves no owned line whose container is not running. */
  lemma PruneSpec(table: seq<string>, running: set<string>)
    requires PruneLines(table, running).Some?
    ensures var out := PruneLines(table, running).value;
      && IsSubsequence(out, table)
      && (forall line :: line in out <==> line in table && KeptByPrune(running, line))
      && (forall line :: multiset(out)[line] == if KeptByPrune(running, line) then multiset(table)[line] else 0)
      && (forall line :: line in out && Owned(line) ==> SearchGroup(line).Some? && SearchGroup(line).value in running)
  {
    PruneFailsIffMalformed(table, running);
    var out := PruneLines(table, running).value;
    FilterIsSubsequence(table, PruneTest(running));
    forall line
      ensures line in out <==> line in table && KeptByPrune(running, line)
      ensures multiset(out)[line] == if KeptByPrune(running, line) then multiset(table)[line] else 0
    {
      FilterMembership(table, PruneTest(running), line);
      FilterCount(table, PruneTest(running), line);
    }
  }

  /** Lines without the marker are never dropped or reordered by a prune. */
  lemma PruneKeepsUnowned(table: seq<string>, running: set<string>)
    requires PruneLines(table, running).Some?
    ensures UnownedLines(PruneLines(table, running).value) == UnownedLines(table)
  {
    PruneFailsIffMalformed(table, running);
    FilterNarrow(table, PruneTest(running), Unowned);
  }

  /** When every owned line names a running container, the prune writes the
      table back unchanged. */
  lemma PruneAllRunningIsNoOp(table: seq<string>, running: set<string>)
    requires forall i :: 0 <= i < |table| && Owned(table[i]) ==>
      SearchGroup(table[i]).Some? && SearchGroup(table[i]).value in running
    ensures PruneLines(table, running) == Some(table)
  {
    PruneFailsIffMalformed(table, running);
    assert forall line :: line in table ==> !Malformed(line);
    FilterKeepsAll(table, PruneTest(running));
  }

  /** Pruning an already pruned table changes nothing. */
  lemma PruneIdempotent(table: seq<string>, running: set<string>)
    requires PruneLines(table, running).Some?
    ensures PruneLines(PruneLines(table, running).value, running) == PruneLines(table, running)
  {
    PruneFailsIffMalformed(table, running);
    var out := PruneLines(table, running).value;
    FilterIdempotent(table, PruneTest(running));
    PruneFailsIffMalformed(out, running);
    assert forall line :: line in out ==> !Malformed(line);
  }

  /** A prune only ever drops lines: a running container without a rule
      stays without one. */
  lemma PruneAddsNothing(table: seq<string>, running: set<string>)
    requires PruneLines(table, running).Some?
    ensures multiset(PruneLines(table, running).value) <= multiset(table)
  {
    PruneSpec(table, running);
  }
}
