/** The daemon's event loop as a state machine over the rule table and the
    time of the last prune: a managed `start` adds the container's rule and
    then prunes if the last prune is at least the interval old; a `die`
    removes the container's rules; every other event changes nothing. */
module Daemon {
  import opened Wrappers
  import opened Strings
  import opened Tags
  import opened Rules
  import opened Names

  /** The minimum time between two prunes, in milliseconds of an integer
      clock (1.5 seconds in the daemon). */
  const PruneIntervalMs: int := 1500

  /** One container event: its status and the container's name, either empty
      when the event does not carry it. */
  datatype Event = Event(status: string, name: string)

  /** What the outside world supplies with one event: the event, what the
      address resolver answers for its container (None when the container is
      gone), the names of the running containers, the clock, and where the
      nat POSTROUTING chain begins in the saved table (the position `-I`
      inserts at; a position past the end stands for the end). */
  datatype Input = Input(event: Event, resolved: Option<AddressPair>, running: set<string>, now: int, at: nat)

  /** The rule table and the time of the last prune. */
  datatype State = State(table: seq<string>, lastPrune: int)

  predicate IsManagedStart(e: Event)
  {
    IsManaged(e.name) && e.status == "start"
  }

  /** The rate limit: a prune runs when at least the interval has passed since the last one. */
  predicate PruneDue(lastPrune: int, now: int)
  {
    now - lastPrune >= PruneIntervalMs
  }

  /** The position a new rule takes in `table`: the head of the chain, or
      the end of the table when the head given lies beyond it. */
  function InsertionPoint(table: seq<string>, at: nat): (k: nat)
    ensures k <= |table|
    ensures at <= |table| ==> k == at
  {
    if at <= |table| then at else |table|
  }

  /** The table right after the start's add_rule, before any prune. */
  function Added(s: State, input: Input, layout: Layout): (r: seq<string>)
  {
    AddRule(s.table, input.event.name, input.resolved, layout, InsertionPoint(s.table, input.at)).0
  }

  /** The table after a prune attempt: the pruned table, or the same table
      when the prune gave up. */
  function PruneOrKeep(table: seq<string>, running: set<string>): (r: seq<string>)
    ensures multiset(r) <= multiset(table)
  {
    if PruneLines(table, running).Some? then
      PruneAddsNothing(table, running);
      PruneLines(table, running).value
    else
      table
  }

  /** A prune attempt keeps every line that passes the prune's test. */
  lemma PruneOrKeepKeepsPassing(table: seq<string>, running: set<string>, line: string)
    requires line in table && KeptByPrune(running, line)
    ensures line in PruneOrKeep(table, running)
  {
    if PruneLines(table, running).Some? {
      PruneSpec(table, running);
    }
  }

  /** One iteration of the event loop. */
  function Step(s: State, input: Input, layout: Layout): (r: State)
    ensures !IsManagedStart(input.event) && input.event.status != "die" ==> r == s
    ensures input.event.status == "die" ==>
      r.table == RemoveLines(s.table, input.event.name) && r.lastPrune == s.lastPrune
    ensures IsManagedStart(input.event) && PruneDue(s.lastPrune, input.now) ==>
      r.lastPrune == input.now && r.table == PruneOrKeep(Added(s, input, layout), input.running)
    ensures IsManagedStart(input.event) && !PruneDue(s.lastPrune, input.now) ==>
      r.lastPrune == s.lastPrune && r.table == Added(s, input, layout)
  {
    var e := input.event;
    if IsManaged(e.name) && e.status == "start" then
      var added := AddRule(s.table, e.name, input.resolved, layout, InsertionPoint(s.table, input.at)).0;
      if input.now - s.lastPrune >= PruneIntervalMs then
        State(PruneOrKeep(added, input.running), input.now)
      else
        State(added, s.lastPrune)
    else if e.status == "die" then
      State(RemoveLines(s.table, e.name), s.lastPrune)
    else
      s
  }

  /** The event loop over a finite prefix of the event stream; the time of
      the last prune never moves backwards. */
  function Run(s: State, inputs: seq<Input>, layout: Layout): (r: State)
    ensures r.lastPrune >= s.lastPrune
    decreases |inputs|
  {
    if |inputs| == 0 then s else Run(Step(s, inputs[0], layout), inputs[1..], layout)
  }

  /** The times at which prunes run along a stream, given the time of the
      last prune before it: at most one per event, each at least the
      interval after that last prune. */
  function PruneTimes(lastPrune: int, inputs: seq<Input>): (r: seq<int>)
    ensures |r| <= |inputs|
    ensures forall j :: 0 <= j < |r| ==> r[j] >= lastPrune + PruneIntervalMs
    decreases |inputs|
  {
    if |inputs| == 0 then []
    else if IsManagedStart(inputs[0].event) && PruneDue(lastPrune, inputs[0].now) then
      [inputs[0].now] + PruneTimes(inputs[0].now, inputs[1..])
    else PruneTimes(lastPrune, inputs[1..])
  }

  // ------------------------------------------------------------ properties

  /** No event changes the lines the daemon does not own, nor their order. */
  lemma StepKeepsUnowned(s: State, input: Input, layout: Layout)
    ensures UnownedLines(Step(s, input, layout).table) == UnownedLines(s.table)
  {
    var e := input.event;
    if IsManagedStart(e) {
      var added := Added(s, input, layout);
      AddKeepsUnowned(s.table, e.name, input.resolved, layout, InsertionPoint(s.table, input.at));
      if PruneDue(s.lastPrune, input.now) && PruneLines(added, input.running).Some? {
        PruneKeepsUnowned(added, input.running);
      }
    } else if e.status == "die" {
      RemoveKeepsUnowned(s.table, e.name);
    }
  }

  /** Along any stream of events, the unowned lines stay exactly as they were. */
  lemma {:induction false} RunKeepsUnowned(s: State, inputs: seq<Input>, layout: Layout)
    ensures UnownedLines(Run(s, inputs, layout).table) == UnownedLines(s.table)
    decreases |inputs|
  {
    if |inputs| > 0 {
      StepKeepsUnowned(s, inputs[0], layout);
      RunKeepsUnowned(Step(s, inputs[0], layout), inputs[1..], layout);
    }
  }

  /** After a managed start whose prune runs and succeeds, every owned line
      left names a running container. */
  lemma StartPruneConverges(s: State, input: Input, layout: Layout)
    requires IsManagedStart(input.event) && PruneDue(s.lastPrune, input.now)
    requires PruneLines(Added(s, input, layout), input.running).Some?
    ensures forall line :: line in Step(s, input, layout).table && Owned(line) ==>
      SearchGroup(line).Some? && SearchGroup(line).value in input.running
    ensures PruneLines(Step(s, input, layout).table, input.running) == Some(Step(s, input, layout).table)
  {
    var added := Added(s, input, layout);
    PruneSpec(added, input.running);
    PruneIdempotent(added, input.running);
  }

  /** A prune that gives up on an unreadable owned line still counts as run,
      and the table keeps the newly added rule. */
  lemma StartPruneGivesUp(s: State, input: Input, layout: Layout)
    requires IsManagedStart(input.event) && PruneDue(s.lastPrune, input.now)
    requires exists line :: line in Added(s, input, layout) && Malformed(line)
    ensures Step(s, input, layout) == State(Added(s, input, layout), input.now)
  {
    PruneFailsIffMalformed(Added(s, input, layout), input.running);
  }

  /** A started container that resolves has its rule in the table after the
      step when no prune runs, and also when one runs, provided the prune's
      test keeps the line (its name is running). */
  lemma StartInstallsRule(s: State, input: Input, layout: Layout, ips: AddressPair)
    requires IsManagedStart(input.event) && input.resolved == Some(ips)
    ensures !PruneDue(s.lastPrune, input.now) ==>
      SavedLine(BuildRule(input.event.name, ips), layout) in Step(s, input, layout).table
    ensures KeptByPrune(input.running, SavedLine(BuildRule(input.event.name, ips), layout)) ==>
      SavedLine(BuildRule(input.event.name, ips), layout) in Step(s, input, layout).table
  {
    var line := SavedLine(BuildRule(input.event.name, ips), layout);
    var added := Added(s, input, layout);
    var k := InsertionPoint(s.table, input.at);
    assert added[k] == line;
    if PruneDue(s.lastPrune, input.now) && KeptByPrune(input.running, line) {
      PruneOrKeepKeepsPassing(added, input.running, line);
    }
  }

  /** Only a managed start that resolves adds a line: every other step, a
      prune included, leaves each line with at most as many copies as
      before. So a running container whose start found it already gone
      stays without a rule, however many prunes follow. */
  lemma OnlyResolvedStartAdds(s: State, input: Input, layout: Layout)
    requires !(IsManagedStart(input.event) && input.resolved.Some?)
    ensures multiset(Step(s, input, layout).table) <= multiset(s.table)
  {
    if input.event.status == "die" && !IsManagedStart(input.event) {
      RemoveLinesSpec(s.table, input.event.name);
    }
  }

  /** The concrete case: `mc7` is running but its start found it gone, so
      the prune that follows leaves the table without a rule for it. */
  lemma MissedStartIsNotRepaired(layout: Layout)
    ensures Step(State([], 0), Input(Event("start", "mc7"), None, {"mc7"}, 1500, 0), layout) == State([], 1500)
  {
    assert IsManaged("mc7") by {
      assert DigitsPart("mc7") == "7";
    }
  }

  /** A duplicate start inserts a second rule for the same container rather
      than replacing the first, when no prune runs in between. */
  lemma DuplicateStartAddsSecondRule(s: State, first: Input, second: Input, layout: Layout)
    requires IsManagedStart(first.event) && second.event == first.event
    requires first.resolved.Some? && second.resolved.Some?
    requires !PruneDue(s.lastPrune, first.now) && !PruneDue(s.lastPrune, second.now)
    ensures var n := first.event.name;
      var l1 := SavedLine(BuildRule(n, first.resolved.value), layout);
      var l2 := SavedLine(BuildRule(n, second.resolved.value), layout);
      && multiset(Step(Step(s, first, layout), second, layout).table) == multiset(s.table) + multiset{l1, l2}
      && Contains(l1, Tag(ShellName(n))) && Contains(l2, Tag(ShellName(n)))
  {
    var mid := Step(s, first, layout);
    var k1 := InsertionPoint(s.table, first.at);
    var k2 := InsertionPoint(mid.table, second.at);
    assert mid.table == AddRule(s.table, first.event.name, first.resolved, layout, k1).0;
    assert mid.table[k1] == SavedLine(BuildRule(first.event.name, first.resolved.value), layout);
    var last := Step(mid, second, layout);
    assert last.table == AddRule(mid.table, second.event.name, second.resolved, layout, k2).0;
    assert last.table[k2] == SavedLine(BuildRule(first.event.name, second.resolved.value), layout);
  }

  /** A start followed by a die for the same container gives the table back,
      when the container had no rule before and no prune ran. */
  lemma StartThenDieRestores(s: State, start: Input, die: Input, layout: Layout)
    requires IsManagedStart(start.event) && start.resolved.Some? && !PruneDue(s.lastPrune, start.now)
    requires !EndsInNewline(start.event.name)
    requires die.event == Event("die", start.event.name)
    requires forall i :: 0 <= i < |s.table| ==> !Contains(s.table[i], Tag(start.event.name))
    ensures Step(Step(s, start, layout), die, layout) == s
  {
    AddThenRemoveRestores(s.table, start.event.name, start.resolved.value, layout, InsertionPoint(s.table, start.at));
  }

  /** For a managed name with a final newline, the die after the start
      misses the rule the start installed, and the rule stays: the rule's
      comment lost the newline to the command-line split, while the die
      looks for the tag with it. */
  lemma StartThenDieKeepsNewlineRule(s: State, start: Input, die: Input, layout: Layout)
    requires IsManagedStart(start.event) && start.resolved.Some? && !PruneDue(s.lastPrune, start.now)
    requires EndsInNewline(start.event.name)
    requires die.event == Event("die", start.event.name)
    requires '\n' !in SavedLine(BuildRule(start.event.name, start.resolved.value), layout)
    ensures SavedLine(BuildRule(start.event.name, start.resolved.value), layout) in Step(Step(s, start, layout), die, layout).table
  {
    NewlineNameSurvivesRemove(s.table, start.event.name, start.resolved.value, layout, InsertionPoint(s.table, start.at));
  }

  /** The concrete case: `mc1\n` is managed, and after its start and its die
      on an empty table the table holds its rule. */
  lemma Mc1NewlineRuleOutlivesDie(ips: AddressPair, layout: Layout)
    requires '\n' !in SavedLine(BuildRule("mc1\n", ips), layout)
    ensures var start := Input(Event("start", "mc1\n"), Some(ips), {}, 0, 0);
      var die := Input(Event("die", "mc1\n"), None, {}, 0, 0);
      Step(Step(State([], 0), start, layout), die, layout).table == [SavedLine(BuildRule("mc1\n", ips), layout)]
  {
    var start := Input(Event("start", "mc1\n"), Some(ips), {}, 0, 0);
    var die := Input(Event("die", "mc1\n"), None, {}, 0, 0);
    assert IsManaged("mc1\n") by {
      assert DigitsPart("mc1\n") == "1";
    }
    StartThenDieKeepsNewlineRule(State([], 0), start, die, layout);
    var mid := Step(State([], 0), start, layout);
    assert InsertionPoint([], 0) == 0;
    assert mid.table == AddRule([], "mc1\n", Some(ips), layout, 0).0;
    assert |mid.table| == 1;
  }

  /** The time of the last prune moves to the event's time exactly when a
      managed start finds a prune due. */
  lemma StepLastPrune(s: State, input: Input, layout: Layout)
    ensures Step(s, input, layout).lastPrune ==
      if IsManagedStart(input.event) && PruneDue(s.lastPrune, input.now) then input.now else s.lastPrune
  {
  }

  /** The last element of `t`, or `d` when `t` is empty. */
  function LastOr(d: int, t: seq<int>): (r: int)
  {
    if |t| == 0 then d else t[|t| - 1]
  }

  /** The time of the last prune recorded by the state is the time of the
      last prune that ran, or the starting value when none ran. */
  lemma {:induction false} RunLastPrune(s: State, inputs: seq<Input>, layout: Layout)
    ensures Run(s, inputs, layout).lastPrune == LastOr(s.lastPrune, PruneTimes(s.lastPrune, inputs))
    decreases |inputs|
  {
    if |inputs| > 0 {
      var x := inputs[0];
      var s' := Step(s, x, layout);
      RunLastPrune(s', inputs[1..], layout);
      StepLastPrune(s, x, layout);
      var rest := PruneTimes(s'.lastPrune, inputs[1..]);
      if IsManagedStart(x.event) && PruneDue(s.lastPrune, x.now) {
        assert PruneTimes(s.lastPrune, inputs) == [x.now] + rest;
        assert LastOr(s.lastPrune, [x.now] + rest) == LastOr(x.now, rest);
      } else {
        assert PruneTimes(s.lastPrune, inputs) == rest;
      }
    }
  }

  /** Prune times `t` after a last prune at `start` keep the rate limit: the
      k-th comes at least k + 1 intervals after `start`, and any two are at
      least as many intervals apart as their distance in the sequence. */
  predicate Spaced(start: int, t: seq<int>)
  {
    && (forall j :: 0 <= j < |t| ==> t[j] >= start + (j + 1) * PruneIntervalMs)
    && (forall i, j :: 0 <= i < j < |t| ==> t[j] - t[i] >= (j - i) * PruneIntervalMs)
  }

  /** Prunes that run along any stream of events keep the rate limit. */
  lemma {:induction false} PrunesAreSpaced(lastPrune: int, inputs: seq<Input>)
    ensures Spaced(lastPrune, PruneTimes(lastPrune, inputs))
    decreases |inputs|
  {
    var t := PruneTimes(lastPrune, inputs);
    if |inputs| > 0 {
      var x := inputs[0];
      if IsManagedStart(x.event) && PruneDue(lastPrune, x.now) {
        var rest := PruneTimes(x.now, inputs[1..]);
        PrunesAreSpaced(x.now, inputs[1..]);
        assert Spaced(x.now, rest);
        assert t == [x.now] + rest;
        forall j | 0 <= j < |t|
          ensures t[j] >= lastPrune + (j + 1) * PruneIntervalMs
        {
          if j > 0 {
            assert t[j] == rest[j - 1];
            assert rest[j - 1] >= x.now + ((j - 1) + 1) * PruneIntervalMs;
          }
        }
        forall i, j | 0 <= i < j < |t|
          ensures t[j] - t[i] >= (j - i) * PruneIntervalMs
        {
          assert t[j] == rest[j - 1];
          if i > 0 {
            assert t[i] == rest[i - 1];
            assert rest[j - 1] - rest[i - 1] >= ((j - 1) - (i - 1)) * PruneIntervalMs;
          } else {
            assert rest[j - 1] >= x.now + ((j - 1) + 1) * PruneIntervalMs;
          }
        }
      } else {
        PrunesAreSpaced(lastPrune, inputs[1..]);
        assert t == PruneTimes(lastPrune, inputs[1..]);
      }
    }
  }

  /** A burst of starts: starts at 1500 ms and 1700 ms after a prune at 0 ms
      give one prune, and a start 1600 ms after that prune gives the second. */
  lemma BurstPrunesOnce()
    ensures PruneTimes(0, [
      Input(Event("start", "mc4"), None, {}, 1500, 0),
      Input(Event("start", "mc5"), None, {}, 1700, 0),
      Input(Event("start", "mc6"), None, {}, 3100, 0)]) == [1500, 3100]
  {
    assert IsManaged("mc4") && IsManaged("mc5") && IsManaged("mc6") by {
      assert DigitsPart("mc4") == "4" && DigitsPart("mc5") == "5" && DigitsPart("mc6") == "6";
    }
  }
}
