# dfm rule reconciler: a Dafny model

`dfm/dfmd.py` is a small daemon that manages source-NAT rules in the host's
iptables `nat` table for containers named `mc<digits>`. Each rule rewrites
traffic from a container's bridge address to the host address of the
container's published port, and carries the comment tag `dfm_rule_<name>`.
The daemon reacts to container events:

- when a managed container starts, it inserts the container's rule;
- when any container dies, it rewrites the table without the lines holding
  the container's tag;
- after a start, at most once every 1.5 seconds, it drops tagged lines
  whose container is not running.

Nothing here makes the table hold exactly one rule per running container;
the points further down say why.

This project models that reconciliation logic on the rule table as the
sequence of lines `iptables-save` prints. The shell-outs and Docker calls are
not modelled. The modules are:

- `Wrappers` (wrappers.dfy): `Option`.
- `Seqs` (seqs.dfy): order-preserving `Filter`, the shape of every table
  rewrite, and its laws.
- `Strings` (strings.dfy): substring search, the meaning of Python's
  `t in s`.
- `Tags` (tags.dfy): the marker and tag. It also holds two ways of reading a
  name back from a line. `SearchGroup` models
  `re.search("dfm_rule_(.*?) ", line)` exactly. `ExtractName` is the
  reference reading, "first marker up to the next space".
- `Rules` (rules.dfy): rule construction and the command's argument vector,
  plus `add_rule`, `remove_rule` and `prune_rules` as functions on the table.
  The loops of the last two are also written as methods that equal those
  functions.
- `Names` (names.dfy): the `^mc[0-9]+$` classification. It is shown equal to
  the regular expression's automaton.
- `Daemon` (daemon.dfy): the event loop as a pure step function on
  `(table, lastPrune)` with an integer millisecond clock. It also defines runs
  over finite event streams and the times at which prunes run.

The environment is passed in as parameters: the resolver's answer (`None`
when the container is gone), the set of running container names, the clock
reading, and how `iptables-save` prints a rule (`Layout`).

The points below are behaviour of the code that one might not expect of such
a daemon. The model follows the code in each:

- A second `start` for the same name inserts a second rule. The `-I` insert
  is unconditional, so nothing is replaced, and "one rule per container" is
  not an invariant here.
- `-I POSTROUTING` puts the rule at the head of the nat `POSTROUTING`
  chain. That position is not the head of the `iptables-save` dump, which
  begins with other tables and chain headers. The model takes the position
  as an input (`Input.at`) and proves the insertion laws for every position.
- Removal matches the tag as a substring. Removing `mc1` also drops the rules
  of `mc12`. An event without a name removes every owned line.
- A prune keeps an owned line when the name read from it is among ALL running
  containers' names, managed or not.
- A prune only removes lines. A container that is running but has no rule,
  because its start found it already gone, stays without one however many
  prunes follow. So the table converges only in one direction: after a
  successful prune every owned line names a running container, but not every
  running managed container has a line.
- A prune on a table with an owned line that has no space after its name
  abandons the whole rewrite. That line is one where `re.search` returns
  `None`, so `.group(1)` raises and the exception is caught. The prune still
  counts for the rate limit.
- Python's `$` also matches before one final newline, so `mc1\n` counts as
  managed. The command that inserts its rule is one string split into words
  by `shlex.split`, and the name ends it, so the newline is dropped and the
  rule carries `dfm_rule_mc1`. A later die for `mc1\n` looks for
  `dfm_rule_mc1\n`, which no saved line holds, so the rule stays.

## Model

| member | source | states |
|---|---|---|
| Strings.FindFrom | dfm/dfmd.py:46 | the substring test `t in s`: the search returns the first index at which `t` occurs, and None exactly when it occurs nowhere |
| Tags.Tag | dfm/dfmd.py:23 | the tag of `name` is the marker `dfm_rule_` followed by exactly `name`, so distinct names have distinct tags |
| Tags.SearchGroup | dfm/dfmd.py:73 | the name the prune reads from a line with `re.search("dfm_rule_(.*?) ", line)`: when found it has no space and no newline, and the line holds its tag followed by a space |
| Tags.ExtractName | dfm/dfmd.py:73 | the reference reading of a line, first marker up to the next space: when found, the line holds that name's tag followed by a space |
| Tags.SearchAgreesWithFirstMarker | dfm/dfmd.py:73 | on a line without a newline, the non-greedy search `dfm_rule_(.*?) ` yields the text from the first marker up to the next space, and fails exactly when there is no such space |
| Tags.ExtractRoundTrip | dfm/dfmd.py:73 | a line `p + tag(n) + " " + s`, with no marker in `p` and no space in `n`, reads back as `n` |
| Tags.SearchRoundTrip | dfm/dfmd.py:73 | the same round trip through the regular-expression search, for lines without newlines |
| Tags.TaggedIsOwned | dfm/dfmd.py:72 | every line that contains some container's tag contains the marker, so prune treats it as owned |
| Rules.BuildRule | dfm/dfmd.py:23-29 | the rule `add_rule` installs: table `nat`, chain `POSTROUTING`, protocol `all`, target `SNAT`, source the internal address, `--to-source` the external address, comment the container's tag, without the final newline of the name that the command-line split drops |
| Rules.Argv | dfm/dfmd.py:24-29 | the command `add_rule` runs has 17 words starting with `iptables`, and every odd position holds an option flag |
| Rules.ArgvPlacement | dfm/dfmd.py:24-25 | the insertion command targets table `nat` and inserts (`-I`) into chain `POSTROUTING` |
| Rules.ArgvTranslation | dfm/dfmd.py:25 | the command's source is the container's internal address and its `--to-source` is the external address, not the other way round |
| Rules.ArgvTargetAndComment | dfm/dfmd.py:23-29 | the command jumps to `SNAT`, and its `--comment` word is the tag of the name without a final newline, which `shlex.split` drops |
| Rules.SavedLine | dfm/dfmd.py:26 | however `iptables-save` prints a rule, its line holds the rule's comment followed by a space |
| Rules.AddRule | dfm/dfmd.py:19-33 | a resolved container gets one new line at the head of the nat `POSTROUTING` chain, whatever position that is in the dump, holding the tag of its name without a final newline, with the lines before and after it unchanged, and the result is true; a container that is gone leaves the table as it was and gives false |
| Rules.AddedLineReadsBack | dfm/dfmd.py:23-29 | the saved line of a newly added rule reads back through the prune's search as the container's name |
| Rules.AddedNewlineLineReadsBack | dfm/dfmd.py:23-29 | for a name ending in its only newline, the saved line reads back as the name without it |
| Rules.AddKeepsUnowned | dfm/dfmd.py:25 | inserting a rule at any position leaves the unowned lines and their order unchanged |
| Rules.InsertOwnedKeepsUnowned | dfm/dfmd.py:25 | an owned line inserted at any position of the table leaves the sequence of unowned lines unchanged |
| Rules.RemoveLines | dfm/dfmd.py:44-48 | `remove_rule`'s new table: no longer than the old one, and every line in it comes from the old table and does not contain the tag |
| Rules.RemoveRule | dfm/dfmd.py:44-48 | the skip-and-append loop computes exactly the filtered table |
| Rules.RemoveLinesSpec | dfm/dfmd.py:45-48 | removal returns a subsequence of the input that holds exactly the lines not containing the tag, each with all of its copies, and no copy of a tagged line |
| Rules.RemoveIdempotent | dfm/dfmd.py:45-48 | removing the same name twice is removing it once |
| Rules.RemoveAbsentIsNoOp | dfm/dfmd.py:45-48 | when no line contains the tag, removal returns the table element for element |
| Rules.RemoveKeepsUnowned | dfm/dfmd.py:45-48 | lines without the marker are never dropped or reordered by removal |
| Rules.RemoveMatchesLongerNames | dfm/dfmd.py:46 | removing `n` also drops every line that removing `n + m` drops |
| Rules.RemoveMc1DropsMc12 | dfm/dfmd.py:46 | a die for `mc1` drops a line tagged for `mc12` |
| Rules.RemoveEmptyNameDropsAllOwned | dfm/dfmd.py:46 | removal with the empty name, the default name of an event, leaves only the unowned lines |
| Rules.AddThenRemoveRestores | dfm/dfmd.py:45-48 | inserting a rule for a container that had none, at any position, and then removing by its name gives back the original table, for a name that does not end in a newline |
| Rules.NewlineNameSurvivesRemove | dfm/dfmd.py:23-48 | for a name ending in a newline, removal by that name after inserting its rule keeps the inserted line |
| Rules.PruneLines | dfm/dfmd.py:70-83 | `prune_rules`' new table, in one pass: when it is produced, it is no longer than the old one and every line in it comes from the old table and passes the prune's test; when the pass gives up, some owned line has no name to read |
| Rules.PruneRules | dfm/dfmd.py:70-85 | the prune loop gives the same answer as the one-pass prune |
| Rules.PruneGivesUpAt | dfm/dfmd.py:72-83 | an owned line with no name to read, at any position, makes the whole prune give up |
| Rules.PruneCompletes | dfm/dfmd.py:70-76 | a table without such lines prunes to the lines that pass the prune's test, in order |
| Rules.PruneFailsIffMalformed | dfm/dfmd.py:72-83 | the one-pass prune gives up exactly when some owned line has no name to read, and otherwise equals the order-preserving filter by the prune's line test |
| Rules.PruneSpec | dfm/dfmd.py:70-76 | a successful prune returns a subsequence of the input; an owned line stays, with all its copies, exactly when its name is running, so every owned line left names a running container |
| Rules.PruneKeepsUnowned | dfm/dfmd.py:71-76 | lines without the marker are never dropped or reordered by a prune |
| Rules.PruneAllRunningIsNoOp | dfm/dfmd.py:71-76 | when every owned line names a running container, the prune writes the same table back |
| Rules.PruneIdempotent | dfm/dfmd.py:70-76 | pruning a pruned table with the same running set changes nothing |
| Rules.PruneAddsNothing | dfm/dfmd.py:70-76 | a prune never adds a line or a copy of one |
| Names.IsManaged | dfm/dfmd.py:111 | the naming convention of managed containers: a managed name is `mc` followed by its digits part, which starts with a digit, optionally followed by one newline |
| Names.ManagedIffPatternMatches | dfm/dfmd.py:111 | a name is managed (`mc`, one or more ASCII digits, optionally one final newline) exactly when the automaton of `^mc[0-9]+$` accepts it |
| Names.ManagedFromDigits | dfm/dfmd.py:111 | after the `mc` prefix, a name is managed exactly when the pattern's automaton accepts the rest |
| Names.ManagedHasNoSpace | dfm/dfmd.py:111 | a managed name has no space, so its tag can be read back |
| Names.ClassificationExamples | dfm/dfmd.py:111 | `mc1` and `mc42` are managed; `mc`, `web1` and `mc12x` are not |
| Daemon.PruneOrKeep | dfm/dfmd.py:66-85 | the table after `prune_rules` runs: never more copies of any line than before |
| Daemon.PruneOrKeepKeepsPassing | dfm/dfmd.py:71-76 | a prune attempt, whether it completes or gives up, keeps every line that passes its test |
| Daemon.Step | dfm/dfmd.py:118-126 | a `die` removes for any name and keeps the prune time; an event that is neither a managed start nor a die changes nothing; a managed start adds its rule, then prunes exactly when at least 1500 ms have passed, and the prune time becomes the current time exactly then |
| Daemon.Run | dfm/dfmd.py:113-126 | the loop over a finite stream of events never moves the recorded prune time backwards |
| Daemon.PruneTimes | dfm/dfmd.py:113-124 | the prunes along a stream: at most one per event, each at least 1500 ms after the prune before the stream |
| Daemon.StepKeepsUnowned | dfm/dfmd.py:118-126 | no event changes the unowned lines or their order |
| Daemon.RunKeepsUnowned | dfm/dfmd.py:114-126 | along any finite stream of events the unowned lines stay exactly as they were |
| Daemon.StartPruneConverges | dfm/dfmd.py:119-124 | after a start whose prune runs and succeeds, every owned line names a running container, and pruning again changes nothing |
| Daemon.StartPruneGivesUp | dfm/dfmd.py:121-124 | a prune that gives up still moves the prune time to now and leaves the table with the new rule |
| Daemon.StartInstallsRule | dfm/dfmd.py:119-124 | a started container that resolves has its new rule in the table afterwards when no prune runs, and also when one runs provided the prune keeps that line (its name is running) |
| Daemon.OnlyResolvedStartAdds | dfm/dfmd.py:118-126 | every step other than a managed start that resolves, prunes included, leaves no line with more copies than before |
| Daemon.MissedStartIsNotRepaired | dfm/dfmd.py:118-124 | a running `mc7` whose start found it gone has no rule after the prune that follows |
| Daemon.DuplicateStartAddsSecondRule | dfm/dfmd.py:118-119 | two starts for the same name with no prune in either step add two tagged lines for it, one per start |
| Daemon.StartThenDieRestores | dfm/dfmd.py:118-126 | a start followed by a die for the same new container, with no prune in between, gives the state back, for a name that does not end in a newline |
| Daemon.StartThenDieKeepsNewlineRule | dfm/dfmd.py:118-126 | for a managed name ending in a newline, the die after its start leaves the rule the start installed in the table |
| Daemon.Mc1NewlineRuleOutlivesDie | dfm/dfmd.py:118-126 | on an empty table, a start and then a die for `mc1\n` leave exactly the rule of `mc1\n` |
| Daemon.RunLastPrune | dfm/dfmd.py:121-123 | the recorded prune time is the time of the last prune that ran, or the start value when none ran |
| Daemon.PrunesAreSpaced | dfm/dfmd.py:113-124 | the prunes that run come k + 1 intervals after startup or later, and any two are at least their distance in intervals apart |
| Daemon.BurstPrunesOnce | dfm/dfmd.py:121-124 | starts at 1500 and 1700 ms after a prune at 0 give one prune; a start 1600 ms after that prune gives the second |

## Left out

- Invoking `iptables`, `iptables-save` and `iptables-restore` is not modelled. The model works on the table as a sequence of lines, so the `splitlines` and `"\n".join` serialisation is not modelled either.
- How `iptables-save` prints a rule comes from iptables, not this code. It is the `Layout` parameter: some text, the comment token, a space, then more text.
- Rules.ArgvTranslation: models the argument vector directly instead of splitting the command string with `shlex.split`. The two agree when each address is non-empty and contains no whitespace, quotes or backslashes: `shlex.split` drops an empty word and removes an unquoted backslash.
- Rules.BuildRule: of what `shlex.split` does to the name, only the dropped final newline is modelled. A name with other whitespace or with quotes would split or unquote differently; such a name is never managed, so the daemon never builds its rule.
- Docker calls are replaced by inputs: `containers.get`, `containers.list`, the event stream and `get_ips`. The resolver's answer is an `Option`, and the running names are a set. `get_ips` takes the port binding `popitem()` returns, and that choice is not modelled.
- Rules.AddRule: failures other than the container being gone are not modelled. Examples are a missing port binding or a failing `iptables` command. In the code they raise out of the event loop.
- Rules.RemoveRule: the failure path is not modelled. It catches only I/O failures of the iptables tools, and the table is then left as it was.
- Rules.PruneRules: its own I/O failure path is not modelled. When `iptables-save` or `containers.list` raises, `prune_rules` returns False and the table is left as it was, while the loop has already moved the prune time. The outcome equals that of a prune that gives up on an unreadable line (`Daemon.StartPruneGivesUp`).
- Daemon.Step: where the nat `POSTROUTING` chain begins in the dump comes from iptables and is an input. A position past the end of the table stands for the end.
- The clock is a plain integer parameter: milliseconds with a 1500 ms interval, not floating-point seconds.
- `Daemon.Run` and `Daemon.PruneTimes` cover finite prefixes of the event stream. The stream itself is unbounded.
- Other processes changing the table between a read and a write are not modelled.
- The command-line entry point, the global `_bridge` and `setup.py` are startup wiring and packaging.
