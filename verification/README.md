# DiffLore: verified models

DiffLore keeps a memory of review rules for coding agents. This project models the parts of it that
rewrite other people's files, coordinate processes, or keep records that must not be lost, and proves
what they promise for all inputs and all runs.

- **Autopilot schedule** (`Autopilot.dfy`, `AutopilotRuns.dfy`, `AutopilotOverlap.dfy`,
  `AutopilotProgress.dfy`): one SQLite row that any number of processes update. Each SQL statement is an
  atomic step; a failed acquire is two steps with others in between. Theorems are about every interleaved
  run under a clock that never goes back.
- **Goose YAML editor** (`YamlScalar.dfy`, `GooseYaml.dfy`, `GooseScan.dfy`, `GooseBlock.dfy`,
  `GooseReplace.dfy`, `GooseInstall.dfy`, `GooseRoundTrip.dfy`, `GooseAppend.dfy`, `GooseWhole.dfy`,
  `GooseShapes.dfy`): the line scanners that install, detect,
  replace, extract and remove one block of a YAML file, and how they undo each other.
- **Terminal wrapping** (`AnsiText.dfy`, `AnsiWrap.dfy`, `AnsiFill.dfy`, `AnsiStyle.dfy`,
  `AnsiLines.dfy`, `AnsiOutput.dfy`, `AnsiGreedy.dfy`, `AnsiDocument.dfy`, `AnsiReturn.dfy`,
  `AnsiColours.dfy`, `AnsiRows.dfy`): a word wrapper over text with
  control sequences (SGR, section 8.3.117 of ECMA-48), with the code's own notion of the active sequence.
- **Hook settings** (`Json.dfy`, `HookGroups.dfy`, `HookMerge.dfy`, `HookLaws.dfy`,
  `HookCommands.dfy`, `HookFiles.dfy`): merging DiffLore's
  hook groups into the Claude Code and Codex settings and taking them out again.
- **Session-mined inbox** (`InboxRows.dfy`, `Inbox.dfy`, `Outbox.dfy`, `InboxLaws.dfy`,
  `InboxRaces.dfy`, `InboxDeletes.dfy`, `InboxParse.dfy`): outbox rows with
  review and triage marks in their JSON payloads, read by SQL on one side and by a parser on the other.
- **Self-recall evaluation** (`EvalSampling.dfy`, `EvalMetrics.dfy`), **injection cache**
  (`InjectionCache.dfy`) and **repository aliases** (`RepoAliases.dfy`).
- `Wrappers.dfy`, `Text.dfy` and `Sorting.dfy` hold what these share.

Loops and in-place updates are methods; each is proved equal to a function on values, and the theorems
are about those functions. Maps are iterated in an arbitrary order, so what is proved holds for every
order. Times, widths, retrieval outcomes, digests, the query distilled from a rule and the success of
promoting a rule are parameters.

## Edges the proofs make exact

Each entry names the theorem with the exact condition and, where one is needed, a lemma with a real input
on the failing side.

- A dirty mark and a run that starts in the same millisecond: the flag stays set, which is what the
  scheduler intends (`NoMarkLost`).
- A worker that outlives its lease is not stopped, so two runs can be under way at once, but only after
  the first lease has expired or was released (`RunsOverlapOnlyAfterExpiry`, `TwoRunsAtOnce`).
- A section header that is the last line without a newline gets the new entry glued to it
  (`InsertIsDetectedIffTerminated`, `BareHeaderGetsGlued`).
- A column-0 comment below a bare header makes the cleanup drop the header and orphan its children
  (`HeaderLostIff`, `OrphanedIff`, `CommentCostsTheHeader`).
- A removal or a second install also swallows the blank and comment lines right below the header
  (`InsertThenRemove`, `SectionRoundTrip`, `InstallTwice`, `BlankLineIsSwallowed`).
- The lines of a command with newlines fall off the block unless they are blank or deeper than the key
  (`HoldsByCommand`, `LastReplacementWins`, `NewlineFallsOff`).
- Commands that start with an indicator other than those the quoting looks for, or hold a line break, do
  not survive (`ScalarRoundTrip`, `QuotedCommandIsLost`).
- Wrapping is not idempotent on lines that end in several carriage returns (`WrapTwiceIsOnce`,
  `WrapTwiceByLines`, `ReturnsGoOneByOne`).
- A colour that runs from a split line into the next one is lost (`TextKeepsStyle`, `ColoursCanChange`).
- A user's command in one group with DiffLore's goes with it (`MergeKeepsUserCommands`,
  `SharedGroupLosesTheUser`).
- The query hides a triage status in any letter case, the parser knows only the exact spelling, and the
  older field name is known to the parser only (`HiddenForGood`, `OtherCaseComesBack`,
  `OldNameStaysInReview`).
- A deletion, a triage or an approval that read its rows earlier can delete a row approved since, or write
  over a triage set since (`OverlapKeepsIff`, `ApprovedIffNotNamed`, `TriageIffNotOverwritten`,
  `OverlapLosesApproval`, `OverlapOverwritesTriage`).
- The TTL is read at every call; if it is raised far enough between calls, an entry the log would still
  honour is gone (`TtlBound`).
- Everything lies under the directory `/`, but the alias test says that only `/` itself does
  (`RootContainsOnlyItself`).

## Model

| member | source | states |
|---|---|---|
| `AutopilotRuns.DirtyIffOutstanding` | crates/difflore-core/src/memory_autopilot_schedule.rs:118-135 | In every interleaved run the dirty flag is set exactly when some mark has not been discharged by an effective finish of a run that started strictly after it and after every earlier mark |
| `AutopilotRuns.NoMarkLost` | crates/difflore-core/src/memory_autopilot_schedule.rs:118-135 | After a mark the flag stays set until an effective finish of a run whose `started_at` is strictly later; a run started in the same millisecond does not clear it |
| `AutopilotRuns.DischargeSawEveryMark` | crates/difflore-core/src/memory_autopilot_schedule.rs:230-249 | The run that clears the flag read its `started_at` after every mark it clears |
| `AutopilotRuns.ClearsIffDischarges` | crates/difflore-core/src/memory_autopilot_schedule.rs:404-434 | The stored comparison of the finish statement is exactly the history's notion of a discharge; a finish that discharges nothing leaves the flag alone |
| `AutopilotRuns.LastDirtyIsLatestMark` | crates/difflore-core/src/memory_autopilot_schedule.rs:121-133 | `last_dirty_at` is the time of the latest mark of the run |
| `AutopilotRuns.LeaseExclusion` | crates/difflore-core/src/memory_autopilot_schedule.rs:137-195 | Two acquires, scheduled or manual, never hold overlapping leases: before the second one the first lease was ended by its own holder or is strictly past its expiry |
| `AutopilotRuns.StaleOwnerIsPowerless` | crates/difflore-core/src/memory_autopilot_schedule.rs:197-249 | With fresh owner tokens, a worker whose lease was taken over or ended changes no column: no finish, no release, no spawn note, and its ownership check fails |
| `AutopilotOverlap.RunsOverlapOnlyAfterExpiry` | crates/difflore-core/src/memory_autopilot_schedule.rs:174-249 | With one start per token, two workers past their ownership check under different tokens at once imply that the later lease was acquired after the earlier one expired or was released under its own token |
| `AutopilotOverlap.TwoRunsAtOnce` | crates/difflore-core/src/memory_autopilot_schedule.rs:230-249 | A run of seven events after which two workers run at once: nothing stops the one whose lease expired |
| `AutopilotOverlap.RunWasCheckedInTime` | crates/difflore-core/src/memory_autopilot_schedule.rs:230-249 | A worker runs under a token only after a check of its own that met the lease of that token at most ten minutes after it was acquired |
| `AutopilotOverlap.CheckDecides` | crates/difflore-core/src/memory_autopilot_schedule.rs:236-249 | A check lets the worker run exactly when its token holds the lease and the lease is at most ten minutes old; otherwise the worker goes idle |
| `AutopilotOverlap.AcquiresIff` | crates/difflore-core/src/memory_autopilot_schedule.rs:144-172 | In every run a scheduled acquire succeeds exactly when the schedule is on, a mark is outstanding, no lease of the last ten minutes is held, and the last finish is longer ago than the cooldown |
| `AutopilotOverlap.AcquiresManuallyIff` | crates/difflore-core/src/memory_autopilot_schedule.rs:174-195 | A manual acquire succeeds exactly when no lease of the last ten minutes is held |
| `AutopilotOverlap.SkipSaysWhy` | crates/difflore-core/src/memory_autopilot_schedule.rs:374-402 | The recorded reason is the first of these four conditions that the history does not meet, and `unknown` when it meets all of them |
| `AutopilotProgress.CycleCompletes` | crates/difflore-core/src/memory_autopilot_schedule.rs:118-249 | From the end of every run with the schedule on, once the latest lease and the cooldown are over, any idle worker can mark, acquire, pass its check and finish; the flag is then clear, the lease free and the result stored |
| `AutopilotRuns.LeaseStandsUntil` | crates/difflore-core/src/memory_autopilot_schedule.rs:174-228 | An acquired lease is the stored one until it is ended under its own token or another acquire finds it expired |
| `AutopilotRuns.HolderIsStored` | crates/difflore-core/src/memory_autopilot_schedule.rs:145-195 | The stored owner and expiry are those of the acquire that the history says holds the lease, and both are absent when none does |
| `AutopilotRuns.LeaseColumnsAgreeAlways` | crates/difflore-core/src/memory_autopilot_schedule.rs:86-116 | In every reachable state the owner is set exactly when the expiry is |
| `AutopilotRuns.CountersMatchHistory` | crates/difflore-core/src/memory_autopilot_schedule.rs:121-227 | Each of the seven counter columns equals the number of events of its kind in the history |
| `AutopilotRuns.LeasesConserved` | crates/difflore-core/src/memory_autopilot_schedule.rs:180-227 | All acquires = runs + effective releases + takeovers of expired leases + 1 if a lease is stored |
| `AutopilotRuns.CountersConserved` | crates/difflore-core/src/memory_autopilot_schedule.rs:374-434 | Triggers = marks + spawn attempts + manual acquires; attempts = skips + scheduled acquires; productive runs are at most runs |
| `AutopilotRuns.CooldownRespected` | crates/difflore-core/src/memory_autopilot_schedule.rs:144-172 | A scheduled acquire with a cooldown of c seconds comes strictly more than c * 1000 ms after every earlier effective finish, and a negative cooldown asks for nothing more than a later instant |
| `AutopilotRuns.SkipReasonIsExact` | crates/difflore-core/src/memory_autopilot_schedule.rs:374-402 | Each of the reasons `disabled`, `not_dirty`, `lease_held`, `cooldown` and `unknown` is recorded exactly in its own case; `unknown` exactly when the acquire guard holds at the instant of the skip statement |
| `AutopilotRuns.UnknownMeansInterference` | crates/difflore-core/src/memory_autopilot_schedule.rs:161-172 | An `unknown` skip belongs to an earlier failed acquire of the same worker, and the row changed or the clock moved in between |
| `AutopilotRuns.SkipHasItsAcquire` | crates/difflore-core/src/memory_autopilot_schedule.rs:161-172 | A worker that owes a skip record owes it for its latest statement, a failed acquire with that reason and cooldown, so none is recorded twice |
| `AutopilotRuns.ColumnsRememberLatest` | crates/difflore-core/src/memory_autopilot_schedule.rs:374-434 | The last mark and the last trigger with their reasons, the last run with its result and the text of the skip reason are those of the latest event of their kind |
| `Autopilot.ScheduleTable.Mark` | crates/difflore-core/src/memory_autopilot_schedule.rs:118-135 | The in-place update of a mark equals the row function the run theorems use |
| `Autopilot.ScheduleTable.UpdateLease` | crates/difflore-core/src/memory_autopilot_schedule.rs:144-160 | The guarded update of a scheduled acquire; it reports a row exactly when the guard held |
| `Autopilot.ScheduleTable.TryAcquire` | crates/difflore-core/src/memory_autopilot_schedule.rs:137-172 | Both statements of an acquire without interleaving: the lease is taken, or exactly one skip is recorded |
| `Autopilot.ScheduleTable.TryAcquireManual` | crates/difflore-core/src/memory_autopilot_schedule.rs:174-195 | A manual acquire succeeds exactly on a free lease |
| `Autopilot.ScheduleTable.Skip` | crates/difflore-core/src/memory_autopilot_schedule.rs:374-402 | The skip record counts the attempt and stores the reason computed from the row it meets |
| `Autopilot.ScheduleTable.NoteSpawn` | crates/difflore-core/src/memory_autopilot_schedule.rs:197-208 | A spawn is counted only under the stored owner token |
| `Autopilot.ScheduleTable.ReleaseLease` | crates/difflore-core/src/memory_autopilot_schedule.rs:210-228 | A release acts only under the stored owner token |
| `Autopilot.ScheduleTable.Finish` | crates/difflore-core/src/memory_autopilot_schedule.rs:404-434 | A finish acts only under the stored owner token and keeps the flag if a mark is not older than the run |
| `YamlScalar.ScalarRoundTrip` | crates/difflore-cli/src/installer/goose_yaml.rs:144-160 | Decoding the escaped command returns it exactly when it has no line break and was quoted or is a plain scalar by section 7.3 of YAML 1.2 |
| `YamlScalar.PathsRoundTrip` | crates/difflore-cli/src/installer/goose_yaml.rs:144-160 | A command that starts with a slash or a letter and has no tab comes back exactly when it has no line break |
| `YamlScalar.QuotedCommandIsLost` | crates/difflore-cli/src/installer/goose_yaml.rs:144-160 | A command already in single quotes is written bare and read back without them |
| `YamlScalar.WrittenBareIff` | crates/difflore-cli/src/installer/goose_yaml.rs:144-160 | Exactly which commands are written as they are; all others are put in single quotes with theirs doubled |
| `GooseScan.ScannersAgree` | crates/difflore-cli/src/installer/goose_yaml.rs:82-119 | On every text replace, remove and extract succeed exactly when some line is a `difflore:` child of the section; all take the first such line and the same block end, and the rewriters keep every byte before and behind |
| `GooseScan.LocatedIsFirstKey` | crates/difflore-cli/src/installer/goose_yaml.rs:162-188 | The line the scan picks is the first `difflore:` key below the last top-level key, if that is a block header, at the indent of the section's first child |
| `GooseShapes.KeyShape` | crates/difflore-cli/src/installer/goose_yaml.rs:263-270 | A line counts as the indented key exactly when, without its line end, it is so many spaces, the key, a colon and anything |
| `GooseShapes.PickedShape` | crates/difflore-cli/src/installer/goose_yaml.rs:162-229 | The line every scanner picks is `difflore:` behind as many spaces as the block's indent |
| `GooseShapes.OtherKeyIsNeverKey` | crates/difflore-cli/src/installer/goose_yaml.rs:263-270 | A line with any other key, a longer one that starts with `difflore` included, is never taken for the block |
| `GooseShapes.ChildShape` | crates/difflore-cli/src/installer/goose_yaml.rs:272-278 | The child indent is the number of spaces in front of the first line below the header that has text and is no comment |
| `GooseShapes.RunShape` | crates/difflore-cli/src/installer/goose_yaml.rs:206-217 | A block goes on over lines of white space and over lines with at least one more space than its key |
| `GooseShapes.TopLevelShape` | crates/difflore-cli/src/installer/goose_yaml.rs:300-321 | A top-level entry is not indented, is no comment and no list item, and has its key in front of the first colon |
| `GooseShapes.HeaderShape` | crates/difflore-cli/src/installer/goose_yaml.rs:300-321 | The section header has nothing but blanks and a comment behind its colon |
| `GooseShapes.BareHeaderShape` | crates/difflore-cli/src/installer/goose_yaml.rs:123-142 | The header that the cleanup may drop is the word and its colon with white space to the end |
| `GooseShapes.RefusedIffInline` | crates/difflore-cli/src/installer/goose_yaml.rs:12-56 | An install is refused exactly when there is no block and the first `mcpServers:` line has a value behind the colon that is neither blank nor a comment |
| `GooseShapes.NeighbourIsLeftAlone` | crates/difflore-cli/src/installer/goose_yaml.rs:263-270 | With only a server `difflore-dev` in the section nothing is detected, an uninstall changes nothing, and an install inserts beside that server |
| `GooseYaml.Detect` | crates/difflore-cli/src/installer/goose_yaml.rs:162-188 | Detection is true exactly when a block is located |
| `GooseYaml.Replace` | crates/difflore-cli/src/installer/goose_yaml.rs:190-229 | The peeking rewrite loop returns the text with the located block replaced by the rendered one, or its error |
| `GooseYaml.Remove` | crates/difflore-cli/src/installer/goose_yaml.rs:82-119 | The rewrite loop returns the text without the located block, or its error |
| `GooseYaml.BlockLines` | crates/difflore-cli/src/installer/goose_yaml.rs:432-462 | The extraction loop returns exactly the lines of the located block |
| `GooseReplace.LastReplacementWins` | crates/difflore-cli/src/installer/goose_yaml.rs:190-229 | For all commands: replacing by one and then by another equals replacing by the second alone exactly when the lines of the first hold together with its block; otherwise the rows that fell off stay |
| `GooseReplace.ReplaceTwiceIsOnce` | crates/difflore-cli/src/installer/goose_yaml.rs:190-229 | Replacing twice is replacing once exactly for commands that hold together |
| `GooseReplace.RemoveAfterReplace` | crates/difflore-cli/src/installer/goose_yaml.rs:82-119 | Removing after a replacement leaves what removing before it leaves, and the rows that fell off; the two agree exactly for commands that hold together |
| `GooseReplace.ExtractAfterReplace` | crates/difflore-cli/src/installer/goose_yaml.rs:397-462 | Extraction after a replacement returns the block rendered at the section's child indent exactly when the command holds together and no line of it ends in a carriage return |
| `GooseReplace.SplicedIsLocated` | crates/difflore-cli/src/installer/goose_yaml.rs:190-229 | The new block is located where the old one was and ends where its rows stop holding together |
| `GooseBlock.RowsShape` | crates/difflore-cli/src/installer/goose_yaml.rs:397-409 | For every command the rendered block is the key row, the lines of the command and the two rows of arguments, all terminated |
| `GooseBlock.HoldsByCommand` | crates/difflore-cli/src/installer/goose_yaml.rs:206-217 | A block holds together exactly when every line of its command but the first is blank or deeper than the key |
| `GooseBlock.OneLineHolds` | crates/difflore-cli/src/installer/goose_yaml.rs:397-409 | A command without a newline holds together, in four rows |
| `GooseWhole.NewlineFallsOff` | crates/difflore-cli/src/installer/goose_yaml.rs:397-409 | A two-line command whose second line is not indented does not hold together |
| `GooseInstall.Insert` | crates/difflore-cli/src/installer/goose_yaml.rs:234-252 | The offset walk inserts the block right below the first section header, or returns its error |
| `GooseInstall.ChildIndent` | crates/difflore-cli/src/installer/goose_yaml.rs:280-298 | The indent used for the new entry is that of the section's first child |
| `GooseInstall.InsertThenRemove` | crates/difflore-cli/src/installer/goose_yaml.rs:234-252 | For all commands: removing after inserting gives back the text byte for byte exactly when the command holds together and no run of blank or comment lines sits right below the header; otherwise the run is lost, or the rows that fell off stay |
| `GooseInstall.SectionRunHoldsNoKeys` | crates/difflore-cli/src/installer/goose_yaml.rs:272-292 | No key of any server lies in the run of blank or deeper lines that a removal swallows |
| `GooseRoundTrip.InsertIsDetectedIffTerminated` | crates/difflore-cli/src/installer/goose_yaml.rs:234-252 | What was inserted is located right below a terminated header; below a header without its newline the first row is glued to the header line, and a command without newlines is then never found |
| `GooseRoundTrip.DropEmptySection` | crates/difflore-cli/src/installer/goose_yaml.rs:123-142 | The cleanup loop drops exactly the bare headers whose next line with text is not indented |
| `GooseRoundTrip.DropLosesLength` | crates/difflore-cli/src/installer/goose_yaml.rs:123-142 | The cleanup leaves a text as long as it was exactly when it drops no header, and then leaves it as it was |
| `GooseRoundTrip.Install` | crates/difflore-cli/src/installer/goose_yaml.rs:12-56 | The text part of the installer: fresh, replace, insert or append; the only error is an inline section value |
| `GooseRoundTrip.Uninstall` | crates/difflore-cli/src/installer/goose_yaml.rs:61-78 | The text part of the uninstaller; removal after a positive detection never fails |
| `GooseRoundTrip.SectionRoundTrip` | crates/difflore-cli/src/installer/goose_yaml.rs:61-142 | For every file with a section and no block, and every command: installing and uninstalling gives the file back exactly when the header has its newline, the command holds together, nothing blank or commented sits right below the header and no bare header would be dropped |
| `GooseWhole.InstallRoundTrip` | crates/difflore-cli/src/installer/goose_yaml.rs:12-78 | For every file without a block and every command: an install and an uninstall give the file back exactly in the stated cases of an empty file, a file with the section and a file without it |
| `GooseWhole.PresentRoundTrip` | crates/difflore-cli/src/installer/goose_yaml.rs:12-78 | Over a block that was there before, the uninstall leaves what an uninstall alone would leave, and never the file |
| `GooseWhole.InstallTwice` | crates/difflore-cli/src/installer/goose_yaml.rs:12-56 | For every file and every command a second install changes nothing exactly in the stated cases: fresh, replaced, inserted below a terminated header with nothing to swallow, or appended, each with a command that holds together |
| `GooseWhole.HeaderLostIff` | crates/difflore-cli/src/installer/goose_yaml.rs:123-142 | An install and an uninstall lose the section header exactly when it is bare and the line left below it is missing or not indented |
| `GooseWhole.OrphanedIff` | crates/difflore-cli/src/installer/goose_yaml.rs:123-142 | A child of the section stays, and it stays without a header exactly when the header is bare and the line that ends the run below it is in the first column; that line is then no key |
| `GooseWhole.CommentCostsTheHeader` | crates/difflore-cli/src/installer/goose_yaml.rs:123-142 | Installing into a section with a column-0 comment below its header and uninstalling leaves the comment and the server without their header |
| `GooseWhole.BlankLineIsSwallowed` | crates/difflore-cli/src/installer/goose_yaml.rs:200-217 | A blank line below the header is lost by an install and an uninstall, and by a second install |
| `GooseWhole.BareHeaderGetsGlued` | crates/difflore-cli/src/installer/goose_yaml.rs:234-252 | On a file that is the bare header without a newline the entry is glued to it, never found, never removed, and a second install differs |
| `GooseAppend.AppendRoundTrip` | crates/difflore-cli/src/installer/goose_yaml.rs:39-46 | On a file without the section, uninstalling gives the file with its trailing white space reduced to one newline if the command holds together; the file itself exactly when it also ended that way |
| `GooseAppend.FreshRoundTrip` | crates/difflore-cli/src/installer/goose_yaml.rs:23-26 | A fresh install uninstalls to the empty text, and is left alone by a second install, exactly when the command holds together |
| `AnsiLines.AnsiWords` | crates/difflore-cli/src/style.rs:303-337 | The tokeniser loop computes the words of the unit-by-unit reading |
| `AnsiLines.StripAnsi` | crates/difflore-cli/src/style.rs:339-355 | The stripping loop drops exactly the control sequences |
| `AnsiLines.UpdateActive` | crates/difflore-cli/src/style.rs:362-393 | The index walk that stops one short of the end still yields the last non-reset sequence |
| `AnsiOutput.WrapLine` | crates/difflore-cli/src/style.rs:222-273 | The wrapping loop prints the rows of the greedy fill, separated by newlines |
| `AnsiOutput.WrapFitsAndShowsAllWords` | crates/difflore-cli/src/style.rs:222-273 | Every printed row fits the clamped width or holds one word, and the rows show the visible words of the line in order |
| `AnsiRows.RowsFit` | crates/difflore-cli/src/style.rs:222-273 | Every row has at most the cells asked for, at least 40 and at most 160, or at most one word; a line with no more cells comes back alone and unchanged |
| `AnsiRows.CellsAdd` | crates/difflore-cli/src/style.rs:339-355 | Each character outside control sequences counts its own cells, wherever it stands |
| `AnsiRows.RowsHang` | crates/difflore-cli/src/style.rs:275-301 | The first row of a split line starts with the line's own spaces, every later one with those plus the width of its list marker |
| `AnsiRows.SequenceIsInvisible` | crates/difflore-cli/src/style.rs:303-355 | An escape, a bracket, parameters and a letter are one unit that shows nothing and ends there |
| `Text.WhitespaceTable` | crates/difflore-cli/src/style.rs:303-337 | White space between words is the Unicode property, code point by code point |
| `AnsiRows.ColourIff` | crates/difflore-cli/src/style.rs:362-393 | A sequence that ends in `m` becomes the active one unless its parameters are empty, `0` or, behind any further openers, begin with `0;`, when none is active; any other letter changes nothing |
| `AnsiOutput.WrapKeepsStyle` | crates/difflore-cli/src/style.rs:239-272 | Every visible character of any line appears under the colour sequence it had, and every row of a split line ends with no active colour, but for the last if the line ends inside a control sequence |
| `AnsiOutput.PrintedWords` | crates/difflore-cli/src/style.rs:222-273 | The printed string as a whole has the visible words of the line |
| `AnsiOutput.PrintedStyle` | crates/difflore-cli/src/style.rs:239-272 | The printed string as a whole colours every visible character as the line did, for every line |
| `AnsiGreedy.FewestRows` | crates/difflore-cli/src/style.rs:239-266 | The rows of a split line are a layout of its words in which every break was forced, and no layout whose lines fit or hold one word has fewer lines |
| `AnsiColours.RowsRead` | crates/difflore-cli/src/style.rs:239-272 | Whatever colour runs into a line, its rows show its characters in their colours; a split line that leaves a colour active closes it |
| `AnsiColours.TextKeepsStyle` | crates/difflore-cli/src/style.rs:208-272 | A wrapped text of complete control sequences shows every character in its colour exactly when behind no split line that leaves a colour active a character comes before the next colour sequence |
| `AnsiColours.TextKeepsWords` | crates/difflore-cli/src/style.rs:208-220 | A wrapped text of complete control sequences has the visible words of the text in order |
| `AnsiColours.ColoursCanChange` | crates/difflore-cli/src/style.rs:268-270 | A concrete text whose second line loses the colour the split first line left active |
| `AnsiStyle.WordsKeepStyle` | crates/difflore-cli/src/style.rs:303-337 | Cutting a line into words loses no visible character and moves no colour |
| `AnsiDocument.WrapText` | crates/difflore-cli/src/style.rs:208-220 | The line loop prints the rows of all lines and the trailing newline if there was one |
| `AnsiReturn.WrapTwiceIsOnce` | crates/difflore-cli/src/style.rs:208-220 | For every text, wrapping twice equals wrapping once exactly when the first wrap prints no carriage return in front of a newline |
| `AnsiReturn.WrapTwiceByLines` | crates/difflore-cli/src/style.rs:208-225 | In terms of the text: exactly when no line before a newline still ends in a carriage return and is left alone, or ends so inside an open control sequence with no colour active |
| `AnsiReturn.WrapTwiceWithoutReturns` | crates/difflore-cli/src/style.rs:208-220 | A text without carriage returns is wrapped once and for all |
| `AnsiReturn.ReturnsGoOneByOne` | crates/difflore-cli/src/style.rs:208-220 | A line that ends in two carriage returns loses one at each wrap |
| `HookGroups.CommandIsRecognised` | crates/difflore-cli/src/installer/hooks_install.rs:1282-1340 | For every binary path and both kinds of platform the command written for a client is recognised as that client's |
| `HookGroups.MatchIsTwoMarkers` | crates/difflore-cli/src/installer/hooks_install.rs:1342-1348 | A command is DiffLore's exactly when it names the hook binary and the client; the launcher spelling adds nothing |
| `HookGroups.GroupIsOurs` | crates/difflore-cli/src/installer/hooks_install.rs:105-142 | Every rendered group is recognised as DiffLore's |
| `HookFiles.DirectoryOf` | crates/difflore-cli/src/installer/hooks_install.rs:1282-1302 | The directory of a path is everything up to its last slash of either kind |
| `HookFiles.CommandIs` | crates/difflore-cli/src/installer/hooks_install.rs:1282-1302 | For every directory, file name, platform and client, the command is the quoted path of the hook binary in that directory with forward slashes (bare for Codex on Windows when it has no blanks) and the client's flag |
| `HookFiles.CommandTellsDirectories` | crates/difflore-cli/src/installer/hooks_install.rs:1282-1302 | Two binaries get the same command exactly when their directories agree up to the kind of slash |
| `HookFiles.OursIff` | crates/difflore-cli/src/installer/hooks_install.rs:1250-1278 | A group is DiffLore's for a client exactly when one of its entries has a command with the name of the hook binary and the client's flag in it |
| `HookFiles.FreshInstall` | crates/difflore-cli/src/installer/hooks_install.rs:102-142 | Installing into an empty file writes exactly the listed events, matchers, commands and time limits of the client |
| `HookGroups.Settle` | crates/difflore-cli/src/installer/hooks_install.rs:209-237 | The stateful retain and the push: the result is settled, and a change is reported exactly when the list changed |
| `HookGroups.SettledSplits` | crates/difflore-cli/src/installer/hooks_install.rs:209-237 | Afterwards DiffLore's groups are the wanted one alone and the others are as they were, in order |
| `HookMerge.StripRetired` | crates/difflore-cli/src/installer/hooks_install.rs:181-201 | The pass over unregistered events, in any order: a list is dropped only if stripping emptied it, and the count is the number of events changed |
| `HookMerge.Strip` | crates/difflore-cli/src/installer/hooks_install.rs:393-410 | The pass that strips every list and drops the empty ones, in any order |
| `HookMerge.MergeClaude` | crates/difflore-cli/src/installer/hooks_install.rs:165-246 | The Claude merge: its error, the file afterwards, and a count equal to the number of events whose value changed |
| `HookMerge.MergeCodex` | crates/difflore-cli/src/installer/hooks_install.rs:374-425 | The Codex merge: its error, the file afterwards, and whether a DiffLore group existed |
| `HookMerge.Remove` | crates/difflore-cli/src/installer/hooks_install.rs:256-300 | The removal: the file afterwards and how many events lost a group; nothing is written when none did |
| `HookMerge.Extract` | crates/difflore-cli/src/installer/hooks_install.rs:1225-1248 | The groups read back are those of the lists in some order of the events |
| `HookLaws.MergeNormalForm` | crates/difflore-cli/src/installer/hooks_install.rs:165-246 | After a successful merge each registered event has exactly one DiffLore group, the rendered one, no other list has any, user groups keep their order, and nothing else changes |
| `HookLaws.MergeTwiceIsOnce` | crates/difflore-cli/src/installer/hooks_install.rs:374-425 | Merging again succeeds, changes no event and leaves the same file |
| `HookLaws.ZeroIffNormal` | crates/difflore-cli/src/installer/hooks_install.rs:165-246 | The Claude merge returns 0 exactly for settings already in normal form |
| `HookLaws.LastCodexInstallWins` | crates/difflore-cli/src/installer/hooks_install.rs:374-425 | A Codex install for another binary leaves no trace of the earlier one |
| `HookLaws.UninstallUndoesInstall` | crates/difflore-cli/src/installer/hooks_install.rs:256-300 | Removing after merging gives the settings back exactly when they had no DiffLore group, no empty event list and no empty hooks object |
| `HookLaws.UninstallLeavesNone` | crates/difflore-cli/src/installer/hooks_install.rs:810-851 | After a removal no list has a DiffLore group and user groups keep their order |
| `HookLaws.ExtractAfterMerge` | crates/difflore-cli/src/installer/hooks_install.rs:1005-1020 | In whatever order the events are read, extraction after a merge returns the rendered block as a multiset |
| `HookCommands.MergeKeepsUserCommands` | crates/difflore-cli/src/installer/hooks_install.rs:165-246 | A merge keeps every hook entry of the user, event by event and in order, exactly when no group mixes one with an entry of DiffLore's |
| `HookCommands.RemovalKeepsUserCommands` | crates/difflore-cli/src/installer/hooks_install.rs:256-300 | The strip pass of a removal keeps them under the same condition |
| `HookCommands.SharedGroupLosesTheUser` | crates/difflore-cli/src/installer/hooks_install.rs:1255-1302 | A user's entry behind DiffLore's in one group is dropped by a merge, under any event |
| `InboxRows.ApprovedBothWays` | crates/difflore-core/src/memory_inbox.rs:1052-1061 | The query and the code mean the same by an approved payload |
| `InboxRows.ApprovalMarks` | crates/difflore-core/src/memory_inbox.rs:983-1002 | Approving leaves the parsed candidate and its triage as they are and makes the payload approved |
| `InboxRows.TriageMarks` | crates/difflore-core/src/memory_inbox.rs:597-651 | After a triage the query hides exactly the named statuses, and the mark parses back unless the field is also there under its older name |
| `InboxRows.TriageReadsBack` | crates/difflore-core/src/cloud/session_mined.rs:107-125 | A written triage record parses to the record that was written |
| `InboxRows.KnownIsHidden` | crates/difflore-core/src/memory_inbox.rs:1077-1110 | A triage the parser knows under the field's current name is one the query hides |
| `InboxRows.EvidenceMarks` | crates/difflore-core/src/memory_inbox.rs:653-694 | Evidence leaves the triage as it is and reads back, unless the field is also there under its older name |
| `InboxParse.UnmarkedParsesIff` | crates/difflore-core/src/cloud/session_mined.rs:44-96 | A payload without marks is a candidate exactly when all eleven fields are there with their types |
| `InboxParse.TriageFieldIsLossy` | crates/difflore-core/src/cloud/session_mined.rs:78-125 | A triage field under either name never makes a candidate unreadable; it reads as the record it spells, or as none |
| `InboxParse.EvidenceFieldIsStrict` | crates/difflore-core/src/cloud/session_mined.rs:86-132 | An evidence field reads as none when it is null, as its count when it is a record, and makes the candidate unreadable otherwise |
| `InboxParse.BothNamesClash` | crates/difflore-core/src/cloud/session_mined.rs:78-92 | A mark under both its names makes the candidate unreadable |
| `InboxParse.StatusIgnoresCase` | crates/difflore-core/src/memory_inbox.rs:1052-1110 | The queries compare a status up to the case of ASCII letters |
| `InboxDeletes.TrimmedIs` | crates/difflore-core/src/memory_inbox.rs:597-616 | White space around a hash, a reason or a reference does not count |
| `InboxDeletes.PurgeIff` | crates/difflore-core/src/memory_inbox.rs:728-756 | The purge takes exactly the unapproved rows whose triage parses to `dropped_low_signal` |
| `InboxDeletes.MarkedThenPurged` | crates/difflore-core/src/memory_inbox.rs:597-756 | An unapproved candidate that a triage has just marked is taken by the next purge exactly when the status was `dropped_low_signal` |
| `InboxDeletes.UntriagedStays` | crates/difflore-core/src/memory_inbox.rs:728-756 | A candidate without a triage is never purged |
| `InboxDeletes.DeleteByHashIff` | crates/difflore-core/src/memory_inbox.rs:697-726 | A deletion by hash takes exactly the unapproved rows that carry the trimmed hash; a blank hash takes none |
| `InboxDeletes.FoundIff` | crates/difflore-core/src/memory_inbox.rs:774-798 | The lookup finds exactly the first row in review that carries the trimmed hash |
| `InboxDeletes.FoundIsNewest` | crates/difflore-core/src/memory_inbox.rs:1077-1110 | Of several candidates with the hash the newest is found, and of those as new the one stored last |
| `InboxDeletes.ReviewListIs` | crates/difflore-core/src/memory_inbox.rs:1077-1110 | The review list holds exactly the unapproved rows without a named triage, the newest first |
| `InboxDeletes.RejectIff` | crates/difflore-core/src/memory_inbox.rs:758-772 | A rejection takes exactly the row the lookup finds |
| `InboxDeletes.ApproveIff` | crates/difflore-core/src/memory_inbox.rs:950-973 | An accepted approval marks exactly the row the lookup finds |
| `InboxDeletes.ApprovalIsWritten` | crates/difflore-core/src/memory_inbox.rs:983-1002 | An approval sets status, rule and time under `localReview`, makes the row pending with no retries, and changes nothing else |
| `InboxDeletes.TriageIff` | crates/difflore-core/src/memory_inbox.rs:597-651 | A triage marks exactly the rows that carry its hash and have no triage with a known status, and writes that record alone |
| `InboxDeletes.EvidenceIff` | crates/difflore-core/src/memory_inbox.rs:653-694 | Evidence is written to exactly the rows that carry the hash and do not have that count yet; a count of zero writes nothing |
| `InboxDeletes.RefusedIff` | crates/difflore-core/src/memory_inbox.rs:597-616 | A triage request is refused exactly when it links the candidate to itself, has a blank reason or lacks a needed reference |
| `InboxDeletes.RefusedWith` | crates/difflore-core/src/memory_inbox.rs:597-616 | The error is that of the first check that fails |
| `InboxDeletes.BlankHashAsksNothing` | crates/difflore-core/src/memory_inbox.rs:597-616 | A request asks for nothing, without an error, exactly when its hash is blank |
| `InboxDeletes.GrantedAsks` | crates/difflore-core/src/memory_inbox.rs:597-616 | A granted request asks for the given status and time and the trimmed texts, a blank reference counting as none |
| `InboxDeletes.OtherKindsStay` | crates/difflore-core/src/memory_inbox.rs:597-796 | Rows of other kinds are never touched |
| `Outbox.Table.Triage` | crates/difflore-core/src/memory_inbox.rs:597-651 | The request checks in order, then the loop of updates by id; returns the first row it marked |
| `Outbox.Table.Evidence` | crates/difflore-core/src/memory_inbox.rs:653-694 | The loop of evidence updates by id; returns the first row it marked |
| `Outbox.Table.Delete` | crates/difflore-core/src/memory_inbox.rs:697-756 | Both deletion loops leave the table the theorems speak of, and return the ids of the rows that went, in query order |
| `Outbox.Table.Find` | crates/difflore-core/src/memory_inbox.rs:774-798 | The lookup returns the first row of the review list with the hash |
| `Outbox.Table.ApproveCandidate` | crates/difflore-core/src/memory_inbox.rs:950-973 | The marking part of an approval changes the found row alone |
| `Outbox.Table.RejectCandidate` | crates/difflore-core/src/memory_inbox.rs:758-772 | A rejection deletes the found row alone |
| `Outbox.LoadSection` | crates/difflore-core/src/memory_inbox.rs:901-948 | The count is the length of the review list, its first rows are split into shown and unparsed ones, and those shown that fail validation are warned about |
| `InboxLaws.ViewsPartition` | crates/difflore-core/src/memory_inbox.rs:1052-1171 | Every session-mined row is in exactly one of review, upload queue and triage-hidden, so the three counts add up |
| `InboxLaws.ApproveMovesOne` | crates/difflore-core/src/memory_inbox.rs:546-595 | An approval moves exactly the found row from review to the queue, or changes nothing |
| `InboxLaws.LookupCheckIsRedundant` | crates/difflore-core/src/memory_inbox.rs:774-798 | The second approval check of the lookup never skips a row the query let through |
| `InboxLaws.ViewMoves` | crates/difflore-core/src/memory_inbox.rs:597-796 | Every way a row changes view or leaves the table: approval, named triage, an `unknown` triage of an unsettled row, deletion of an unapproved row |
| `InboxLaws.ApprovedForever` | crates/difflore-core/src/memory_inbox.rs:697-796 | Through every sequence of operations an approved row stays in the table and stays approved |
| `InboxLaws.TriageForever` | crates/difflore-core/src/memory_inbox.rs:617-637 | Through every sequence of operations a known triage is stored unchanged while its row lives, and what it hid stays hidden |
| `InboxLaws.HiddenForGood` | crates/difflore-core/src/memory_inbox.rs:597-651 | A hidden row stays hidden through every sequence of operations, while it is in the table, exactly when its triage is settled or no request can name it |
| `InboxLaws.HiddenWithoutUnknown` | crates/difflore-core/src/memory_inbox.rs:597-651 | Through every sequence without a request for the status `unknown`, a hidden row stays hidden while it is in the table, however its status is spelled |
| `InboxLaws.OtherCaseComesBack` | crates/difflore-core/src/memory_inbox.rs:1077-1110 | A status in another letter case hides a row from the query and can still be overwritten |
| `InboxLaws.OldNameStaysInReview` | crates/difflore-core/src/cloud/session_mined.rs:78-85 | A triage known only under the field's older name hides nothing and blocks every later triage |
| `InboxRaces.OverlapKeepsIff` | crates/difflore-core/src/memory_inbox.rs:697-772 | For every deletion, every table it loaded and every sequence of operations completed before its statements: a row then in the table survives exactly when the deletion did not pick the row with its id in what it loaded |
| `InboxRaces.PickedIsUnapproved` | crates/difflore-core/src/memory_inbox.rs:697-772 | No deletion picks a row that was approved when it loaded it |
| `InboxRaces.OverlapLosesApproval` | crates/difflore-core/src/memory_inbox.rs:697-772 | A deletion by hash or a rejection that loaded its rows before an approval and deletes after it loses the approved row, although the same operation afterwards would keep it |
| `InboxRaces.ApprovedIffNotNamed` | crates/difflore-core/src/memory_inbox.rs:697-796 | Over every interleaving of completed operations with single statements of overlapping ones, an approved row stays in the table and approved exactly when none of those statements deletes its id |
| `InboxRaces.TriageIffNotOverwritten` | crates/difflore-core/src/memory_inbox.rs:617-637 | Over the same interleavings a known triage is stored unchanged, while its row lives, exactly when no late statement writes another one over it: a triage, or an approval that read the payload before |
| `InboxRaces.OverlapOverwritesTriage` | crates/difflore-core/src/memory_inbox.rs:617-637 | Of two triages that both loaded a row before either wrote it, the later one replaces the known status of the first |
| `EvalSampling.StrideGap` | crates/difflore-cli/src/commands/eval.rs:128-142 | Neighbouring strides are the same whole number of rules apart, or one more, and at least one |
| `EvalSampling.StrideIncreases` | crates/difflore-cli/src/commands/eval.rs:128-142 | The stride indices are strictly increasing |
| `EvalSampling.StrideEnds` | crates/difflore-cli/src/commands/eval.rs:128-142 | The first and, for more than one sample, the last rule are strides |
| `EvalSampling.OrderIsPermutation` | crates/difflore-cli/src/commands/eval.rs:134-149 | The index list holds every rule exactly once |
| `EvalSampling.BuildOrder` | crates/difflore-cli/src/commands/eval.rs:134-149 | The two index loops with their membership tests compute that list |
| `EvalSampling.BuildSamples` | crates/difflore-cli/src/commands/eval.rs:128-166 | Each sample has the id and language of the rule at its position and the query distilled from its content |
| `EvalSampling.SampleCount` | crates/difflore-cli/src/commands/eval.rs:151-166 | Exactly min(target, rules with a query) positions are sampled, none twice and none without a query |
| `EvalSampling.EvenSample` | crates/difflore-cli/src/commands/eval.rs:128-166 | When every stride has a query the sample is the strides |
| `EvalMetrics.Measure` | crates/difflore-cli/src/commands/eval.rs:171-234 | The accumulating loop: totals, per-language entries, latencies and error classes are the sums over the queries |
| `EvalMetrics.HitCounts` | crates/difflore-cli/src/commands/eval.rs:171-234 | A query whose rule is first found at rank p, counted from 0, counts as tested, as a hit at 5, as a hit at 1 exactly when p is 0, and adds 1 / (p + 1) |
| `EvalMetrics.MissCounts` | crates/difflore-cli/src/commands/eval.rs:171-234 | A query that failed or did not find its rule counts as tested and as nothing else |
| `EvalMetrics.NoLanguageIsUnknown` | crates/difflore-cli/src/commands/eval.rs:171-234 | A rule without a language is tallied under `(unknown)` |
| `EvalMetrics.LanguagesSumToTotal` | crates/difflore-cli/src/commands/eval.rs:171-234 | In every order the language tallies add up to the totals |
| `EvalMetrics.TallyBounds` | crates/difflore-cli/src/commands/eval.rs:171-234 | For the totals and every language: hits at 1 <= hits at 5 <= tested - errors, and the reciprocal ranks sum to between hits at 1 and the mean of both hit counts |
| `EvalMetrics.TopLanguages` | crates/difflore-cli/src/commands/eval.rs:518-541 | The table lists languages by queries tested and then by name, keeps every column sum, and folds into `other` only lines no larger than one kept |
| `EvalMetrics.TableKeepsTotals` | crates/difflore-cli/src/commands/eval.rs:518-541 | The columns of the printed table sum to the totals of the report |
| `InjectionCache.Cache.Remember` | crates/difflore-cli/src/hook/cache.rs:96-127 | The retain loop and the insert leave exactly the young entries and the new one |
| `InjectionCache.Cache.ShouldSkip` | crates/difflore-cli/src/hook/cache.rs:52-155 | The query answers by the entry under its key, its age, its rules and its signal |
| `InjectionCache.WriteThenQuery` | crates/difflore-cli/src/hook/cache.rs:52-155 | After a write, a query under its key skips exactly when the write is younger than the TTL, the query has no signal or the same one, and the write had rules or empty hits count |
| `InjectionCache.SurvivesIff` | crates/difflore-cli/src/hook/cache.rs:96-127 | A write keeps another entry exactly when it is at most four TTLs old, the TTL counting as 120 seconds at least |
| `InjectionCache.SamePathSameKey` | crates/difflore-cli/src/hook/cache.rs:133-136 | Without colons in project and purpose, two paths share a key exactly when they agree up to surrounding white space and the kind of slash |
| `InjectionCache.CacheIsLog` | crates/difflore-cli/src/hook/cache.rs:96-127 | The cache holds exactly the last writes that no later write found too old |
| `InjectionCache.CacheAnswersAsLog` | crates/difflore-cli/src/hook/cache.rs:52-155 | Under one TTL, and after no write stamped later than the query, the cache answers every query as the unevicted log does |
| `InjectionCache.TtlBound` | crates/difflore-cli/src/hook/cache.rs:108-116 | When writes never read a TTL below a least one, cache and log agree on all queries of a TTL exactly up to four times that least TTL (or the default) plus one |
| `InjectionCache.KeysAreDistinct` | crates/difflore-cli/src/hook/cache.rs:133-136 | Without colons in project and purpose, two calls share a key exactly when project, purpose and normalised path agree |
| `InjectionCache.ColonsCollide` | crates/difflore-cli/src/hook/cache.rs:133-136 | With a colon in purpose or project two different calls can share a key |
| `RepoAliases.InsideIffComponentPrefix` | crates/difflore-core/src/repo_aliases.rs:230-235 | For all strings the slash prefix test is the prefix test on slash-separated components |
| `RepoAliases.RootContainsOnlyItself` | crates/difflore-core/src/repo_aliases.rs:223-235 | For normalised paths the test is directory containment, except that the root `/` contains only itself |
| `RepoAliases.AliasesForPath` | crates/difflore-core/src/repo_aliases.rs:87-107 | Exactly the aliases with the longest containing root are returned, each as often as stored; they share one root and come by scope |
| `Sorting.AtMostByFirstDifference` | crates/difflore-core/src/repo_aliases.rs:87-107 | Names are compared at their first differing character, a proper prefix coming first |
| `Sorting.AtMostAntisymmetric` | crates/difflore-core/src/repo_aliases.rs:87-107 | Two names that come before each other are equal |
| `Sorting.AtMostTransitive` | crates/difflore-core/src/repo_aliases.rs:87-107 | The order of names is transitive |

## Left out

- File, network, process and terminal access, `dry_run`, probes, the spinner, the command line and all rendering: effects or thin wrappers.
- GooseRoundTrip.InsertIsDetectedIffTerminated: below a glued header only a command without newlines is shown never to be found; one with newlines could spell a section of its own.
- GooseWhole.OrphanedIff: stated for a terminated header and a command that holds together; what the other cases leave is given by `GluedStays` and `HeaderLostIff`.
- GooseWhole.PresentRoundTrip: the rows of a command that does not hold together could spell the very block that was there, so for such commands only the text that remains is given, by `RemoveAfterReplace`.
- YamlScalar.ScalarRoundTrip: YAML is read as one-line plain and single-quoted scalars; other YAML syntax is not modelled.
- AnsiOutput.WrapLine: character width is a parameter summed over characters with one cell for a space; widths of grapheme clusters are not modelled, and neither are `wrap_after_column` and the detection of the terminal width.
- AnsiColours.TextKeepsStyle: texts with a line that ends inside a control sequence are excluded, because read as a whole such a sequence runs on into the next line.
- AnsiOutput.WrapKeepsStyle: a colour is the last non-reset sequence as the code tracks it, not the accumulated attributes of ECMA-48.
- InjectionCache.KeysAreDistinct: colons in project and purpose are excluded; with them keys can collide, as `ColonsCollide` shows.
- AutopilotRuns.StaleOwnerIsPowerless: owner tokens are assumed fresh, as the callers draw random ones; the work done between the ownership check and the finish is not modelled.
- HookMerge.MergeClaude: the order of keys in the written JSON and the path in front of each error message are not modelled.
- Cursor, Gemini and Windsurf merges: the same shape as Codex with fewer cleanups.
- Historical block shapes and the install manifest: tables and hashes.
- Outbox.Table.ApproveCandidate: validation and promotion of the rule are one flag; in `ApprovedForever`, `TriageForever` and `HiddenForGood` each operation ends before the next begins; `InboxRaces` takes deletions, triages, evidence and approvals apart into their statements.
- Outbox.LoadSection: validation is a parameter, and the order of rows is part of the table.
- Draining the upload queue, and the status and retry columns beyond their reset on approval.
- InboxRows.TriageMarks: enum tags written as JSON objects, duplicate keys inside one payload and 64-bit ranges are not modelled; SQLite and the parser are taken to accept the same JSON texts.
- EvalMetrics.Measure: retrieval is a parameter; reciprocal ranks are exact reals, and the percentiles and ratios computed from the report are left out.
- EvalSampling.BuildSamples: distilling a query from a rule is a parameter.
- InjectionCache.CacheAnswersAsLog: times and TTLs are unbounded integers, so the saturating subtraction and an overflow of four TTLs are not modelled; a lost or torn cache file is not either.
- RepoAliases.AliasesForPath: reading the table and canonicalising a path are left out, and so is `merge_repo_scopes`, which only removes duplicates.
