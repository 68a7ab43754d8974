# VibeSys: a verified model of its hard parts

VibeSys runs long agent-driven jobs behind detached servers, and gates changes to itself with repository
checkers. This project models the parts of both whose correctness does not show from reading one
function, and proves what they promise over every run, every interleaving or every input.

- **Detached runs.** `Lifecycle`, `Tombstone` and `Publisher` model the run phase, the end record and
  `RecordPublisher`: a lock-protected publisher that holds back progress-only writes and lets a background
  worker flush them. It is proved to refine a publisher that writes every fact at once, with spaced writes
  and bounded staleness. `Controller` models `RunController` against the replay of its own journal and against
  what was asked of it.
  `Interrupt` models the lossy wake signal, with handlers as a stack of frames in which a raise unwinds
  the frames below it. `GatewayStop` models the two polling loops that stop a gateway, against an
  arbitrary environment. `ControlReply` models the stop request over a fragmenting connection.
- **The event journal.** `JournalScan` is the line-by-line scanner; `EventIndex` is the sidecar cache that
  may only be used when it agrees with a scan.
- **Repository checkers.** `Resolve`, `Bindings` and `Ratchet` model the bounded name resolution, the
  alias fixed point and the shrink-only ratchet of the contract gate. `Escapes`, `LineTracking`,
  `TypeScriptSkips`, `TypeScriptReference` and `TypeScriptLexer` model the TypeScript lexer of the
  test-isolation rule: the lexer with its carried line state is proved equal to a reference lexer that counts
  every line afresh, and that one to reading off the parts that tile the source. `TypeScriptSlices` and
  `TypeScriptInterpolation` say when an interpolation, cut out and lexed on its own, is what lexing in place
  would make of it, and `TypeScriptKinds` says which kind of part is due where.
  `CriticalPath` models the CI wall-time report, and `ReleaseVersions` the two release version grammars
  (PEP 440 pre-releases; items 2 and 9 of Semantic Versioning 2.0.0).

A section of code that holds one lock is one event of a state machine. A run is a sequence of events, so a
lemma over all sequences covers every interleaving. Each class is
proved against that machine or against a function: a method of `RecordPublisher`, `RunController` or `Lexer` is
one of its steps, and one of `AliasTable` or `MainThreadInterrupt` gives the new state outright. What the machines
and functions themselves compute is then stated over whole runs and inputs in terms of the events, characters and
counts alone. Clocks, observations, receives, spawns and other effects are parameters that range over everything
they could do.

## Where the code differs from what it says

Each of these is a lemma with a concrete input, beside one that says exactly when the promise holds.

- A held phase has a flush worker exactly as long as the runtime never refused to spawn one
  (`Publisher.HeldHasOneWorker`). After a refusal the flag stays set, so nothing schedules another worker
  (`Publisher.RefusalStrands`).
- The controller's status is the fold of its journal, except after a terminal event is appended from outside
  for a run that had already ended in another status (`Controller.OutsideEndAgreesIffTimely`): a stop that
  lands before the core's own finish event reopens as completed (`Controller.StopThenFinishDisagrees`).
- An attach takes the stat that guards its cache write after it has loaded the cache. A journal that is
  replaced in between is scanned on from the old file's records, and the result is published as an index of
  the new file (`EventIndex.ReplacedJournalIsPublishedDishonestly`). What a resumed scan publishes is honest
  if and only if the records it resumed from still index the file it read
  (`EventIndex.WriteAfterResumeIsHonestExactly`), which appending never breaks
  (`EventIndex.GrowingHistoriesSettle`).
- `write_event_index` can return False after it has published, when closing the directory fails
  (`EventIndex.PublishedYetFalse`). A False leaves the old sidecar in every other case
  (`EventIndex.FalseKeepsTheSidecarExactly`).
- A quoted literal that is never closed loses its last character when that is an escaped quote
  (`TypeScriptLexer.RawBodyIsBody`, `TypeScriptLexer.UnclosedBodyLosesItsQuote`).
- A comment right after the opening of an interpolation counts as standing alone on its line although code
  comes before it (`TypeScriptReference.StandaloneExactly`,
  `TypeScriptReference.OpeningCommentStandsAlone`).
- An interpolation is code, but the scan for its closing brace does not know regexes: a brace in one ends the
  interpolation, and the code after it is taken for template text
  (`TypeScriptInterpolation.InterpolationIsCutShort`). The scan agrees with the interpolation's own lexing
  exactly if it passes every regex with as many braces open after it as before
  (`TypeScriptInterpolation.InterpolationIsLexedInPlace`).
- A string literal counts by its value as the token before a slash, so a division after a string whose value opens
  an expression is taken for a regex and what follows is lost (`TypeScriptKinds.DivisionAfterQuotedOpener`). A slash
  that opens no comment is a regex if and only if that value is absent, one of eleven characters, or `return`, `case`
  or `throw` (`TypeScriptKinds.EveryPartIsDue`).
- `job_from_record` lets through a job that completed before it started, and such a job can break the bound
  on execution (`CriticalPath.OverlapBreaksTheBound`). The bound holds exactly if the running time is within
  the slack or overlaps and skew together are (`CriticalPath.ReportAccountsForTheRun`).

## Model

| member | source | states |
|---|---|---|
| `Lifecycle.FoldIsMonotone` | src/server/host_api.py:187-251 | Over every history of facts a run never moves back to an earlier startup stage or to `starting`, and once ended keeps its whole phase. |
| `Lifecycle.FoldIsWhatWasReported` | src/server/host_api.py:187-251 | Over every history, until a fact ends the run its status is the last one reported and its stage and progress those of the last startup step not behind an earlier one; the first fact that ends it decides the phase it keeps, a failure with its reason and the stage it struck in. |
| `Publisher.ThrottledRefinesPlain` | src/entrypoints/detached_run.py:240-319 | In every interleaving the effective phase is the plain fold of all observed facts, and the stored record is the unthrottled one up to held startup progress. |
| `Publisher.WritesArePlainWrites` | src/entrypoints/detached_run.py:309-319 | Every record written, at any step of any run, is the unthrottled record of that moment, is accepted by the record's validator, and its `paused` names who paused the run: nobody unless it is paused, the last cause reported since it last left a pause, and the operator if there is none. |
| `Publisher.EveryRecordNamesThePauser` | src/entrypoints/detached_run.py:112-129 | The same of the stored record after every step of every interleaving, in terms of the folded status and the reported causes alone. |
| `Publisher.EveryRecordIsCurrent` | src/entrypoints/detached_run.py:212-289 | After every step the stored record is serving exactly once the server has listened, its root is the last one resolved, and its end time that of the last tombstone. |
| `Publisher.ThrottledWritesAreSpaced` | src/entrypoints/detached_run.py:247-307 | A flush or a progress-only `observe` writes only a whole interval after the previous write. |
| `Publisher.OneWorkerUnlessRefused` | src/entrypoints/detached_run.py:256-262 | A scheduled flush has exactly one live worker and an unscheduled one none, until the runtime refuses a worker; from then on the flag is set with none. |
| `Publisher.HeldHasOneWorker` | src/entrypoints/detached_run.py:256-262 | A held phase has exactly one live worker if and only if no worker was ever refused. |
| `Publisher.RefusalStrands` | src/entrypoints/detached_run.py:256-262 | One refused spawn leaves a held phase with no worker. |
| `Publisher.HeldIsFresh` | src/entrypoints/detached_run.py:291-307 | With prompt wake-ups nothing is held any more once an interval has passed since the last write. |
| `Publisher.HeldReachesRegistry` | src/entrypoints/detached_run.py:291-307 | With prompt wake-ups something is written no later than one interval after the last write whenever something is held. |
| `Publisher.TombstoneStays` | src/entrypoints/detached_run.py:283-289 | Once `end` has written, every later step leaves the ended phase it wrote, with an end time and nothing held. |
| `Publisher.TombstoneTellsTheEnd` | src/entrypoints/detached_run.py:132-170 | In every interleaving the tombstone's end is what all facts and reports before it give: its outcome is a force stop if there was one, else the last one reported, else what the status says; it resumes exactly if vouched for and not stopped, at the next round; and it is missing exactly for a completed run that reported no outcome. |
| `Publisher.RecordPublisher.constructor` | src/entrypoints/detached_run.py:185-210 | Publishes the first record and starts the machine the runs are made of. |
| `Publisher.RecordPublisher.Publish` | src/entrypoints/detached_run.py:309-319 | Writes the update at the given phase with the matching `paused`, and clears what was held. |
| `Publisher.RecordPublisher.Observe` | src/entrypoints/detached_run.py:240-263 | Is the machine's observe step, and raises exactly when a worker it needed was refused; what the step makes of phase and cause is `FoldIsWhatWasReported` and `EveryRecordNamesThePauser`. |
| `Publisher.RecordPublisher.PausingFor` | src/entrypoints/detached_run.py:265-271 | Is the machine's step for a reported cause. |
| `Publisher.RecordPublisher.Listening` | src/entrypoints/detached_run.py:235-238 | Is the machine's step that marks the server serving. |
| `Publisher.RecordPublisher.Resolved` | src/entrypoints/detached_run.py:212-217 | Is the machine's step that records the resolved project root. |
| `Publisher.RecordPublisher.Ending` | src/entrypoints/detached_run.py:273-276 | Keeps how the run's durable record stood, and changes nothing else. |
| `Publisher.RecordPublisher.Terminated` | src/entrypoints/detached_run.py:278-281 | Marks the server terminated, and changes nothing else. |
| `Publisher.RecordPublisher.End` | src/entrypoints/detached_run.py:283-289 | Is the exit observation followed by the tombstone write, and never raises from a state a run can reach. |
| `Publisher.RecordPublisher.Flush` | src/entrypoints/detached_run.py:291-307 | One wake-up is the machine's wake step; the worker sleeps on exactly the remaining wait, or is gone. |
| `JournalScan.ResumeIsFullScan` | src/server/events.py:1351-1477 | Scanning on from the end of an indexed prefix gives the full scan of the journal. |
| `JournalScan.ResumeIsFullScanExactly` | src/server/events.py:1351-1477 | A resumed scan that meets no corrupt line is the full scan if and only if the records resumed from index the bytes before the boundary. |
| `JournalScan.SafePartIsIndexed` | src/server/events.py:1412-1477 | What a scan calls safe is exactly the index of the bytes before its safe boundary. |
| `JournalScan.FirstRecordsAreIndexed` | src/server/events.py:1412-1477 | The first records of an index are the index of the bytes they cover. |
| `JournalScan.FullScanTells` | src/server/events.py:1412-1477 | A full scan raises exactly if some line is corrupt; otherwise its records are the journal's lines in order, each with the fields read off it, up to a torn last line, and all are safe but one without newline. |
| `EventIndex.RepairIsLeast` | src/server/event_index.py:143-161 | The sequence repair is the pointwise least strictly increasing positive sequence above the raw one. |
| `EventIndex.RepairIsIdempotent` | src/server/event_index.py:143-161 | Repairing a repaired sequence changes nothing. |
| `EventIndex.LoadedRecordsTile` | src/server/event_index.py:143-161 | However a sidecar was produced, the records it loads cover every byte before the boundary exactly once and carry the least repaired sequences. |
| `EventIndex.ScanIsWellIndexed` | src/server/events.py:1412-1477 | A scan's own records pass the sidecar's checks. |
| `EventIndex.PrefixDigest` | src/server/event_index.py:291-301 | However short its reads come back, the digest covers exactly the first `boundary` bytes, and is None exactly when there are fewer. |
| `EventIndex.ReadIdentity` | src/server/event_index.py:264-288 | The identity is the stat and prefix digest of the one file state seen, None when there was none or it is too short. |
| `EventIndex.LoadRecords` | src/server/event_index.py:143-161 | Returns the announced records exactly when the lines hold them, tiled, repaired and ending at the boundary. |
| `EventIndex.LoadEventIndex` | src/server/event_index.py:82-125 | Loads exactly the sidecars whose header, records, footer and source identity all hold before and after, and returns None for every other. |
| `EventIndex.WriteEventIndex` | src/server/event_index.py:177-246 | The sidecar afterwards is the old one, or the whole new one exactly when every check held and nothing failed before publication; True exactly when nothing failed at all. |
| `EventIndex.FalseKeepsTheSidecarExactly` | src/server/event_index.py:177-246 | True means published; False has left the old sidecar if and only if it was not a failure after publishing something new. |
| `EventIndex.PublishedYetFalse` | src/server/event_index.py:232-239 | A write that has published and returns False. |
| `EventIndex.LoadAgreesWithScan` | src/server/event_index.py:82-125 | Whatever happened to the file since, a load of an honest sidecar returns the scan of the current first `boundary` bytes, and scanning on from there is a full scan. |
| `EventIndex.WriteAfterFullScanIsHonest` | src/server/events.py:1388-1395 | Whatever the file did before the scan and after it, what is published after a full scan indexes the very prefix its digest covers. |
| `EventIndex.WriteAfterResumeIsHonestExactly` | src/server/events.py:1374-1386 | What is published after a resumed scan is honest if and only if the records resumed from still index the file the scan read. |
| `EventIndex.AttachSeesFullScanExactly` | src/server/events.py:1364-1395 | An attach that meets no corrupt line sees the full scan if and only if, on a hit, the records resumed from still index the file. |
| `EventIndex.AttachWritesExactly` | src/server/events.py:1351-1395 | An attach leaves the sidecar alone if it only reads, found a corrupt line or got no further than the cache, and otherwise writes the safe part of its scan exactly when every check of the write holds. |
| `EventIndex.NextAttachResumes` | src/server/events.py:1351-1395 | What an attach writes is what the next one resumes from, if it finds the file as it was or grown and knows its event types. |
| `EventIndex.ReplacedJournalIsPublishedDishonestly` | src/server/events.py:1364-1386 | A journal replaced between the load and the stat, and the dishonest sidecar the attach publishes. |
| `EventIndex.LoadsBackExactly` | src/server/event_index.py:115-125 | What was written loads back, exactly as written, if and only if the file has the same device and inode, is not shorter, has the same times if as long, and still begins with the indexed bytes. |
| `EventIndex.SidecarStaysHonest` | src/server/events.py:1351-1395 | Over any history of attaches whose resumed records still index the file when it is scanned, with each of an attach's six looks at the file its own, the sidecar stays honest. |
| `EventIndex.GrowingHistoriesSettle` | src/server/events.py:1351-1395 | A journal that is only appended to between an attach's load and its scan is such a history, whatever edits, replacements and failing writes happen at any other time. |
| `EventIndex.EveryAttachIsAFullScan` | src/server/events.py:1351-1395 | After any such history an attach of a journal only appended to meanwhile sees exactly what a scan of the whole file finds. |
| `Resolve.LongestPrefix` | scripts/check_contract_sot.py:289-296 | Finds exactly what the longest exported prefix stands for, rejoined with the rest: some prefix is exported, no longer one is, and each result comes from one of its targets. |
| `Resolve.Resolve` | scripts/check_contract_sot.py:271-297 | Without the marker the result is exactly the final names reachable, whatever the order and cycles; with it the rest is still sound; and the marker is not added while a small closed set of short names bounds what is reachable. |
| `Resolve.MeasureNode` | scripts/check_contract_sot.py:664-669 | A frozen authority is charged only if reached, and exactly if reached unless the node is flagged, which needs a name that resolves to the marker or past the limits. |
| `Bindings.Smallest` | scripts/check_contract_sot.py:177-181 | The first names in sorted order: a subset of the right size, below everything it leaves out. |
| `Bindings.LessExactly` | scripts/check_contract_sot.py:177-181 | The order sorted by is that of the first place where the strings differ, a prefix coming first. |
| `Bindings.BoundedIsFlagged` | scripts/check_contract_sot.py:168-183 | A stored set has at most 65 short names, never loses the marker, and is the whole union or carries the marker. |
| `Bindings.MarkedExactly` | scripts/check_contract_sot.py:168-183 | A stored set carries the marker exactly if the union did, holds more than 64 names, or holds one longer than 512 characters. |
| `Bindings.TargetsAreUnshadowed` | scripts/check_contract_sot.py:222-229 | An assignment's targets depend on the bindings of the names it does not shadow, and on those alone. |
| `Bindings.OverflowErrors` | scripts/check_contract_sot.py:634-638 | `source_counts` reports an error exactly if some binding carries the marker. |
| `Bindings.BindExtends` | scripts/check_contract_sot.py:168-183 | A bind loses no local and no marker, bounds what it changes, and loses no name while nothing is flagged. |
| `Bindings.UnchangedIsSettled` | scripts/check_contract_sot.py:222-229 | A bind that changed nothing leaves its assignment settled. |
| `Bindings.AliasTable.Bind` | scripts/check_contract_sot.py:168-183 | Stores the bounded union, and reports a change exactly if the table changed. |
| `Bindings.AliasTable.BindAll` | scripts/check_contract_sot.py:222-229 | One pass is the fold of its binds; it reports a change exactly if some bind made one, and otherwise every assignment is settled. |
| `Bindings.AliasTable.AssignmentBindings` | scripts/check_contract_sot.py:202-232 | Every assignment's targets are in its local's binding, or the marker is present; the table is the first unchanging pass, or is marked after every allowed pass changed something. |
| `Bindings.UnflaggedIsUntruncated` | scripts/check_contract_sot.py:202-232 | A table without the marker is a fixed point of binding without any limits, reached from the imports. |
| `Bindings.UntruncatedIsUnique` | scripts/check_contract_sot.py:202-232 | Binding without limits has at most one outcome. |
| `Bindings.CleanMeasurementIsExact` | scripts/check_contract_sot.py:762-786 | If no module's table and no node is flagged, binding without limits has an outcome, and a node is charged with exactly the frozen authorities that its names, taken from that outcome, reach through it. |
| `Ratchet.RelocatedCounts` | scripts/check_contract_sot.py:851-856 | For every path, owner and symbol the relocated count is the sum of that owner's and symbol's counts over exactly the paths renamed to it, and itself unless it is renamed away. |
| `Ratchet.RelocatedExactly` | scripts/check_contract_sot.py:851-856 | That sum, and only it, is the image of the counts under the renames. |
| `Ratchet.RelocationConserves` | scripts/check_contract_sot.py:851-856 | Relocation through any renames, merging ones included, keeps the total and every authority's total. |
| `Ratchet.GrownIsEmptyWithin` | scripts/check_contract_sot.py:809-815 | `ratchet` reports nothing if and only if the counts are pointwise within the allowance. |
| `Ratchet.NoManifestErrors` | scripts/check_contract_sot.py:534-558 | `manifest_ratchet` reports nothing if and only if the seed and every frozen shape are kept and no retirement is reversed. |
| `Ratchet.CheckTree` | scripts/check_contract_sot.py:881-935 | The gate passes exactly the changes within their relocated allowance whose manifest is preserved, and rewrites the files only when it passes. |
| `Ratchet.RenamingIsAccepted` | scripts/check_contract_sot.py:818-935 | A change that only renames consumers is accepted by a writing check, and by a plain one once its result is in place. |
| `Ratchet.RetireExactly` | scripts/check_contract_sot.py:521-531 | Retiring keeps the seed and every shape, and an authority with a shape is retired afterwards exactly if it was or its class is gone. |
| `Ratchet.AcceptedChangeShrinks` | scripts/check_contract_sot.py:889-924 | An accepted change uses no authority more than its base's baseline did. |
| `Ratchet.HistoryOnlyShrinks` | scripts/check_contract_sot.py:881-935 | Along any chain of accepted changes no authority's use and no total grows, no frozen shape changes and no retirement is reversed. |
| `Escapes.CookedEscape` | scripts/check_test_isolation.py:565-592 | A decoded escape advances by at least two, stays in the body and yields at most one character; which one is `CookedExactly`. |
| `Escapes.CookedString` | scripts/check_test_isolation.py:595-614 | The loop computes the body's value, or the raw text if an escape is malformed. |
| `Escapes.CookingInvertsSpelling` | scripts/check_test_isolation.py:542-614 | However each character of a text is written, plainly, by its letter, as itself after a backslash or in two, four or one to six hexadecimal digits of either case, and wherever lines are continued, cooking what was written gives the text back. |
| `Escapes.CookedExactly` | scripts/check_test_isolation.py:542-614 | The decoder accepts exactly the bodies some text can be written as, and gives that text; any other body comes back unchanged. |
| `Escapes.ToHexReads` | scripts/check_test_isolation.py:542-562 | A number written in hexadecimal, in any choice of cases, reads back as the number. |
| `Escapes.FromHexWrites` | scripts/check_test_isolation.py:542-562 | Digits that read as a number are that number written in some choice of cases. |
| `TypeScriptSkips.SkipBlockComment` | scripts/check_test_isolation.py:617-628 | Ends past the first close, else at the end, with exact line state. |
| `TypeScriptSkips.SkipQuoted` | scripts/check_test_isolation.py:631-649 | Ends past the first quote not preceded by an odd run of backslashes, else at the end, with exact line state. |
| `TypeScriptSkips.QuotedEndIsPastQuote` | scripts/check_test_isolation.py:631-649 | The scan's escape flag is the parity of the backslashes before the position, so its end is past the least unescaped quote. |
| `TypeScriptSkips.SkipRegex` | scripts/check_test_isolation.py:742-767 | Ends past the flags of the first slash that is neither escaped nor after a last unescaped bracket that opens a class, or at the newline or end before it. |
| `TypeScriptSkips.RegexEndIsPastRegex` | scripts/check_test_isolation.py:742-767 | The scan's two flags are the backslash parity and the last unescaped bracket, so its end is past the least delimiting slash or at the least newline. |
| `TypeScriptSkips.TemplateExpressions` | scripts/check_test_isolation.py:652-679 | Ends where the reference template ends and returns exactly its interpolations, each on the line it starts on. |
| `TypeScriptSkips.ExpressionEnd` | scripts/check_test_isolation.py:682-717 | Ends at the brace the reference scan ends at, with exact line state, to any depth of nesting. |
| `TypeScriptSkips.TemplateSpansAreOpened` | scripts/check_test_isolation.py:652-679 | Every interpolation follows its opening, ends at a closing brace or the source's end, and begins after the one before it. |
| `TypeScriptSkips.TextRunsToItsEnd` | scripts/check_test_isolation.py:652-679 | A template's text runs to its first unescaped backtick or unescaped opening; an opening begins the next interpolation, and after its end the template goes on as if read afresh. |
| `TypeScriptSlices.ExpressionInSlice` | scripts/check_test_isolation.py:682-717 | Cut out of the source, an interpolation's end is found where it is in the source. |
| `TypeScriptLexer.TypeScriptTokens` | scripts/check_test_isolation.py:424-468 | For every source lexing ends and gives exactly what the reference lexer gives, each token on the line of its own position and in source order; which parts those are is `PartsTile` and `EveryPartIsDue`. |
| `TypeScriptReference.PartsTile` | scripts/check_test_isolation.py:437-539 | However deep templates nest, the parts of a source lie one after another without gap or overlap, and each is what its kind says in the text it was lexed in: a word is a longest identifier or one character, a literal ends past its quote, a comment at its newline or close, a regex past its flags, template text past its first unescaped backtick or opening. |
| `TypeScriptReference.EveryPositionIsInOnePart` | scripts/check_test_isolation.py:449-468 | Every position is accounted for: it is in exactly one part, and one that is not blank in a token, literal, comment, regex or template text. |
| `TypeScriptKinds.EveryPartIsDue` | scripts/check_test_isolation.py:449-492 | For every source each part is of the kind its first characters and the token before it in its own text call for: a slash that opens no comment is a regex if and only if that token is absent, one of eleven opening or operator characters, or `return`, `case` or `throw`, and otherwise a token of one character. |
| `TypeScriptKinds.CanStartWhenDue` | scripts/check_test_isolation.py:720-739 | The lexer's own test of its tokens is that condition. |
| `TypeScriptKinds.DivisionAfterQuotedOpener` | scripts/check_test_isolation.py:720-739 | A division after a string of one parenthesis, which is lexed as a regex. |
| `TypeScriptReference.LexedIsSummary` | scripts/check_test_isolation.py:437-539 | What the lexer finds is exactly what its parts give, in order, each read off the whole source at its own place. |
| `TypeScriptInterpolation.InterpolationIsLexedInPlace` | scripts/check_test_isolation.py:505-514 | The scan for an interpolation's end agrees with lexing in place at every point exactly if it passes every regex with the depth unchanged, as it does one without brace, quote, backtick or comment opening; then the interpolation ends at the first brace token that closes more than was opened, and lexed on its own it gives the tokens and reasons that lexing in place gives. |
| `TypeScriptInterpolation.AgreeExactly` | scripts/check_test_isolation.py:682-717 | From any point of any source, agreement of the scan with lexing in place is exactly that every regex is passed. |
| `TypeScriptInterpolation.InterpolationIsCutShort` | scripts/check_test_isolation.py:682-717 | A template whose interpolation a brace in a regex ends, and whose code after the regex gives no token. |
| `TypeScriptReference.EveryTokenIsOnItsLine` | scripts/check_test_isolation.py:437-539 | Every token is the text or literal at its position, its line is the first line plus the newlines before it, and positions increase. |
| `TypeScriptReference.StandaloneExactly` | scripts/check_test_isolation.py:494-514 | Exactly the lines of exemption comments are exempt; exactly those are said to stand alone with only blanks before the comment on its line, or only blanks since the interpolation opened on that line; and only of the latter it is untrue. |
| `TypeScriptReference.OpeningCommentStandsAlone` | scripts/check_test_isolation.py:494-514 | A source whose comment comes right after an opening and whose line is said to stand alone. |
| `TypeScriptLexer.Lexer.constructor` | scripts/check_test_isolation.py:440-447 | Starts at the first position with nothing found and exact line state. |
| `TypeScriptLexer.Lexer.Scan` | scripts/check_test_isolation.py:449-468 | Consumes the whole source and finds exactly what the reference lexer finds. |
| `TypeScriptLexer.Lexer.Newline` | scripts/check_test_isolation.py:470-473 | Moves to the next line and keeps the reference outcome. |
| `TypeScriptLexer.Lexer.Slash` | scripts/check_test_isolation.py:475-492 | Consumes a comment or regex exactly when one begins here after these tokens, which `CanStartWhenDue` spells out, and otherwise changes nothing. |
| `TypeScriptLexer.Lexer.LineComment` | scripts/check_test_isolation.py:494-503 | Ends at the newline and records the exemption, on its line, standing alone exactly if only blanks precede it. |
| `TypeScriptLexer.Lexer.Template` | scripts/check_test_isolation.py:505-514 | Lexes every interpolation, in order, and skips the template's own text. |
| `TypeScriptLexer.Lexer.Identifier` | scripts/check_test_isolation.py:516-523 | Takes the longest run of identifier characters as one token on its line. |
| `TypeScriptLexer.Lexer.Quoted` | scripts/check_test_isolation.py:525-539 | Records the cooked literal as one token on the line it starts on. |
| `TypeScriptLexer.RawBodyIsBody` | scripts/check_test_isolation.py:532-536 | A quoted token cooks its literal's own body if and only if the literal is closed, is a lone quote at the end, or the source does not end in the quote. |
| `TypeScriptLexer.UnclosedBodyLosesItsQuote` | scripts/check_test_isolation.py:532-536 | A source for which it does not. |
| `Controller.StatusIsReplay` | src/server/controller.py:97-383 | At every point of every interleaving the status is the replay of the journal, as long as no terminal event comes from outside for a run that ended otherwise. |
| `Controller.OwnActionsAlwaysAgree` | src/server/controller.py:97-383 | For a run the server drives alone that agreement is unconditional. |
| `Controller.OutsideEndAgreesIffTimely` | src/server/integration.py:402-406 | Whatever else is pending and however long the append is delayed, a terminal event from outside keeps agreement if and only if the run had not already ended in another status. |
| `Controller.StopThenFinishDisagrees` | src/server/integration.py:402-406 | A stop that lands at a boundary before the core's finish event leaves a stopped run whose journal replays as completed. |
| `Controller.FinishesOnce` | src/server/controller.py:339-383 | However many threads call `finish` and whatever ends arrive from outside, the terminal events recorded or pending are one for each outside end, plus one exactly if a recording `finish` ended the run, and none before the run has ended. |
| `Controller.RunIsWhatWasAsked` | src/server/run_lifecycle.py:76-207 | After any actions the run is in the state the first action to end it left, else in the one asked for: a stop since the last resume outranks any pause, either is held until the run is ready, a pause is paused once a boundary has been reached since, and with neither it runs or starts. |
| `Controller.ResumeClears` | src/server/controller.py:141-145 | After any actions a resume of a run that has not ended leaves nothing pending: it runs, or keeps starting if it was never ready. |
| `Controller.RequestLands` | src/server/controller.py:241-269 | A pause or stop asked before or after the run is ready lands at its first boundary after that unless resumed or ended, as a stop exactly if one was asked for. |
| `Controller.BoundaryRaises` | src/server/controller.py:241-269 | A boundary raises exactly if the run has not ended, was never ready and no stop is asked for. |
| `Controller.JournalExplainsEveryChange` | src/server/controller.py:97-296 | Over every legal run each status change in the journal starts where the events before it replay to, and the command that made it, asked or landed, is the very next event. |
| `Controller.EveryCommandIsRecorded` | src/server/controller.py:129-150 | Every command given, even to a run that has ended, is in the journal exactly once and in order. |
| `Controller.AttachReadOnly` | src/server/controller.py:73-90 | Reopens a journal in its replayed status, and refuses exactly those that have not ended. |
| `Controller.ReopensAsItEnded` | src/server/controller.py:73-90 | An ended run reopens in the status it ended in, and nothing done to it then changes anything. |
| `Controller.RunController.ApplyLocked` | src/server/controller.py:97-127 | Makes the transition and records the change it caused, or changes nothing when the pair is illegal. |
| `Controller.RunController.PauseAfterCall` | src/server/controller.py:129-133 | Is the machine's pause command, which `RequestLands` is about. |
| `Controller.RunController.StopAfterCall` | src/server/controller.py:135-139 | Is the machine's stop command, which `RequestLands` is about. |
| `Controller.RunController.Resume` | src/server/controller.py:141-145 | Is the machine's resume command, which `ResumeClears` is about. |
| `Controller.RunController.ReachInvocationBoundary` | src/server/controller.py:241-269 | Is the machine's boundary step, and raises exactly when the finished invocation is illegal there. |
| `Controller.RunController.LandPauseAtBoundary` | src/server/controller.py:271-284 | Is the machine's landing of a pending pause. |
| `Controller.RunController.LandStopAtBoundary` | src/server/controller.py:286-296 | Is the machine's landing of a pending stop. |
| `Controller.RunController.Settle` | src/server/controller.py:328-347 | Ends the run, and reports that it did exactly if it had not ended before. |
| `Controller.RunController.Finish` | src/server/controller.py:349-383 | Ends the run and leaves a terminal event to append only for the one call that ended it. |
| `Interrupt.InterruptsOnce` | src/entrypoints/main_thread_interrupt.py:57-78 | Over all signals, nested handlers and requests: at most one interrupt, none lost once taken, a request returns only once it is taken, and reports at most once and not before the limit. |
| `Interrupt.OneSignalIsEnough` | src/entrypoints/main_thread_interrupt.py:57-66 | Once a signal gets through, letting the handlers run raises exactly one interrupt, and every request returns at its next look. |
| `Interrupt.RequestsFollowTheirReadings` | src/entrypoints/main_thread_interrupt.py:68-78 | Over every run each request did what its own looks at event and clock say: it sends in every round until a guard finds the event set, returns there, and reports the first round found stuck after five seconds and no other. |
| `Interrupt.MainThreadInterrupt.Take` | src/entrypoints/main_thread_interrupt.py:57-66 | Raises exactly when the interrupt was not yet taken, and takes it. |
| `Interrupt.RequestInterrupt` | src/entrypoints/main_thread_interrupt.py:68-78 | Sends in exactly the rounds that find the event unset, returns at the first that finds it set, and reports the first stuck round and no other. |
| `GatewayStop.Address` | src/entrypoints/server.py:709-741 | A poll signals the recorded process if it is new and observed to hold the files, or holders cannot be observed, and never otherwise. |
| `GatewayStop.StopDetachedGateway` | src/entrypoints/server.py:669-727 | Reports on the first poll that ends the wait: stopped exactly if free, still holding exactly if not and out of time; exactly one signal for each process ever addressable, at its first such poll. |
| `GatewayStop.StopWebGatewayOnPort` | src/entrypoints/server.py:782-824 | Signals only the listener verified first; the first later inspection that ends the wait decides stopped, refused or still holding. |
| `CriticalPath.JobFromRecord` | scripts/ci_wall_time.py:76-93 | Exactly the finished, unskipped records created before they started and completed become jobs, with the record's own name, conclusion and times. |
| `CriticalPath.Latest` | scripts/ci_wall_time.py:104-118 | The first of the jobs that completed last. |
| `CriticalPath.Analyze` | scripts/ci_wall_time.py:100-123 | None exactly for no jobs; otherwise the walk back ends and reports the run's critical path. |
| `CriticalPath.ReportIsUnique` | scripts/ci_wall_time.py:100-123 | A run has one critical path, so a right report leaves no choice. |
| `CriticalPath.SpanIsAccountedFor` | scripts/ci_wall_time.py:120-123 | The span of a path is exactly its waits and running times, less overlaps and skew. |
| `CriticalPath.SkewIsWithinSlack` | scripts/ci_wall_time.py:108-114 | The skew of a path is at most epsilon a link either way. |
| `CriticalPath.SlackIsProduct` | scripts/ci_wall_time.py:36-123 | The error bound is epsilon times the path's length less one. |
| `CriticalPath.ReportAccountsForTheRun` | scripts/ci_wall_time.py:49-123 | Completions increase along the path; queue and execution are non-negative and sum to elapsed; execution is exactly the running time less overlaps and skew, if positive; so it is never over the running time by more than the slack, and under it by no more if and only if the running time, or overlaps and skew together, are within the slack. |
| `CriticalPath.OverlapBreaksTheBound` | scripts/ci_wall_time.py:89-93 | Two accepted records for which execution is under the running time by more than the slack. |
| `ControlReply.ReadLine` | src/server/instances.py:88-102 | Stops at the first count at which it cannot go on; every receive gets exactly the time left on the one deadline; the buffer never exceeds its bound. |
| `ControlReply.ChunkingDoesNotMatter` | src/server/instances.py:88-102 | However a stream is cut into chunks, the line read is its first line if within the limit, and otherwise a line over the limit. |
| `ControlReply.RequestStop` | src/server/instances.py:55-85 | True exactly when everything happened in time and the line read acknowledges the stop; closed exactly when opened; independent of the reply's chunking. |
| `ReleaseVersions.NumeralIsCanonical` | packaging/release_versions.py:8-9 | The decimal spelling of a number is a numeral of the grammar and reads back as the number. |
| `ReleaseVersions.ParseExactly` | packaging/release_versions.py:36-54 | A string parses to an identity if and only if it is that identity's one spelling. |
| `ReleaseVersions.SameIdentitySameSpelling` | packaging/release_versions.py:36-54 | Within an ecosystem equal identities mean equal spellings. |
| `ReleaseVersions.IdentitiesAgreeAcrossEcosystems` | packaging/release_versions.py:36-54 | A Python and an npm version have the same identity if and only if one is the other with its release-candidate marker translated. |

## Left out

- Tombstone: the end record's reason text, which is one-lined prose, is not modelled.
- Publisher.RecordPublisher.Resolved: does not model the metadata published after the lock is released, nor record fields that never change.
- Publisher: a publish that the file system fails is not modelled; the record's own validator is, and is proved never to reject.
- EventIndex.ReadIdentity: the three stats of one call are one file view, None when they disagree; the model does not say how a file changes between them.
- EventIndex.WriteAfterFullScanIsHonest: assumes, as the source's own stat comparison does, that a file whose stat is the same before the scan and at the write holds then the bytes the scan read.
- EventIndex.EveryAttachIsAFullScan: a journal that does not exist, which an attach finds empty without looking at the sidecar, is not modelled.
- EventIndex: SHA-256 is an injective function, sidecar lines are datatypes, and temporary files, permissions and syncing are not modelled; neither is the eager validation of the journal's tail.
- Bindings.AliasTable.AssignmentBindings: evaluating a Python expression under aliases is an arbitrary function of the expression and the table; collecting import bindings and assignments from syntax trees is not modelled.
- Ratchet.CheckTree: the exit code for an unusable checkout, reading renames from Git, and the errors found by scanning sources (copied definitions, canonical shapes) are an opaque list of scan errors.
- TypeScriptLexer.TypeScriptTokens: Unicode character classes are arbitrary tables in which a newline is neither letter nor digit and a quote, backtick, slash or brace neither those nor a blank, and the exemption pattern is an arbitrary function of the comment.
- Interrupt.MainThreadInterrupt.Take: setting the event is one step; a handler that interrupts the inside of `Event.set` is not modelled.
- GatewayStop: how holders, records and port listeners are observed is not modelled; the clock is assumed to advance by some positive amount from one poll to the next.
- CriticalPath.Analyze: times are real numbers, so rounding to floating point is not modelled; rendering the report is not either.
- ControlReply.RequestStop: decoding the reply is an arbitrary function of the line.
- ReleaseVersions.ParseExactly: digits are ASCII; the source's patterns also accept other Unicode digits.
- TypeScriptInterpolation.InterpolationIsLexedInPlace: that ends can coincide although the scan and the lexer disagreed on the way is not excluded.
- Controller.EveryCommandIsRecorded: requires that what the execution tracker records is no command, as its events are.
- Controller: waiting threads and notifications are not modelled, only what each locked section does.
- The timer rules that consume the TypeScript tokens, and the Python-side rules of the same script, are many syntactic cases without a compact statement.
- Argument handling, spawning, browser opening and asset checks around the gateway would only add easy members.
- Headless and terminal output, the web entry point, launchers, wheel builders, documentation checkers, the website, clients and examples are not part of this model.
