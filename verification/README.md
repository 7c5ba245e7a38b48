# comemory, modelled in Dafny

comemory is a local memory and code-search tool: a Rust command line and HTTP server over SQLite,
with Python release scripts and a static documentation site. This project models the parts of it
whose correctness is a statement about every input, every interleaving or every crash, and proves
those statements.

- **The licence audit** (`LicenseSplit`, `LicenseScan`, `LicenseAudit`, `LicenseGrammar`,
  `LicenseJoin`, `LicenseFuse`, `LicenseMeaning`,
  `LicenseSeparators`). `satisfied` evaluates an SPDX expression straight on its text, with no syntax
  tree. The project defines the trees, their printed forms and their meaning, and proves that the
  evaluator computes the meaning of every one of them, with the precedence of SPDX Specification
  2.3, Annex D, section D.4.5, and the legacy `/`.
- **The completion installer** (`ManagedBlocks`, `CompletionUpsert`, `CompletionWrite`,
  `ShellQuoting`). The marker scanner, the rewriter of the managed block, the
  write-and-rename of the startup file, and the quoting of a path for the shells that read it.
- **Patching `config.toml`** (`ConfigDocument`, `ConfigPatch`, `ConfigPatchCode`). A file system
  with volatile and durable contents and directory entries, flushes at any time and crashes at any
  point; the code of the patcher runs against it one system call at a time.
- **The activity feed** (`ActivityFeed`, `ActivityStream`, `ActivityDelivery`). The table with its
  reads, and the system of writers, the retention sweep and one live stream whose client may
  reconnect at any time.
- **The server's jobs** (`JobRegistry`, `JobRegistryCode`, `JobServer`, `JobRuns`, `JobOrder`). The job table
  and the single write permit shared by synchronous requests and background jobs.
- **Durations and heading ids** (`Durations`, `HeadingIds`, over `Decimal` and `Text`).
- **Concrete inputs** for the constants and formats of several of these (`WorkedExamples`).

Each protocol is a step system: a state, a set of events, an invariant that every step keeps, and
theorems over `Run`, which folds any sequence of events. Where the source changes state in place,
the project has classes and methods whose contracts equate the new state with a function of the old
one; the theorems are about those functions. An event that is not enabled leaves the state alone,
so that "every sequence of events" needs no side condition. The functions that models and methods
share are in turn described without their bodies: text order position by position, splits by their
separators, records field by field, refusals as if-and-only-ifs over what the caller passes in.

## What turned out not to hold as written

- `split_top_level` misses operators in two ways. Its regular expression asks for any white space
  to the left, but the code then looks at the previous character only for a blank, a tab or `)`
  (`scripts/lib/license_audit.py:61-62`), so an operator after line breaks alone is not seen: `MIT`,
  a newline, `OR ISC` is rejected although MIT is allowed. And it needs white space to the right
  even before a parenthesis, so `MIT OR(ISC)` is rejected too, while `(MIT)OR ISC` is not.
  `LicenseJoin.OperatorSeenIff` says exactly when an operator between two parts is seen, and
  `LicenseFuse.FusedAgrees` gives the exact meaning of every text made of identifiers, parentheses
  and operators: operators that are not seen fuse the operands around them into one identifier.
  For expressions with parentheses where the precedence needs them that name no licence twice,
  `LicenseMeaning.MeaningKeptIff` says that the text means what it says exactly when every operator
  is seen; `LicenseMeaning.RepeatedNameHides` is why names may not repeat.
- `upsert_block` takes every block after the first out and joins the text around it. If such a block
  does not start a line, the join can complete a marker, and the next write refuses the file
  (`CompletionUpsert.SplitMarkerBreaks`). `CompletionUpsert.OneBlockIff` and
  `CompletionUpsert.LastWriteWins` hold exactly when the text that stays behind the first block is
  free of markers; `CompletionUpsert.LinesSuffice` shows that this is so when blocks start lines, as
  the installer writes them.
- The doubling of apostrophes for PowerShell is undone exactly for paths without the typographic
  single quotes U+2018 to U+201B, which PowerShell also reads as quotes
  (`ShellQuoting.PowerShellRoundTripIff`). The POSIX form has no such limit.
- A stream opened with `?after_id=` starts over there at every reconnection, because the URL's cursor
  wins over `Last-Event-ID` (`src/serve/routes/activity_stream.rs:126-140`). Its client gets rows
  again: `ActivityDelivery.ReplayCounterexample` is the smallest run, `ActivityDelivery.DuplicateFreeIff`
  says that a stream can repeat a row exactly when it was opened with `after_id` and a row to send is
  there or can still be written, and `ActivityDelivery.ReplayIff` when one reconnection repeats none.
  Nothing is lost by it. A client with no cursor at all, that is without `after_id` and before its
  first event, connects at the newest row again and misses what came in between
  (`ActivityDelivery.ReconnectLosesNothingIff`).
- Waiting jobs get the permit in the order in which their tasks first ask for it, which need not be
  the order in which they were submitted (`JobRuns.SubmissionOrderIsNotKept`). It is when tasks ask
  oldest first, for instance when each asks before the next is submitted
  (`JobOrder.SubmissionOrderKept`), and that is needed (`JobOrder.OldestNeeded`).

## Model

| member | source | states |
|---|---|---|
| LicenseSplit.SplitTopLevel | scripts/lib/license_audit.py:42-70 | the loop over `index`, `depth` and `buffer` computes the function `TopLevelParts`, about which all splitting theorems speak |
| LicenseSplit.TopLevelParts | scripts/lib/license_audit.py:68-70 | on any string, malformed or not: when it splits at all, every part is strictly shorter, which is why the recursion of the evaluator ends |
| LicenseSeparators.SplitExact | scripts/lib/license_audit.py:42-70 | for every text, well formed or not: the split is the one way to cut it at its leftmost separators outside parentheses, a separator being a slash for OR, or white space, the word and white space at the start or behind a blank, a tab or `)`; parts are trimmed and empty ones dropped |
| LicenseSeparators.OneCut | scripts/lib/license_audit.py:49-69 | there is only one way to cut a text at its leftmost separators |
| LicenseSeparators.CleanOne | scripts/lib/license_audit.py:70 | a part is dropped when it is white space only, and otherwise loses the white space around it |
| LicenseSeparators.WhiteSpace | scripts/lib/license_audit.py:61-75 | the white space meant, character by character |
| LicenseAudit.StripCandidate | scripts/lib/license_audit.py:77-92 | the guard and the depth loop together decide whether the outer parentheses come off |
| LicenseSeparators.WrapsIff | scripts/lib/license_audit.py:77-92 | for every text: outer parentheses come off if and only if no prefix of the inside closes more than it opens, and the inside has as many of both or is a single operand |
| LicenseSeparators.AllowedIff | scripts/lib/license_audit.py:100 | an identifier is allowed as it stands or without all the `+` at its end |
| LicenseSeparators.AtomIff | scripts/lib/license_audit.py:42-70 | which texts count as identifiers in the statements about trees: no parentheses, slashes or outer white space, and neither operator as a word of its own |
| LicenseAudit.CheckSatisfied | scripts/lib/license_audit.py:73-100 | the evaluator with its stripping loop and short-circuiting branches ends on every string and computes `Satisfied` |
| LicenseAudit.SatisfiedMonotone | scripts/lib/license_audit.py:73-100 | for every string, well formed or not: allowing more licences never turns an accepted one down |
| LicenseAudit.EmptyAllowRejects | scripts/lib/license_audit.py:73-100 | for every string: an empty allow list satisfies nothing |
| LicenseGrammar.SplitPrint | scripts/lib/license_audit.py:42-70 | splitting a printed expression on OR or AND gives the printed operands of the outermost operator, in order, however deep parentheses nest and however the gaps are spaced or slashed |
| LicenseGrammar.UnwrapGroup | scripts/lib/license_audit.py:76-92 | parentheses around a whole expression come off, with their padding |
| LicenseGrammar.UnwrapBare | scripts/lib/license_audit.py:78-89 | an expression that merely starts and ends with a parenthesis, such as two groups joined, stays as it is |
| LicenseGrammar.EvaluatorAgrees | scripts/lib/license_audit.py:73-100 | evaluating the printed form of any expression tree whose operators are seen equals evaluating the tree; OR binds loosest, an atom holds when it or its `+`-stripped form is allowed, and a fused leaf is looked up whole |
| LicenseGrammar.AnyTreeRoundTrips | scripts/lib/license_audit.py:73-100 | a tree of any shape, printed with parentheses only where precedence needs them, evaluates to its meaning |
| WorkedExamples.OrBindsLoosest | scripts/lib/license_audit.py:93-99 | `A OR B AND C` is satisfied by A, or by B and C |
| WorkedExamples.GroupsFirst | scripts/lib/license_audit.py:76-99 | `(A OR B) AND C` is satisfied by C together with A or B |
| WorkedExamples.SlashIsOr | scripts/lib/license_audit.py:45-46 | `A/B` and `( A / B )` are satisfied by A or by B |
| LicenseJoin.SplitJoin | scripts/lib/license_audit.py:42-70 | splitting undoes joining for arbitrary parts that are non-empty, trimmed, balanced and hold no operator at depth 0 |
| LicenseJoin.FreeIff | scripts/lib/license_audit.py:49-68 | the scanner passes over exactly the texts without an operator at depth 0: no slash for OR, and no word behind white space, with white space after it, at the start or behind a blank, a tab or `)` |
| LicenseJoin.OperatorSeenIff | scripts/lib/license_audit.py:61-66 | between two arbitrary parts, an operator set off by white space or parentheses splits if and only if white space follows it, and the white space to its left holds a blank or a tab, or the part before it ends in `)` |
| LicenseJoin.OrOfTwoAtoms | scripts/lib/license_audit.py:61-66 | a disjunction of two identifiers means what it says with a blank or tab before OR; with line breaks alone the whole text is looked up as one licence |
| LicenseJoin.LineBreakCounterexample | scripts/lib/license_audit.py:61-62 | the concrete input: MIT is allowed, `MIT`, newline, `OR ISC` is rejected |
| LicenseFuse.FuseOk | scripts/lib/license_audit.py:42-70 | fusing the operands of unseen operators keeps the text and leaves an expression all of whose other operators are seen |
| LicenseFuse.FusedAgrees | scripts/lib/license_audit.py:73-100 | main theorem, for any tree, any parentheses or none and any white space or parentheses around operators: evaluating the text equals evaluating the fused tree, in which unseen operators are part of identifiers and OR binds loosest |
| LicenseFuse.FuseKeepsMeaning | scripts/lib/license_audit.py:73-100 | fusing changes no meaning when all operators are seen |
| LicenseFuse.OneOperatorIff | scripts/lib/license_audit.py:61-66 | two operands and an operator: the evaluator agrees with the expression on every allow list if and only if the operator is seen |
| LicenseFuse.TouchingCounterexample | scripts/lib/license_audit.py:61-62 | the concrete input: MIT is allowed, `MIT OR(ISC)` is rejected |
| LicenseMeaning.MeaningKeptIff | scripts/lib/license_audit.py:42-100 | for a whole expression, with parentheses where precedence needs them, that names no licence twice: the evaluator agrees with its meaning on every allow list if and only if the scanner sees every operator |
| LicenseMeaning.EachDecides | scripts/lib/license_audit.py:93-100 | in such an expression every licence decides the meaning under some allow list |
| LicenseMeaning.RepeatedNameHides | scripts/lib/license_audit.py:93-100 | with a name repeated, an unseen operator can leave the outcome right on every allow list |
| ManagedBlocks.FindBlocks | src/cli/completion_install.rs:193-223 | the cursor scanner with its error exits succeeds exactly when the ordered occurrences of both markers alternate, and returns their pairs |
| ManagedBlocks.MarksComplete | src/cli/completion_install.rs:193-223 | the list of occurrences holds every place a marker occurs, and nothing else |
| ManagedBlocks.MarksSorted | src/cli/completion_install.rs:18-19 | the list of occurrences is strictly ascending by position |
| ManagedBlocks.AtIff | src/cli/completion_install.rs:196-211 | a marker stands at a place if and only if the text is what precedes it, the marker and a rest |
| ManagedBlocks.BlocksExact | src/cli/completion_install.rs:193-223 | the accepted language: the scan returns `bs` if and only if the text is marker-free stretches and blocks in turn, each block a start marker, a marker-free body and an end marker, and `bs` are these blocks |
| CompletionUpsert.UpsertText | src/cli/completion_install.rs:168-189 | the in-place rewriting computes `Upsert`, and refuses malformed texts |
| CompletionUpsert.ReplaceBlocks | src/cli/completion_install.rs:170-179 | the cursor loop puts the new block in place of the first and keeps all text between and after the others |
| CompletionUpsert.UpsertBlock | src/cli/completion_install.rs:162-191 | down to the file system: a malformed file is not touched; otherwise every state of the directory shows the startup file whole with its old permissions, the old text or the old text with the block written, and the reported outcome says which |
| CompletionUpsert.OneBlockIff | src/cli/completion_install.rs:162-191 | after a write the text scans to exactly one block if and only if the body and the text kept behind the first block are marker-free; the block stands where the first one stood and is the start marker, the body and the end marker on lines of their own |
| CompletionUpsert.LinesSuffice | src/cli/completion_install.rs:173-178 | that text is marker-free whenever every block after the first starts a line |
| CompletionUpsert.UserTextKept | src/cli/completion_install.rs:162-191 | taking the managed blocks out of input and output leaves the same user text; a text without a block only gains the padding |
| CompletionUpsert.AppendSetsOff | src/cli/completion_install.rs:181-188 | an appended block is set off by an empty line, after the whole old text and nothing but newlines |
| CompletionUpsert.LastWriteWins | src/cli/completion_install.rs:162-191 | writing b1 then b2 equals writing b2, for zero, one or many old blocks, if and only if the text kept behind the first block is marker-free; with equal bodies this is idempotence |
| CompletionUpsert.SplitMarkerBreaks | src/cli/completion_install.rs:173-178 | for every way of cutting the start marker in two: a block between the halves is taken out, the write succeeds, and the result is refused by every later scan |
| WorkedExamples.Appended | src/cli/completion_install.rs:162-191 | the exact text written into an empty file, and behind text with and without a final newline |
| WorkedExamples.Replaced | src/cli/completion_install.rs:168-179 | the exact text when a block is already there |
| CompletionWrite.TempNames | src/cli/completion_install.rs:281-287 | a temporary name is never the target, and different counter values give different names |
| WorkedExamples.TemporaryName | src/cli/completion_install.rs:282-287 | the name of a temporary file for a concrete target, process and counter |
| CompletionWrite.Directory.WriteTemp | src/cli/completion_install.rs:273-311 | sixteen names are tried in order and no existing file is opened; it gives up only when a system call fails or all sixteen are taken; on success a new file holds the whole body with the permissions asked for |
| CompletionWrite.Directory.WriteFile | src/cli/completion_install.rs:232-262 | whatever fails and wherever the process is killed, every state of the directory shows the target with its old permissions and the old content or `body`, and all other files untouched; success means content `body` and the old permissions |
| ShellQuoting.PosixRoundTrip | src/cli/completion_install.rs:313-316 | a reader after POSIX.1-2017, Shell Command Language, sections 2.2.1, 2.2.2 and 2.3, reads the quoted form of any path as one word equal to the path, whatever follows the word |
| ShellQuoting.EndsWordIff | src/cli/completion_install.rs:313-316 | the characters behind which the quoted word is known to end, one by one |
| ShellQuoting.PowerShellRoundTripIff | src/cli/completion_install.rs:313-316 | a PowerShell verbatim string gives the path back if and only if the path holds no typographic single quote |
| ShellQuoting.SingleQuotes | src/cli/completion_install.rs:313-316 | the characters PowerShell reads as single quotes, one by one |
| WorkedExamples.Quoted | src/cli/completion_install.rs:20-21 | `it's` in both quoted forms |
| ConfigDocument.SetKeepsOthers | src/config/patch.rs:78-87 | a key set through `section` reads back as set, through rendering and parsing, and every path away from it is as before |
| ConfigDocument.PatchTextIff | src/config/patch.rs:31-43 | a patch writes a text if and only if the old file is missing or parses to a table, the edit accepts that table, and the text renders the result |
| ConfigDocument.MalformedRefused | src/config/patch.rs:30-40 | a file that does not parse to a table is never overwritten |
| ConfigDocument.SetGoesThroughIff | src/config/patch.rs:78-87 | a key is set if and only if the file can be read, its section is missing or a table, and the result renders; all else in it stays |
| ConfigPatch.StepKeepsInv | src/config/patch.rs:31-76 | with the sync before the rename, every system call, background flush, error and crash keeps both directory views on whole documents |
| ConfigPatch.CrashRecovers | src/config/patch.rs:51-69 | what readers get after a crash is what was called recoverable before it |
| ConfigPatch.WholeDocuments | src/config/patch.rs:31-76 | over any sequence of patches, errors, flushes and crashes: readers and recoveries get whole versions, never older than the last patch whose directory sync succeeded, and every version is an edit of an earlier one |
| ConfigPatch.OldOrNew | src/config/patch.rs:31-62 | during one patch of a quiet system, with flushes in any order and a crash anywhere, the recovered document is the old or the new one |
| ConfigPatch.WithoutSyncTorn | src/config/patch.rs:51-54 | without the sync there is a run that recovers an empty file, also when an interrupted patch left its temporary file |
| ConfigPatch.WithoutSyncAnything | src/config/patch.rs:51-62 | without the sync, for any bytes there is a run that recovers exactly these bytes under the name of the document |
| ConfigPatch.SyncIsNeeded | src/config/patch.rs:51-62 | from any quiet state, with or without a leftover temporary file, and for any patch that renders: all runs recover the old or the new document if and only if the temporary file is synced before the rename |
| ConfigPatchCode.ConfigDir.WriteSynced | src/config/patch.rs:55-62 | create, write in pieces of any size, sync; the live document does not move, and success means the whole text is durable under the temporary name |
| ConfigPatchCode.ConfigDir.PatchConfigFile | src/config/patch.rs:31-49 | a file that is no table is never touched; a patch that fails before writing leaves the file system as it is, one that fails later leaves the document as it is; success means the old document, or an empty one when the file is missing, was edited, rendered, put in place and the directory sync tried, which makes it durable if it succeeds |
| ActivityFeed.SelectExact | src/store/activity.rs:113-138 | a filter selects exactly the rows that agree with every set field |
| ActivityFeed.LessIff | src/store/activity.rs:128-132 | the text order is the position-by-position one: a proper prefix comes first, and otherwise the smaller character at the first difference |
| ActivityFeed.SelectMeans | src/store/activity.rs:113-138 | a filter field by field: set fields agree, `since` is the earliest text allowed, the cursor is exclusive |
| ActivityFeed.NewestIdExact | src/store/activity.rs:217-230 | the newest id is 0 for an empty table and otherwise that of a live row that no row exceeds |
| ActivityFeed.NewestFirstSorts | src/store/activity.rs:185-190 | the page order is a permutation of the rows, strictly sorted by (`at`, id) descending |
| ActivityFeed.WindowIsSlice | src/store/activity.rs:163-196 | a window is a slice of the page order and the total its length, whatever limit and offset, and the clamping to 64 bits never shows |
| ActivityFeed.PageNewestFirst | src/store/activity.rs:185-190 | on every page a later row has an earlier time, position by position, or the same one and a smaller id |
| ActivityFeed.PagesAreSlice | src/store/activity.rs:163-196 | consecutive windows concatenate to one slice |
| ActivityFeed.PagingPartitions | src/store/activity.rs:163-215 | windows of any positive limit partition the filtered rows, newest first, without gap or repeat; the total is their number, limit 0 the whole tail, and the rows are those of a cursor read under the same filter |
| ActivityStream.ActivityLog.Insert | src/store/activity.rs:140-161 | accepted exactly for the three sources, a new event id and ids left; the row with all its columns is appended under an id larger than every one handed out before |
| ActivityStream.ActivityLog.DeleteBefore | src/store/activity.rs:232-242 | exactly the rows whose time precedes the cutoff, position by position, go, and the result is their number |
| ActivityStream.PollReads | src/serve/routes/activity_stream.rs:175-196 | a poll reads wanted rows above the cursor in ascending order, and misses one only beyond a full batch |
| ActivityStream.StepKeepsInv | src/serve/routes/activity_stream.rs:126-172 | writes, sweeps, polls, emissions and reconnections with either cursor, or none, keep the stream ascending, nothing skipped and nothing unaccounted for |
| ActivityStream.TableSteps | src/store/activity.rs:140-161 | writes and sweeps beside a stream append the accepted row, and drop the rows older than the cutoff |
| ActivityDelivery.ExactlyOnce | src/serve/routes/activity_stream.rs:126-196 | a stream opened without `after_id`, over every interleaving and any number of reconnections: what the client receives is strictly ascending in id, matches and lies above the start |
| ActivityDelivery.NothingLost | src/serve/routes/activity_stream.rs:126-196 | any stream: every wanted row inserted since the connection that the stream has passed was received, unless it was swept while still ahead of the stream; live ones were emitted |
| ActivityDelivery.Arrives | src/serve/routes/activity_stream.rs:151-172 | from any reachable state, polling and emitting alone bring every live wanted row to the client |
| ActivityDelivery.ArrivesWithin | src/serve/routes/activity_stream.rs:151-172 | bounded delivery: in any run without a reconnection, whatever writers and the sweep do, after as many emissions as there are wanted rows up to a given one ahead of the stream, that row was emitted, or swept while still ahead |
| ActivityDelivery.ReplayIff | src/serve/routes/activity_stream.rs:126-140 | a reconnection with `after_id` repeats no row up to the next one, whatever happens, if and only if all rows received so far have been swept |
| ActivityDelivery.DuplicateFreeIff | src/serve/routes/activity_stream.rs:126-140 | over all runs from any table, the documented handover at the newest id included: no row is ever received twice if and only if the stream was opened without `after_id`, or no row to send is there or can ever be written |
| ActivityDelivery.ReplayCounterexample | src/serve/routes/activity_stream.rs:126-140 | one row, `after_id=0`, one reconnection: the row is received twice |
| ActivityDelivery.ReconnectLosesNothingIff | src/serve/routes/activity_stream.rs:126-146 | a reconnection leaves every live wanted row still to come if and only if the client has a cursor or there is no such row |
| ActivityDelivery.NothingOld | src/store/activity.rs:217-230 | a stream connected at the newest id emits no row that existed before, even when the table was empty at connect and the start falls back to 0 |
| ActivityDelivery.NothingBelowStart | src/store/activity.rs:217-230 | over every run of a stream opened without a cursor: each row written since that passes the filter lies above the start, so it is received once passed, or was swept while ahead |
| ActivityStream.PollIsComplete | src/store/activity.rs:198-215 | after a short poll every live wanted row is emitted or about to be; with an unread one a poll makes progress, oldest first |
| JobRegistry.EvictFinished | src/serve/jobs/registry.rs:352-378 | live jobs all stay, and of the finished ones exactly the newest hundred |
| JobRegistry.SweptUnique | src/serve/jobs/registry.rs:352-378 | these requirements determine the table left |
| JobRegistryCode.Registry.Insert | src/serve/jobs/registry.rs:115-160 | refused exactly when a queued or running job for the same command and repository is there; the record carries command, repository and number and is a rival to later insertions; finished jobs go only to make room for a hundred, oldest first; the number is used up either way |
| JobRegistryCode.Registry.CancelJob | src/serve/jobs/registry.rs:182-206 | which outcome for which status; a live job is flagged in either case, only a queued one is ended, and nothing else changes |
| JobRegistryCode.Registry.Start | src/serve/jobs/registry.rs:208-229 | queued and not flagged jobs, and no others, go to running in one step |
| JobRegistryCode.Registry.SetJobStatus | src/serve/jobs/registry.rs:268-302 | a live job gets exactly the status given, with the time if it is final; final ones and all other jobs stay as they are |
| JobRegistryCode.Registry.AppendLog | src/serve/jobs/registry.rs:256-266 | the tail is the last min(20, n) of the n lines pushed, in order |
| JobServer.PushLogTail | src/serve/jobs.rs:249-260 | pushing a line keeps the tail equal to the last twenty lines pushed |
| JobServer.ReleasePermit | src/serve/routes.rs:264-286 | dropping the permit hands it to the task that waited longest and keeps holder, waiters and arrival order consistent |
| JobServer.StepKeepsInv | src/serve/jobs/worker.rs:132-167 | every step of requests, job tasks and cancellations keeps permit, queue, records, flags and started bodies consistent |
| JobRuns.MutualExclusion | src/serve.rs:82-87 | in every reachable state at most one request or job writes, it holds the permit, and on a read-only server none does |
| JobRuns.RequestsNeverWaitOrOvertake | src/serve/routes.rs:277-300 | a synchronous request is answered at once: refused as read-only, refused as busy, or admitted, and then no job was waiting |
| JobRuns.ReadOnlyOutranks | src/serve/routes.rs:264-300 | being read-only is answered first, then the permit is taken or refused |
| JobRuns.PermitPassedOn | src/serve/routes.rs:268-271 | when a request or a mutating job is done, the task that has waited longest has the permit, and when nobody waits it is free |
| JobRuns.NoOvertaking | src/serve/jobs/worker.rs:142-153 | jobs get the permit in the order in which they asked for it, over every run, and a free permit means nobody waits |
| JobRuns.SubmissionOrderIsNotKept | src/serve/jobs.rs:1-5 | a run in which the job submitted second is served first |
| JobOrder.ServedInOrderIff | src/serve/jobs/worker.rs:142-153 | over every run the jobs served are the first arrivals, so they are in the order of submission if and only if those arrivals are |
| JobOrder.SubmissionOrderKept | src/serve/jobs.rs:1-5 | when tasks ask for the permit oldest first, or each before the next submission, jobs arrive and are served in the order of submission |
| JobOrder.OldestNeeded | src/serve/jobs/worker.rs:142-153 | letting a task ask keeps every further oldest-first run in the order of submission if and only if it is the oldest still to ask |
| JobRuns.StepEdges | src/serve/jobs.rs:67-104 | records move only queued to running, queued to cancelled or running to a terminal status; only terminal ones are dropped, and dropped ones never come back |
| JobRuns.SubmitAccepted | src/serve/jobs/registry.rs:115-160 | a submission is refused if and only if it would write on a read-only server or has a live rival; otherwise the record carries exactly what was submitted |
| JobRuns.RivalRefused | src/serve/jobs/registry.rs:125-139 | after an accepted submission for a repository, another one for the same command is refused in every continuation while the first job is queued or running |
| JobRuns.RunsToItsOutcome | src/serve/jobs/worker.rs:154-166 | a job that has what it needs and is not cancelled runs its body, its outcome is recorded as it is, and it gives the permit up |
| JobRuns.CancelMeans | src/serve/jobs/registry.rs:182-206 | a cancellation ends a queued job, flags a running one, and leaves every other alone |
| JobRuns.LogMeans | src/serve/jobs.rs:249-260 | a line logged is the last of the tail, and the oldest went if there were twenty |
| JobRuns.TerminalIsFinal | src/serve/jobs/registry.rs:272-302 | over every run a terminal status and its finish time are never changed |
| JobRuns.CancelledWhileQueuedNeverRuns | src/serve/jobs/worker.rs:154-159 | a job cancelled while queued never runs its body in any continuation, evicted or not |
| JobRuns.ReachableRecords | src/serve/jobs/worker.rs:154-166 | in every reachable state a body was started at most once, a running body has its record marked running, `finished_at` is set exactly in terminal states, the log tail is right, and a repository has one live job per command |
| Durations.ParseSpelled | src/config/sync.rs:347-374 | well-spelt durations: the number times the unit, or the bad-number or overflow refusal exactly when the number or the product of seconds exceeds 64 bits |
| Durations.AcceptsExactly | src/config/sync.rs:342-379 | the parser returns a duration if and only if the trimmed text is digits and a unit in either case that fit, and it is the number times the unit |
| Durations.PrintedParses | src/config/sync.rs:342-379 | every printed number and unit that fits parses back, in either case and with white space around |
| Durations.EachUnit | src/config/sync.rs:356-374 | ms, s, m, h and d in lower and upper case with their factors, and where each overflows |
| Durations.RefusedSplit | src/config/sync.rs:356-378 | digits followed by something else: bad number exactly beyond 64 bits, bad unit exactly when the rest is no unit |
| Durations.RefusedUnsplit | src/config/sync.rs:343-355 | empty, missing unit and missing number exactly for texts that are white space, digits only, or do not start with a digit |
| Durations.WhiteSpace | src/config/sync.rs:343 | the white space that is trimmed, character by character |
| Decimal.DigitIff | src/config/sync.rs:347-348 | the digits, one by one |
| HeadingIds.CandidateInjective | docs/assets/documentation.js:94-96 | different suffixes give different candidates |
| HeadingIds.StripWords | docs/assets/documentation.js:93 | words separated by a blank come out joined by a hyphen, and letters, digits, `_` and `-` stay |
| HeadingIds.StripOne | docs/assets/documentation.js:93 | what becomes of each single character |
| HeadingIds.SlugTrims | docs/assets/documentation.js:93 | white space around a heading does not show in its slug |
| HeadingIds.WhiteSpace | docs/assets/documentation.js:93 | the white space that is trimmed, character by character |
| HeadingIds.Page.Slugify | docs/assets/documentation.js:92-99 | the loop ends on every input; the id is the first candidate not yet seen, and a slug not yet seen is kept bare |
| HeadingIds.Page.DecorateHeadings | docs/assets/documentation.js:101-120 | the ids of all headings of a page are pairwise distinct, each the first free candidate in its turn, and the entries list the headings of depth 2 and 3 |
| HeadingIds.RepeatedHeadings | docs/assets/documentation.js:92-106 | the same heading of two words three times: the words joined by a hyphen, then with `-1` and `-2` |
| HeadingIds.ContentsExact | docs/assets/documentation.js:108-109 | the entries are exactly the headings of depth 2 and 3, with their ids |

## Left out

- The licence script around the evaluator: reading `deny.toml` and the cargo metadata, reporting.
- Byte offsets: texts are sequences of characters; the markers are ASCII, so offsets fall on character boundaries.
- CompletionUpsert.UpsertBlock: reads the startup file only once and assumes that reading succeeds and the text is valid UTF-8; other read errors end the call before anything happens.
- CompletionWrite.Directory.WriteFile: symbolic links, creating the parent directory, errors before the temporary file exists, the Windows removal of the target, and power loss (the source does not sync here) are not modelled.
- ShellQuoting.PosixRoundTrip: paths that are not valid UTF-8 are outside it, because the source converts them lossily before quoting.
- ShellQuoting.PowerShellRoundTripIff: of PowerShell only the verbatim string is modelled.
- The TOML parser and printer are parameters of which only "what was rendered parses back" is assumed.
- ConfigPatchCode.ConfigDir.PatchConfigFile: one patcher at a time, since the temporary name is fixed; read errors of the old file are not distinguished from a refusal to parse it.
- ConfigPatch.StepKeepsInv: rename is taken to be atomic, and a flush of the directory to make its whole current state durable.
- The callers that validate a configuration before patching it, and the reload of the shared configuration (`reload_cfg`): a single assignment.
- ActivityStream.ActivityLog.Insert: SQLite is taken at its word: ids of an AUTOINCREMENT column are never used again, and statements are serialised; columns that no read looks at are one payload.
- ActivityStream.StepKeepsInv: failing reads (retried a tick later), a row that cannot be encoded (which ends the stream) and the transport are left out; the client is one that reconnects to the same URL with the last event id it knows.
- JobServer.StepKeepsInv: tokio's semaphore is taken as fair and first come, first served, and never closed; lock poisoning, aborted processes and the collision of two random job ids are excluded.
- JobRegistryCode.Registry.Insert: a job's number is drawn before the lock is taken; the model draws it in the same step, so numbers are in insertion order.
- The progress and log channels of a job, their event streams, and the views of jobs as JSON.
- HeadingIds.Page.Slugify: `toLowerCase` is a parameter; the anchors and the rest of the page are not modelled.
- Retrieval and ranking, PageRank, chunking, replica sync, migrations, daemon supervision and the MCP server are not part of this model.
