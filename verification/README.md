# Verified model of the Jarvis core protocols

Jarvis is a personal assistant that runs on its owner's machine. This project
models the parts of it that carry state, ordering or arithmetic, and proves what
they promise. Each module stands for one component and keeps its form: what
changes in place is a class or a loop, what is computed is a function, and each
loop is proved equal to a function whose properties are then proved as lemmas.

- `TrustedPath`: the resolver that decides whether an executable may be started
  as root. An iterative walk over a stack of pending components, symbolic links
  and `..`, on any tree, cyclic links included. The reference is a recursive
  walk, and the laws of a path say what that walk means without it: a link is
  its target, `..` undoes a step, dots change nothing. The last two lemmas say
  what the check is for: the verdict depends on nothing other users can change,
  and starting the checked path afterwards reaches the checked file.
- `EnvFile`, `LayaSwitch`: the reader and the writer of one setting in Core's
  environment file, and the commands of the optional classifier Laya built on
  them. The reader follows a line grammar with quotes and continuations
  (`ClosesExactly`, `AssignmentOpens` and `AcceptedExactly` give it without the
  scan), the writer does not; `ReadBack` says exactly when they agree. A command
  succeeds exactly when the host fails none of its operations and is in a state
  the command can start from (`Execute`). Here the code falls
  short of its intent: a file whose last value is continued onto its final,
  empty line swallows the appended setting (`SwallowedAppend`). It then reads as
  not canonical, never as another mode. An edit may also push the file over the
  size that is read. `ExecuteAll` says exactly when a command that reports
  success leaves such a file, and that every later command then fails.
- `Pins`, `Staging`: the strict parser of the wheel lock and the model manifest,
  and the resumable installer of what they pin. The places the parser assigns
  are the ones the installer asks for. As long as neither network nor file
  system fails it, the installer succeeds exactly on a tree that is fit for it,
  and any interrupted run leaves one on which only the rest is missing.
- `PaperLedger`, `SaleLaws`, `RoundTrips`, `Replay`, `History`, `PaperRows`,
  `PaperStore`, `PaperTrader`: the simulated trader. The ledger (first in, first
  out, exact amounts), what its sales take and which round trips they complete,
  its reconstruction from stored rows, what that means for whole histories, the
  tables, and the tick, which writes rows one at a time and may stop at any of
  them, with a clock that may step back. A tick never holds more positions than
  the profile allows (or than it found), buys only with the history read and no
  pause, considers its candidates in turn, and fails exactly when the database
  left a statement unanswered or its rows are dated ahead.
- `LateWrites`, `MintReplay`, `CarriedLots`, `LateRuns`, `LateCosts`: statements
  of an abandoned tick that land at any later time. `LateWrites`: there is one
  trip per mint at every time exactly when every purchase lands *timely*, that is,
  not stamped before the close of a stored trip of its mint; then the rows
  replay, and ticks go on. Here the code falls short of what its unique slot is
  for: an untimely purchase is stored too, and the ledger may then no longer
  replay (`LateOpenSpoilsReplay`). The other modules say exactly when.
  `MintReplay`: over every run of landings whatsoever, the rows replay exactly
  when those of each mint do, on nothing but its own lots. `CarriedLots`,
  `LateRuns`: with one untimely purchase, the trips of its mint that were opened
  *after* its stamp and sold before it landed decide, once and for all times
  after: its lot is carried through their sales, first in, first out, and each
  must cost what its own row says. A purchase stamped inside a sold trip, with
  none opened after it, is untimely and does no harm. Trips that agree one at a time
  need not agree together (`EachAgreesAllDoNot`): what a partial sale leaves is
  rounded. `LateCosts`: the stored total of a cost row is exactly what landed
  when every charge finds the total it had read, otherwise at some time too
  small, and never too large.
- `Budget`, `BudgetGate`, `BudgetRuns`: admission of monthly spend, and the
  two-sided protocol around it: memory admits, durable rows survive crashes, and
  statements can take effect after their callers gave up. `BudgetRuns` shows
  that both roundings of the gate are needed, and that amounts beyond the signed
  database column can be lost. In the other direction, no lost caller pins budget:
  a hold is swept at its deadline, a restored one less than two seconds later
  (`NothingIsPinned`).
- `RateLimiter`, `PasswordBackoff`: the bounded fixed-window counters, proved
  against counters without any bound, and the spacing of password guesses by any
  number of devices that share one table.
- `AgentProfile`, `ProfileGrammar`: the front-matter parser of agent profiles
  against a renderer, and against a grammar of the whole text.
- `Portfolio`: the validation of one broker read, and its indifference to order.
- `Sorting`, `Pieces`, `Text`, `Shared`, `Wrappers`: stable sorting, splitting
  and joining, the text functions the parsers use, common types and bounds, and
  results.

The documentation of the limiter speaks of fixed windows only. The bound of
`AtMostTwiceTheLimit`, 2·max - 1 calls in any span as long as the window, is
sharp (`TwiceTheLimitIsReached`).

## Model

| member | source | states |
|---|---|---|
| TrustedPath.Resolve | crates/admin/src/ai_accounts.rs:785-851 | the resolver answers what the recursive walk of the whole path answers, refusals included |
| TrustedPath.Walk | crates/admin/src/ai_accounts.rs:808-850 | the loop over the pending stack answers what the recursive walk of the same components answers, and ends on every tree |
| TrustedPath.PushComponents | crates/admin/src/ai_accounts.rs:791-802 | the stack yields the path's components in order, then what was pending |
| TrustedPath.ValidateRootExecutable | crates/admin/src/ai_accounts.rs:763-771 | the walk for root with no link allowed |
| TrustedPath.ValidateSystemExecutable | crates/admin/src/ai_accounts.rs:774-783 | the walk for root with the system's link budget |
| TrustedPath.OpenStep | crates/admin/src/ai_accounts.rs:812-849 | reading the first component in place and then the rest is reading the whole list |
| TrustedPath.EnterAllAppend | crates/admin/src/ai_accounts.rs:812-849 | walking two lists one after the other is walking their concatenation |
| TrustedPath.LinkIsItsTarget | crates/admin/src/ai_accounts.rs:785-851 | below trusted directories without links, a path through an owned link is the path with the link's target in its place, from the root or from the link's directory, at the cost of one link |
| TrustedPath.UpUndoesDown | crates/admin/src/ai_accounts.rs:785-851 | a step into a trusted directory and `..` after it can be left out of a longer path |
| TrustedPath.RootIsItsParent | crates/admin/src/ai_accounts.rs:785-851 | `..` at the root can be left out of a longer path |
| TrustedPath.UpIsNoFile | crates/admin/src/ai_accounts.rs:785-851 | a path ending in `..` is no executable |
| TrustedPath.NameIsItself | crates/admin/src/ai_accounts.rs:785-851 | a name that is no link stands for itself; one that is missing or no trusted directory on the way is refused |
| TrustedPath.DotsDoNotMatter | crates/admin/src/ai_accounts.rs:785-851 | `.` can be left out anywhere after the first component |
| TrustedPath.ModeBits | crates/admin/src/ai_accounts.rs:835-848 | trusted is what neither its group nor others can write; executable has one of the three execute bits |
| TrustedPath.CheckedIsTrusted | crates/admin/src/ai_accounts.rs:785-851 | an accepted path yields a trusted executable file whose ancestors are all trusted directories and none a link |
| TrustedPath.HopBudgetOnlyRefuses | crates/admin/src/ai_accounts.rs:823-830 | a larger link budget changes nothing but refusals for too many links |
| TrustedPath.OpenSpare | crates/admin/src/ai_accounts.rs:823-830 | extra links left over do not change how a walk ends |
| TrustedPath.StrictCheck | crates/admin/src/ai_accounts.rs:760-771 | with no link allowed and no parent components, a path is accepted exactly when it is itself a trusted executable below trusted directories, and is then the answer |
| TrustedPath.VerdictIsTamperProof | crates/admin/src/ai_accounts.rs:785-851 | the verdict and the answer stay the same whatever users other than the owner change |
| TrustedPath.ExecutionReachesTheCheckedFile | crates/admin/src/ai_accounts.rs:763-783 | a later walk of the same path without any check reaches the file that was checked |
| EnvFile.ScanQuote | crates/admin/src/laya.rs:735-788 | whether a quoted value is still open after the rest of a line: closed exactly when some byte is the quote, for double quotes one after an even run of backslashes |
| EnvFile.ClosesExactly | crates/admin/src/laya.rs:735-788 | the scan of a quoted value agrees with that condition, for both quotes |
| EnvFile.OddRun | crates/admin/src/laya.rs:735-788 | a byte is escaped exactly when the run of backslashes before it is odd |
| EnvFile.AssignmentOpens | crates/admin/src/laya.rs:735-788 | what an assignment line leaves open, by its first byte after the equals sign and its last |
| EnvFile.LineGoesOn | crates/admin/src/laya.rs:735-788 | a line inside a value ends it, or leaves it open, by its own quotes and last byte |
| EnvFile.ScanLine | crates/admin/src/laya.rs:735-788 | what is open after one physical line |
| EnvFile.AssignmentStarts | crates/admin/src/laya.rs:735-788 | the start flag of every line by the grammar, or nothing when the file ends inside a value |
| EnvFile.ReadMode | crates/admin/src/laya.rs:793-822 | the mode the grammar's lines give, or the refusal |
| EnvFile.AcceptedExactly | crates/admin/src/laya.rs:793-822 | a file is read as a mode exactly when it ends outside a value and every line that mentions the key is the one canonical line, at the start of an assignment; without one it is off |
| EnvFile.Spelling | crates/admin/src/laya.rs:793-822 | the key, the spelling of the three modes and the white space, as bytes |
| EnvFile.CopyLines | crates/admin/src/laya.rs:824-847 | the copy loop writes the lines with every key line replaced |
| EnvFile.WriteMode | crates/admin/src/laya.rs:824-847 | the edited file, byte for byte |
| EnvFile.ReplacedReads | crates/admin/src/laya.rs:793-847 | replacing the accepted key line keeps every state of the grammar and reads as the new mode |
| EnvFile.ReadBack | crates/admin/src/laya.rs:793-847 | editing an accepted file reads back as the new mode exactly when an appended line would start an assignment; otherwise as not canonical |
| EnvFile.OffReadsBack | crates/admin/src/laya.rs:793-847 | switching off an accepted file that is not off always reads back |
| EnvFile.SwallowedAppend | crates/admin/src/laya.rs:735-847 | a file on which the appended line is swallowed |
| EnvFile.EditsOverwrite | crates/admin/src/laya.rs:824-847 | a second edit overwrites the first, for every file |
| EnvFile.EditIsUndone | crates/admin/src/laya.rs:824-847 | writing the mode that was read restores a file that had a line for it |
| EnvFile.EditKeepsTheRest | crates/admin/src/laya.rs:824-847 | no other line, and no other line's start flag, changes |
| EnvFile.EditSize | crates/admin/src/laya.rs:824-847 | the size of an edited file, to the byte: the two names differ in length, or a line and perhaps a newline is appended |
| EnvFile.OffShrinks | crates/admin/src/laya.rs:824-847 | switching off a file that says otherwise makes it smaller |
| LayaSwitch.Host.CurrentMode | crates/admin/src/laya.rs:849-853 | the mode of the file, or why it cannot be read; it fails only when the file is not usable or the read fails |
| LayaSwitch.Host.SetMode | crates/admin/src/laya.rs:857-892 | every outcome with its effects in order; success exactly when the file is usable and no operation fails; a failed restart restores the original bytes for shadow and primary and is never undone for off |
| LayaSwitch.Host.Switch | crates/admin/src/laya.rs:868-891 | which results keep the edited file, and which effects led there |
| LayaSwitch.WritesAreFollowedByRestarts | crates/admin/src/laya.rs:868-891 | every write of the file is followed by a restart of Core at once, and undone only after one that failed |
| LayaSwitch.Host.SetModeChecked | crates/admin/src/laya.rs:272-286 | success exactly when the file is usable, the mode is off or the socket enabled, and no operation fails; shadow and primary come after a healthy probe |
| LayaSwitch.Host.EnableLaya | crates/admin/src/laya.rs:240-261 | success exactly when Laya is installed, the file takes the edit it needs and no operation fails; it leaves the socket enabled, off turned to shadow and any other mode kept; a failed start or probe stops the units again |
| LayaSwitch.Host.AtLeastShadow | crates/admin/src/laya.rs:253-260 | off becomes shadow, any other mode is kept; success exactly when the file takes the edit it needs and no operation fails |
| LayaSwitch.Host.DisableLaya | crates/admin/src/laya.rs:263-270 | success exactly when the file is usable and no operation fails, with Core off and the socket disabled; the units are stopped in any case |
| LayaSwitch.Host.InstallLaya | crates/admin/src/laya.rs:214-238 | success leaves Laya installed, the socket enabled, off turned to shadow and any other mode kept; it fails only when an operation does or the file does not take the edit |
| LayaSwitch.Host.Execute | crates/admin/src/laya.rs:183-212 | every command succeeds exactly when no operation fails and the host is in a state it can start from; it then leaves Core off or the socket enabled; every switch is to the mode the command asks for, to shadow or primary only after a healthy probe of the same command; audited first and last |
| LayaSwitch.Host.ExecuteAll | crates/admin/src/laya.rs:183-212 | over any sequence of commands, a file that cannot be read any more stays and all later commands fail; a command that reports success leaves one exactly when it had to write shadow or primary and the file would swallow the line or outgrow the size that is read |
| Pins.WheelArtifacts | crates/admin/src/laya.rs:356-425 | the automaton accepts what the grammar accepts, with its artifacts, and never finds a hash without a source |
| Pins.LockIsItsBlocks | crates/admin/src/laya.rs:354-425 | a lock is accepted exactly when it is a list of gap lines and three-line blocks with at least one block and different places; one artifact a block, in order |
| Pins.WheelNameIs | crates/admin/src/laya.rs:354-425 | the file name of a wheel is what follows the last slash of its address, with plus signs for their escapes |
| Pins.BlockPins | crates/admin/src/laya.rs:356-425 | a block pins the address, size and digest that its lines spell out, and its wheel goes below the wheels directory under that name |
| Pins.ModelArtifacts | crates/admin/src/laya.rs:427-458 | a manifest is accepted exactly when it is not empty and every line names a safe file of its own; one artifact a line, in order |
| Pins.ModelLinePins | crates/admin/src/laya.rs:428-458 | a manifest line pins its digest for its path, fetched from the pinned revision |
| Pins.ModelLineIs | crates/admin/src/laya.rs:428-458 | and every accepted line is of that form |
| Pins.ModelsApart | crates/admin/src/laya.rs:447-454 | two model files share a place only when their paths are equal |
| Pins.WheelsAreVetted | crates/admin/src/laya.rs:347-425 | every accepted wheel comes from an allowed source, with a digest and a bounded, exact size, and goes to a plain file name below the wheels directory |
| Pins.ModelsAreVetted | crates/admin/src/laya.rs:427-458 | every accepted model file comes from the pinned revision and goes below its directory by plain names, none of them empty or a dot entry |
| Pins.PinnedArtifacts | crates/admin/src/laya.rs:341-345 | wheels then models, all vetted, in different places and none in that of a manifest, as staging requires |
| Staging.Stage.StageArtifacts | crates/admin/src/laya.rs:463-516 | wherever it stops, only verified bytes were placed, no verified file was lost and only missing artifacts were fetched; on success all are there, nothing unexpected is, the manifests are written and the count is that of the missing ones; while network and file system fail nothing it succeeds exactly when the tree was fit |
| Staging.Stage.VerifyFile | crates/admin/src/laya.rs:572-610 | reading a file piece by piece accepts it exactly when size bound, exact size and digest are met |
| Staging.Stage.CheckTree | crates/admin/src/laya.rs:634-657 | the recursive check passes exactly when everything below is expected, controlled and a file or directory |
| Staging.Stage.IsStaged | crates/admin/src/laya.rs:558-610 | whether a verified file is there; anything unsafe refuses, and nothing else does |
| Staging.Stage.OwnedDirectory | crates/admin/src/laya.rs:614-632 | a controlled directory is there afterwards, a new one with the fixed permissions; it fails only on one that is not controlled or when making it fails |
| Staging.Stage.ObtainAll | crates/admin/src/laya.rs:495-508 | the loop fetches exactly what is missing, in order, and stops only for a directory in the place of a file or when something fails |
| Staging.NothingVerifiedIsLost | crates/admin/src/laya.rs:495-508 | a file that was verified is left as it is by any partial run |
| Staging.RerunFetchesTheRemainder | crates/admin/src/laya.rs:460-508 | after a run cut anywhere, a rerun misses only artifacts that were missing and are not placed yet |
| Staging.ChildrenDecide | crates/admin/src/laya.rs:634-657 | a tree passes exactly when each child passes on its own |
| Staging.DirectoriesExactly | crates/admin/src/laya.rs:465-476 | the layout has a directory exactly at the root, for wheels and models, and above every artifact |
| Staging.ModeBits | crates/admin/src/laya.rs:558-632 | controlled is what only its owner can write; new files and directories are, and everybody may read them |
| PaperLedger.Ledger.Open | crates/onchain/src/paper.rs:248-256 | a buy appends its lot, or nothing changes |
| PaperLedger.Ledger.Close | crates/onchain/src/paper.rs:269-348 | the sale on a copy is the ledger's value-level sale, or nothing changes |
| PaperLedger.Ledger.ConsumeLots | crates/onchain/src/paper.rs:291-335 | the loop over the copied lots is the recursive first-in first-out sale |
| PaperLedger.Ledger.TokensHeld | crates/onchain/src/paper.rs:282-287 | the tokens of one mint in open lots |
| PaperLedger.Ledger.RecordFailedTx | crates/onchain/src/paper.rs:351-354 | a fee that is not negative is added, nothing else changes |
| PaperLedger.Ledger.RecordAiCost | crates/onchain/src/paper.rs:358-361 | a cost that is not negative is added, nothing else changes |
| PaperLedger.ConsumeConserves | crates/onchain/src/paper.rs:291-335 | a sale takes exactly its tokens, leaves other mints alone, and no cost is lost between what left and what stays |
| PaperLedger.CloseConserves | crates/onchain/src/paper.rs:269-348 | an accepted sale's net is proceeds less fees less the cost that left; the round trip completes exactly when the mint is sold out |
| PaperLedger.EveryHistoryBalances | crates/onchain/src/paper.rs:269-361 | over any sequence of entries, everything paid in equals what is still in lots plus what results took out |
| SaleLaws.RoundsToNearest | crates/onchain/src/paper.rs:306-313 | rounding gives the nearest multiple of 10^-12, the even one of two |
| SaleLaws.ShareIsProRata | crates/onchain/src/paper.rs:302-318 | a whole lot takes its whole cost, a part its rounded share of it and never more |
| SaleLaws.FirstInFirstOut | crates/onchain/src/paper.rs:291-335 | a sale takes the older lots of the mint at full cost, the next one's share, and leaves everything else as it is |
| SaleLaws.EverySaleSplits | crates/onchain/src/paper.rs:291-335 | every sale of what is held is one of these |
| SaleLaws.EntryAcceptedExactly | crates/onchain/src/paper.rs:248-287 | after any accepted history an entry is refused exactly for its amounts, a stamp before the last entry, or more tokens than its mint has left, in this order |
| RoundTrips.SaleOfCost | crates/onchain/src/paper.rs:291-335 | the cost a sale takes leaves the lots of its mint, and the trip is as old as the first of them |
| RoundTrips.HistoryCarries | crates/onchain/src/paper.rs:269-348 | after any accepted history the ledger holds, for each mint, the trip the history tells |
| RoundTrips.SaleCompletesItsTrip | crates/onchain/src/paper.rs:319-345 | a sale completes a round trip exactly when it sells the last token; the trip counts from the first buy since the mint was last sold out, with all the money it moved as its result |
| Replay.CollectEvents | jarvis-api/src/memecoin.rs:276-282 | the events of all rows |
| Replay.Feed | jarvis-api/src/memecoin.rs:285-301 | one event changes the ledger as its value-level replay says, and a stored result that differs is refused |
| Replay.FeedCosts | jarvis-api/src/memecoin.rs:302-307 | the costs are charged one after the other, and the first refusal stays |
| Replay.Rebuild | jarvis-api/src/memecoin.rs:275-309 | the rebuilt ledger, or the first refusal, of the sorted history |
| History.TimelineIsChronicle | jarvis-api/src/memecoin.rs:275-288 | with one open trip per mint the sort puts every close after its open and before the next open of its mint |
| History.PlayPrefix | jarvis-api/src/memecoin.rs:284-301 | every prefix of such a history replays exactly when its events check, to a ledger that holds what is open by then and has completed what closed |
| History.ReplaysExactlyWhenRowsCheck | jarvis-api/src/memecoin.rs:275-309 | such a history replays exactly when every row's amounts and stored result check; the ledger then holds every open trip, every stored result in order and the costs in full |
| History.ReplayIgnoresRowOrder | jarvis-api/src/memecoin.rs:275-309 | replay does not depend on the order of its rows, errors included |
| History.VersionsReplayOnTheirOwn | jarvis-api/src/memecoin.rs:421-443 | one strategy version of a replayable history replays on its own, and results and costs of the versions add up to the whole |
| PaperTrader.PaperTask.Stamp | jarvis-api/src/memecoin.rs:483-488 | the clock's time, or the instant after the latest event when that is later |
| PaperTrader.PaperTask.LatestEvent | jarvis-api/src/memecoin.rs:470-479 | the latest of the loaded events |
| PaperTrader.PaperTask.LoadHistory | jarvis-api/src/memecoin.rs:421-443 | the ledger of the stored rows; never a replay error on a recorded state, and an error exactly when the database did not answer |
| PaperTrader.PaperTask.CloseSold | jarvis-api/src/memecoin.rs:564-584 | on success the row is stored closed with proceeds less fees less cost; no other row changes, whatever happens |
| PaperTrader.PaperTask.CountFailure | jarvis-api/src/memecoin.rs:585-611 | on success the fee is charged and the row stored with one more failure, stuck exactly from the cap on; no other row changes |
| PaperTrader.PaperTask.ExitOne | jarvis-api/src/memecoin.rs:538-612 | one exit attempt keeps the rows replayable, changes no other row, makes of its row exactly what was decided, and what the tick holds afterwards is what is stored |
| PaperTrader.PaperTask.Exits | jarvis-api/src/memecoin.rs:536-612 | the exit loop keeps them so wherever it stops; without a database failure every held row that is not stuck was decided on, once |
| PaperTrader.PaperTask.Due | jarvis-api/src/memecoin.rs:617-631 | candidates are due mints of the watchlist, different, least recently observed first, and none is passed over for a later one |
| PaperTrader.PaperTask.Buy | jarvis-api/src/memecoin.rs:691-725 | a filled buy stores exactly its row, stamped last, a failed one its fee, and both keep the rows replayable |
| PaperTrader.PaperTask.EntryOne | jarvis-api/src/memecoin.rs:637-726 | one candidate is observed, decided on, and bought only when no pause is seen right before |
| PaperTrader.PaperTask.Entries | jarvis-api/src/memecoin.rs:614-726 | the entry loop never opens a second trip of a mint and never more than the profile's positions; it goes through the candidates in order and ends early only when the positions are full, a pause is seen or the database fails |
| PaperTrader.PaperTask.Trade | jarvis-api/src/memecoin.rs:614-741 | entries only with the history read and only for due mints of the watchlist not held at the start of the tick |
| PaperTrader.PaperTask.Work | jarvis-api/src/memecoin.rs:490-803 | exits for every position that is held and not given up, before any entry |
| PaperTrader.PaperTask.Begin | jarvis-api/src/memecoin.rs:465-482 | what is held and the latest event are known before anything is stamped |
| PaperTrader.PaperTask.Tick | jarvis-api/src/memecoin.rs:459-803 | wherever a tick stops, the stored rows replay, nothing stored is taken back, new events are stamped after all stored ones, no more positions are open than the profile allows or were open before, and every new row is a decided buy of a mint of the watchlist that was not held; it fails exactly when a statement got no answer or the rows are dated ahead; otherwise every held position was decided on, and every chosen candidate unless the positions were full or a pause came |
| PaperTrader.PaperTask.Run | jarvis-api/src/memecoin.rs:459-803 | so for any number of ticks, the limit on open positions included |
| PaperTrader.PaperTask.RunWithLandings | jarvis-api/src/memecoin.rs:311-397 | so also when, between ticks, statements of abandoned ticks land in time: every tick finds a ledger that replays |
| PaperRows.RecordedRowsReplay | jarvis-api/src/memecoin.rs:275-309 | a recorded state replays for every version and as a whole, and reproduces every stored result |
| PaperRows.ProducedIsTimeline | jarvis-api/src/memecoin.rs:275-288 | replay feeds the events in the order in which they were produced |
| PaperRows.OpenKeepsRecorded | jarvis-api/src/memecoin.rs:702-714 | opening a row for a mint that is not held keeps the state recorded |
| PaperRows.CloseKeepsRecorded | jarvis-api/src/memecoin.rs:568-582 | closing an open row with its computed result keeps the state recorded |
| PaperRows.FailureKeepsRecorded | jarvis-api/src/memecoin.rs:600-610 | counting a failed exit changes no event |
| LateWrites.LandingIsTimely | schema/surreal/0014_memecoin_paper.surql:28-51 | whenever a statement lands, there is still one trip per mint exactly when it does not open a row before the close of an earlier one of its mint |
| LateWrites.PromptIsTimely | jarvis-api/src/memecoin.rs:709-714 | a purchase that lands before any later event is stored is always in time |
| LateWrites.LateWritesReplay | jarvis-api/src/memecoin.rs:381-397 | over any order of landings, one trip per mint holds throughout exactly when every purchase lands in time, and then the rows replay throughout; when they replay without that is the matter of LateRuns |
| LateWrites.LandKeepsRecorded | jarvis-api/src/memecoin.rs:381-397 | a statement that lands in time between two ticks, with a stamp of its own and no position too many, leaves the rows as a tick needs them |
| LateWrites.OverlapReplaysExactly | jarvis-api/src/memecoin.rs:285-301 | a table of just two rows, a sold trip and a purchase of its mint stamped before it that landed after its sale, replays exactly when first in, first out happens to cost the same; otherwise the stored result is contradicted |
| LateWrites.LateOpenSpoilsReplay | jarvis-api/src/memecoin.rs:381-397 | a run of landings after which the rows do not replay |
| MintReplay.SaleOfMint | crates/onchain/src/paper.rs:291-335 | selling one mint is selling from its own lots alone, and leaves the lots of every other mint |
| MintReplay.ReplaysExactlyWhenEveryMintDoes | jarvis-api/src/memecoin.rs:275-309 | rows whose amounts check replay, however their trips overlap, exactly when the rows of every mint do on the lots of that mint; a refusal of the whole is that of some mint |
| CarriedLots.CarryConserves | crates/onchain/src/paper.rs:291-335 | sales that cost what their rows say leave as many tokens, at the same cost, as were carried into them |
| CarriedLots.LateRowReplaysExactly | jarvis-api/src/memecoin.rs:275-309 | one trip per mint and one row under them that is open or was sold last: replays exactly when each trip opened under that row, with its lot carried from sale to sale, costs what its own row says |
| LateRuns.LandedRowsReplayExactly | jarvis-api/src/memecoin.rs:381-397 | over any run of landings, timely or not, the rows replay at every time exactly when those of each mint do |
| LateRuns.OneLateOpenDecides | jarvis-api/src/memecoin.rs:381-397 | over any run with one untimely purchase, the rows replay at every later time, also after that row was sold (stamped after its mint's other closes) and its mint bought again, exactly when the trips opened after its stamp that were sold when it landed agree with its carried lot |
| LateRuns.InsideASoldTripIsHarmless | jarvis-api/src/memecoin.rs:381-397 | a late purchase does no harm, ever, when all trips of its mint were opened before its stamp |
| LateRuns.EachAgreesAllDoNot | crates/onchain/src/paper.rs:291-335 | two trips that each replay with a late row, and not all three together |
| LateCosts.ChargesCountExactly | jarvis-api/src/memecoin/store.rs:502-544 | over any landings of charges a stored total is never more than what landed, and is exactly that throughout if and only if each charge finds the total it had read |
| LateCosts.OneAtATimeCounts | jarvis-api/src/memecoin/store.rs:500-501 | charges sent one at a time, each landing before the next is sent or never, lose nothing |
| LateCosts.LateChargeUndoes | jarvis-api/src/memecoin/store.rs:502-544 | a run in which a charge that lands late undoes another |
| PaperStore.PaperDatabase.LoadHeld | jarvis-api/src/memecoin/store.rs:464-474 | all rows without a close |
| PaperStore.PaperDatabase.LatestClosed | jarvis-api/src/memecoin/store.rs:478-499 | no stored close is later than that of the returned row |
| PaperStore.PaperDatabase.OpenTrip | jarvis-api/src/memecoin/store.rs:310-331 | the row is added or nothing changes, a taken id or a held mint is refused, and an error may hide that it was added |
| PaperStore.PaperDatabase.CloseTrip | jarvis-api/src/memecoin/store.rs:335-358 | the one open row with the id is closed, or nothing changes |
| PaperStore.PaperDatabase.RecordExitFailure | jarvis-api/src/memecoin/store.rs:362-380 | an open row's counter rises by one and it is stuck from the cap on; nothing else changes |
| PaperStore.PaperDatabase.AddCost | jarvis-api/src/memecoin/store.rs:502-544 | one kind's and version's total grows by the charge, and no other, also when no answer comes back but the charge landed |
| PaperStore.PaperDatabase.LandLate | jarvis-api/src/memecoin.rs:381-397 | an abandoned statement that lands in time between two ticks |
| Budget.BudgetBook.TryReserve | crates/usage/src/lib.rs:682-712 | a hold is added exactly when request cap, id and monthly cap allow it |
| Budget.BudgetBook.RestoreHold | crates/usage/src/lib.rs:717-725 | a restored hold is counted in full and at least as long, cap or not |
| Budget.BudgetBook.Readopt | jarvis-api/src/budget_gate.rs:150-155 | all durable holds of a list restored |
| Budget.BudgetBook.SettleHold | crates/usage/src/lib.rs:729-753 | the hold becomes actual spend, or is kept at the larger amount |
| Budget.BudgetBook.CancelHold | crates/usage/src/lib.rs:755-762 | the hold and nothing else is gone |
| Budget.BudgetBook.ExpireHolds | crates/usage/src/lib.rs:765-770 | exactly the lapsed holds are gone, and how many there were |
| Budget.BudgetBook.ReconcileActual | crates/usage/src/lib.rs:772-777 | the amount spent is replaced, the holds stay |
| Budget.BudgetBook.TakeSnapshot | crates/usage/src/lib.rs:779-792 | the totals, what remains below the cap, and the soft limit |
| Budget.AdmissionIsExact | crates/usage/src/lib.rs:682-712 | admitted exactly when the sum stays within the cap, saturation included |
| Budget.HeldUntilTheDeadline | crates/usage/src/lib.rs:682-770 | an admitted amount is held exactly until its deadline: a sweep from then on gives the book as if it had never been reserved |
| Budget.FullBookAdmitsNothing | crates/usage/src/lib.rs:714-716 | above the cap nothing is admitted, at the cap nothing positive |
| Budget.SettleIsExact | crates/usage/src/lib.rs:729-753 | a settle is refused exactly when nothing is held or the total would exceed the cap; it touches no other hold, and what it leaves of its own |
| Budget.NothingNewAboveTheCap | crates/usage/src/lib.rs:714-725 | over every run from a book above its cap, as long as the total has not fallen to the cap nothing new is held and nothing held shrinks |
| Budget.OnlyReleasesBringItDown | crates/usage/src/lib.rs:682-777 | requests, and settles of at least the held amount, never bring the total down to the cap |
| Budget.SettleAndTheCap | crates/usage/src/lib.rs:729-753 | settling keeps a book within its cap exactly when it is not refused, and at most the held amount is never refused |
| Budget.EveryRunStaysWithinTheCap | jarvis-api/src/budget_gate.rs:99-136 | over every sequence of reserves, settles of at most the held amount, cancels, sweeps and reconciled amounts that fit, actual plus reserved stays within the cap |
| Budget.RestoreCountsAll | jarvis-api/src/budget_gate.rs:140-157 | after startup each durable hold is counted with at least its cents and its time |
| BudgetGate.SecondsRoundUp | jarvis-api/src/budget_gate.rs:42-47 | rounded up, a stored lifetime covers the asked one by less than a second; not rounded, only one of whole seconds would |
| BudgetGate.StoredCentsComeBack | crates/usage/src/surreal.rs:323-324 | the signed column gives an amount back exactly below 2^63, and zero otherwise |
| BudgetGate.RestoredHoldOutlivesItsRow | jarvis-api/src/budget_gate.rs:56-67 | a restored hold lapses after its row, by less than two seconds; without the extra second it could lapse before, and exactly when |
| BudgetGate.StepKeepsInv | jarvis-api/src/budget_gate.rs:99-170 | every atomic effect keeps the protocol's invariant |
| BudgetGate.PromiseKept | jarvis-api/src/budget_gate.rs:99-170 | no step uncounts an outstanding promise |
| BudgetGate.RunKeepsInv | jarvis-api/src/budget_gate.rs:99-170 | the invariant holds in every reachable state |
| BudgetGate.AcknowledgedIsCounted | jarvis-api/src/budget_gate.rs:99-170 | over every interleaving with crashes, restarts and late writes, an acknowledged reservation that is neither settled nor cancelled nor past its deadline is held while Core serves, for all its cents as far as the signed column holds them |
| BudgetGate.StepStaysWithin | jarvis-api/src/budget_gate.rs:99-170 | no step leaves a hold for more cents, or for longer, than it is entitled to by the request or by the row it was restored from |
| BudgetGate.RunStaysWithin | jarvis-api/src/budget_gate.rs:99-170 | so in every reachable state |
| BudgetGate.NothingIsPinned | jarvis-api/src/budget_gate.rs:99-170 | over every interleaving, right after a sweep the serving book holds only what was asked for and not settled, cancelled or given up, for no more cents and before its deadline, or what the last start found, no later than two seconds after its row's expiry and as much as the start took |
| BudgetRuns.LostInTheColumn | crates/usage/src/surreal.rs:323-324 | for every larger amount there is a run that ends with the reservation acknowledged, before its deadline, and held for no cents |
| BudgetRuns.CountedInFullExactly | jarvis-api/src/budget_gate.rs:99-170 | so all runs count an amount in full exactly when the signed column can hold it |
| BudgetRuns.LostWithoutRoundingUp | jarvis-api/src/budget_gate.rs:42-47 | without rounding the lifetime up, a run loses an acknowledged reservation at a restart |
| BudgetRuns.LostWithoutTheSpareSecond | jarvis-api/src/budget_gate.rs:56-67 | without the extra second at restore, a run loses one at the next sweep |
| BudgetRuns.BothRoundingsAreNeeded | jarvis-api/src/budget_gate.rs:42-67 | all runs hold every outstanding reservation exactly when the gate rounds both ways |
| RateLimiter.Windows.MakeRoom | jarvis-api/src/rate_limit.rs:102-125 | expired windows go first, then the oldest, and nothing unless the table is full |
| RateLimiter.Windows.Count | jarvis-api/src/rate_limit.rs:95-125 | the answer is that of the unbounded counter; a live window is lost only from a table full of live windows, and then one of the oldest |
| RateLimiter.Windows.Check | jarvis-api/src/rate_limit.rs:134-141 | admitted exactly when the count is within the limit |
| RateLimiter.Windows.InWindow | jarvis-api/src/rate_limit.rs:151-159 | the unbounded counter's current count |
| RateLimiter.Windows.Clear | jarvis-api/src/rate_limit.rs:161-163 | only that key is forgotten |
| RateLimiter.Windows.Serve | jarvis-api/src/rate_limit.rs:102-136 | over any sequence of checks on the bounded table, at most 2·max - 1 calls of a key that is not evicted meanwhile are answered yes in any span as long as the window; and evicted is only a key that as many others as the table holds called alongside within one such span |
| RateLimiter.TimesAreOrdered | jarvis-api/src/rate_limit.rs:102-125 | the calls the table recorded for a key are in order and not later than now |
| RateLimiter.OthersDoNotMatter | jarvis-api/src/rate_limit.rs:102-125 | a caller's count depends on its own calls only |
| RateLimiter.CountsSinceOpening | jarvis-api/src/rate_limit.rs:116-125 | the count is the number of calls since the window opened |
| RateLimiter.AtMostTwiceTheLimit | jarvis-api/src/rate_limit.rs:134-136 | no span as long as the window admits more than 2·max - 1 calls of a key that is not evicted |
| RateLimiter.SaturationAdmitsAll | jarvis-api/src/rate_limit.rs:120-136 | at the largest 32-bit limit the saturating count refuses nothing, so no such bound holds |
| RateLimiter.TwiceTheLimitIsReached | jarvis-api/src/rate_limit.rs:134-136 | and for every limit some caller gets that many through |
| RateLimiter.EvictionNeedsACrowd | jarvis-api/src/rate_limit.rs:102-115 | an eviction shows that as many other keys as the table holds called within a window's length |
| RateLimiter.FewCallersAreNoCrowd | jarvis-api/src/rate_limit.rs:102-115 | with fewer other callers than the table holds that never happens |
| RateLimiter.ServeTheWorst | jarvis-api/src/rate_limit.rs:134-136 | the table itself answers yes that often to a caller that is alone |
| PasswordBackoff.PasswordFailures.Backoff | jarvis-api/src/rate_limit.rs:168-181 | the remaining wait, if there is one |
| PasswordBackoff.PasswordFailures.NoteFailure | jarvis-api/src/rate_limit.rs:185-197 | the count rises by one, or restarts after a day without failures |
| PasswordBackoff.PasswordFailures.Clear | jarvis-api/src/rate_limit.rs:200-205 | only that key is forgotten |
| PasswordBackoff.DelayIsMonotone | jarvis-api/src/rate_limit.rs:86-93 | more failures never wait less, and never more than the policy's maximum |
| PasswordBackoff.DelayDoubles | jarvis-api/src/rate_limit.rs:73-93 | each further failure doubles the wait until a cap |
| PasswordBackoff.DelayLevelsOff | jarvis-api/src/rate_limit.rs:86-93 | from the 17th failure beyond the free ones on the wait no longer grows |
| PasswordBackoff.WaitingUnblocks | jarvis-api/src/rate_limit.rs:168-181 | waiting the returned time out unblocks, and nothing shorter does |
| PasswordBackoff.CountOfRun | jarvis-api/src/rate_limit.rs:185-197 | in a run without clears and long pauses every failure is counted |
| PasswordBackoff.GuessesAreSpaced | jarvis-api/src/rate_limit.rs:73-93 | the n-th failure of such a run comes no earlier than the first plus all delays between |
| PasswordBackoff.Handle | jarvis-api/src/rate_limit.rs:303-329 | one guess at login or pairing: refused while its key must wait; a wrong one counts for the device and the account, a right one clears both |
| PasswordBackoff.ServeGuesses | jarvis-api/src/rate_limit.rs:270-300 | over any guesses by any devices and at pairing, a guess is refused exactly as the wrong guesses that count for its key demand (a device its own, pairing everybody's), and those a device gets checked are spaced by the delays |
| AgentProfile.ParseFrontMatter | jarvis-core/src/lib.rs:386-443 | the loop reads what the line-by-line reading says |
| AgentProfile.ParseMarkdown | jarvis-core/src/lib.rs:307-338 | the parsed profile, or the refusal |
| AgentProfile.ValidateDefinition | jarvis-core/src/lib.rs:575-612 | the first complaint about a definition, its repeated capabilities found by a loop over a set |
| AgentProfile.FirstMarker | jarvis-core/src/lib.rs:311-313 | the closing marker found is the one after the front matter, whatever the instructions contain |
| AgentProfile.CapabilitiesReadBack | jarvis-core/src/lib.rs:461-475 | the joined list splits into the capabilities it was made of, in order |
| AgentProfile.ProfileReadsBack | jarvis-core/src/lib.rs:304-338 | rendering and parsing any valid definition with single-line trimmed fields gives it back |
| AgentProfile.ParsedIsRenderable | jarvis-core/src/lib.rs:307-338 | whatever is parsed is valid and has such fields |
| AgentProfile.ParserRange | jarvis-core/src/lib.rs:307-338 | so these are exactly the definitions parsing can produce |
| ProfileGrammar.FrontMatterExactly | jarvis-core/src/lib.rs:386-443 | front matter is accepted exactly when every line may follow those before it (a new key with a value, or an item of the open list) and version 1 is said; the values are what the lines say, and all of it |
| ProfileGrammar.ProfileExactly | jarvis-core/src/lib.rs:307-338 | a text is parsed to a definition exactly when it is the opening line, front matter, the first closing line and instructions that together describe that definition, and it is valid |
| Portfolio.MapPortfolio | jarvis-api/src/ibkr.rs:163-219 | the loop gives the portfolio of the list, or its first refusal |
| Portfolio.SortingShowsRepeats | jarvis-api/src/ibkr.rs:204-207 | after sorting, equal neighbours show exactly whether a contract repeats |
| Portfolio.AcceptedExactly | jarvis-api/src/ibkr.rs:156-207 | accepted exactly when the totals and all positions are valid, at most the maximum is open and their contracts differ |
| Portfolio.HoldingIsThePosition | jarvis-api/src/ibkr.rs:121-153 | what a kept holding shows: contract, symbol, name, the average price before the average cost, and each amount from its own field |
| Portfolio.AcceptedReadShows | jarvis-api/src/ibkr.rs:163-219 | an accepted read shows the broker's own totals, exactly the open positions in the base currency, by falling market value, and as skips only open positions in other currencies |
| Portfolio.OrderNeverMatters | jarvis-api/src/ibkr.rs:163-219 | every rearrangement is mapped to the same portfolio, or refused too |
| Portfolio.NothingGoesMissing | jarvis-api/src/ibkr.rs:181-219 | kept plus skipped is the number of open positions; the kept ones are sorted and have different contracts |
| Portfolio.SmallestAreReported | jarvis-api/src/ibkr.rs:208-218 | the skips reported are the smallest of all, in order |

## Left out

- Decimal amounts: exact reals stand for 96-bit decimals; overflow and the
  28-digit rounding of quotients are not modelled, the rounding of cost shares
  to twelve places is.
- Budget.BudgetBook.ReservedCents: the sum of all holds is a mathematical sum; the original's unsigned 64-bit sum
  would overflow far beyond any real cap.
- BudgetGate.AcknowledgedIsCounted: from 2^63 cents on only the hold and its deadline are promised, not the cents,
  because the signed column does not keep them (`BudgetRuns.CountedInFullExactly`).
- PaperTrader.PaperTask.Tick: a write that was abandoned takes effect before the tick ends, between two ticks
  (`RunWithLandings`) or not at all; one that lands in the middle of a later tick is modelled on the stored rows
  alone, in `LateWrites` and `LateRuns`.
- PaperTrader.PaperTask.Run: no statement lands between its ticks; `RunWithLandings` is the run in which they do.
- PaperTrader.PaperTask.RunWithLandings: landings between ticks are timely, have stamps of their own and open no
  eleventh position; late charges are modelled on one cost row alone, in `LateCosts`.
- PaperStore.PaperDatabase.OpenTrip: asks for a stamp later than every stored event and a free position, as the tick
  sees to both; earlier stamps are those of `LandLate`.
- PaperStore.PaperDatabase.CloseTrip: asks for a stamp later than every stored event, as the tick's are; earlier ones
  are those of `LandLate`.
- Staging.Stage.IsStaged: a file that cannot be read counts as not staged in the source, and is downloaded again; in
  the model every file can be read.
- Markets, strategies, fill simulation and gate arithmetic of the trader: any
  outcome is allowed at every point where the tick asks for one.
- Candidate, gate-snapshot and control rows of the trader, and the limit on how
  many rows one read returns.
- Trailing slashes and repeated separators of paths: a path is its components.
- One window length per table: in the source each call brings its own.
- SHA-256 is any function of the bytes; directory synchronisation, the private
  work directory, leftovers of earlier ones, the check of the cache directory
  above the staging tree and free-space checks of the installer.
- Provisioning, preflight checks and unit queries of the Laya commands: each may
  succeed or fail at any time.
- Pins.WheelArtifacts: which of several complaints a malformed lock or manifest gets is not stated, only that it is
  refused.
- systemd's own grammar of environment files: the reader's grammar is the one
  that is proved against.
- Password checks that run at the same time: attempts are taken one by one, as
  check and count are separate calls in the source too.
- AgentProfile.ProfileReadsBack: tool and denied-action lists are empty, as the front matter cannot express them.
- Agent bundles (file, hash and ownership checks), capability intersection and
  agent runs: single checks without interplay.
- HTTP routes, sockets, the terminal and web front ends, the model router,
  notification and intent logic, and persona activation.
