# Allgres, modelled and proved in Dafny

Allgres runs an agent platform inside PostgreSQL.  This project models four of
its parts and proves what each of them is for:

- **The parse-tree dump reader** (`src/sql_parser.rs`).  PostgreSQL prints a
  parse tree as text; the reader scans that text for marker substrings and
  reports relations, CTE names, functions, the statement count and whether the
  statement writes.  `DumpTree.dfy` holds the tree and the printer,
  `TokenReader.dfy` the token and string readers, `DumpScan.dfy` the scan,
  `DumpExact.dfy` a walk of the tree that never looks at text and the proof that
  scanning equals walking, `DumpTheorems.dfy` what follows for writes, CTE names
  and under-reporting, `DumpStatements.dfy`, `DumpRelations.dfy` and
  `DumpFunctions.dfy` when statement count, relations and functions are right,
  `DumpReport.dfy` the whole report, `DumpSelects.dfy` and `DumpEntries.dfy` what
  is reported for statements as the parser prints them, written out,
  `DumpPanics.dfy` when reading panics, `DumpAnalyze.dfy` the loops of the source.
- **The runtime worker and its HTTP pool** (`src/runtime_worker.rs`,
  `src/outbound.rs`).  `RuntimeSystem.dfy` is a transition system in which the
  SPI thread, the pool threads, the watchdog, operators and crashes interleave
  in every way; `RuntimeWorker.dfy` has the harvest loop and the claim stage as
  loops over it; `PoolTiming.dfy` is the pool with clocks and `PoolErasure.dfy` shows
  that it is the same pool; `CancelFlags.dfy` the
  cancellation map; `SlicedWait.dfy` the cancellable wait.
- **The web worker's admission state** (`src/web.rs`).  `Windows.dfy` has the
  laws of sliding windows, `RateLimiter.dfy` the request limiter, `Lockout.dfy`
  the failure lockout shared by all connection threads, `Tickets.dfy` the
  single-use tickets.
- **Byte codecs.**  `DollarQuote.dfy` (section 4.1.2.4 of the PostgreSQL
  documentation), `FormCodec.dfy` (section 2.1 of RFC 3986), `HttpFraming.dfy`
  (section 6.3 of RFC 9112) and `Utf8.dfy` (sections 3 and 4 of RFC 3629).

`dafny verify dfyconfig.toml` checks the project.

Conventions:

- In the dump reader and the codecs that work on Rust strings, a byte is a
  `char` with the byte's code, so that markers can be written as literals;
  `Utf8.Valid` says when bytes form a string.  `FormCodec.dfy` computes with
  bytes and has them as numbers.
- A call that may panic returns `Checked`: a value, or `Panic`.
- Clock readings, nonces and the answers of the database, the network and the
  inner transport are arguments or steps of a transition system.  Milliseconds
  are the unit of time where the source has a constant.
- Where the source loops, the model has a method with that loop, proved equal to
  a recursive function; the laws are proved of the function.
- What the scan and the walk share (words of markers, the shape of an entry), and
  tables that two sides of a law share (digits, signs, delimiters, constants), are
  fixed by lemmas that write them out.

What the code does differently from what its comments say, each with its exact
condition:

- A report on a dump can be wrong in five ways, and in no other:
  `DumpReport.ReportExactlyWhen` is an if-and-only-if for the whole report.
- `read_token` ends a token at CR and FF, which `outToken` does not escape, so a
  name that holds one is cut short: `TokenReader.TokenRoundTrip`.
- `outToken` escapes a double quote only as the first byte, so `quoted_strings`
  splits a name with a later one (`TokenReader.NameListRoundTrip`) and takes gaps
  for names from there on: `DumpFunctions.FunctionsExactlyWhen`.
- Escaping puts a backslash in front of a brace but leaves the brace, so
  `SELECT '{INSERTSTMT'` is reported as a write.  The error is on the safe side;
  `DumpTheorems.WritesExactly` and `DumpSelects.StringWritesExactlyWhen` say
  exactly when it happens.
- A schema whose name ends in `:relname` hides the relation's own name, and one
  whose name ends in `{RANGEVAR` adds an unqualified relation that is not there
  (`DumpSelects.PhantomRelation`): `DumpRelations.RelationsExactlyWhen`.  No string
  literal is ever mistaken for a table (`DumpTheorems.PlainTreesAreExact`).
- A backslash before a byte above 0x7F makes the readers panic on a slice inside
  a character, where they read it and only there (`DumpAnalyze.AnalyzeDump`); a
  printed tree never holds one (`DumpPanics.PrintedTreesAreClear`).
- If two calls in progress shared an id, the end of one would take the other out
  of the cancellation map (`CancelFlags.OverlapLosesCall`):
  `CancelFlags.RightExactlyWhen`.
- A ticket can be swept although its owner presents it in time if two clock
  readings taken before the lock are out of order (`Tickets.LateReaderSweeps`);
  `Tickets.AdmittedExactlyWhen` has the condition, and
  `Tickets.SweepingIsInvisible` shows that order suffices.
- The last call of a sliced wait gets the original timeout again, so the wait
  outlasts its timeout if and only if that call is made and takes time; a cancel
  raised by the deadline ends the wait within a poll interval, and one raised
  later is never noticed (`SlicedWait.Await`, `SlicedWait.SilentPeer`).
- `%+f` decodes, because the radix parser takes a leading plus sign; the decoders
  follow the standard if and only if no percent sign is followed by a plus sign
  and a digit (`FormCodec.HexOnlyExactlyWhen`).

## Model

| member | source | states |
|---|---|---|
| TokenReader.ReadToken | src/sql_parser.rs:61-99 | On every string: the token and consumed length that byte-wise reading gives, or a panic if and only if a backslash within the token stands before a byte above 0x7F. |
| TokenReader.TokenRoundTrip | src/sql_parser.rs:61-99 | A printed token followed by whitespace, a bracket or the end is read back if and only if none of its bytes is CR or FF, and then its whole printed length is consumed; NULL reads as no token and the empty and every other text as a token. |
| TokenReader.TrailingBackslash | src/sql_parser.rs:73-85 | A backslash at the very end is dropped from a token, and kept in a string. |
| TokenReader.LegibleBareword | src/sql_parser.rs:86-88 | The bytes that end a token and that `outToken` does not escape are CR and FF, and no others. |
| TokenReader.Run | src/sql_parser.rs:69-98 | The loop shared by token and string reading, on every string and from every boundary: the unescaped text up to the first unescaped end, or a panic if and only if a backslash it reads stands before a byte above 0x7F. |
| TokenReader.QuotedStrings | src/sql_parser.rs:151-179 | On every string: all quoted strings in order, unescaped, or a panic if and only if a backslash within one of them stands before a byte above 0x7F. |
| TokenReader.NameListRoundTrip | src/sql_parser.rs:145-179 | A printed list of names is read back, in order, if and only if no name has a double quote after its first byte. |
| TokenReader.ReadableInQuotes | src/sql_parser.rs:145-150 | The condition of the name round trip, spelled out: no double quote at any index above zero. |
| DumpScan.BracketBody | src/sql_parser.rs:102-143 | Both bracket loops stop at the bracket that closes the body, skipping escaped bytes and nested brackets of their own kind, or return everything. |
| DumpScan.MarkerMatch | src/sql_parser.rs:200-258 | A marker matches at escaped text exactly where the text itself spells it, and a marker that ends in a space only where the text ends. |
| DumpScan.NextHit | src/sql_parser.rs:203-210 | Searching on from behind a marker misses nothing: markers never overlap themselves, so everything from an index on is the next hit and what follows it. |
| DumpExact.ExtentPrint | src/sql_parser.rs:102-143 | A printed value of any depth, with any escaped text in it, is skipped whole by both bracket scans at every depth. |
| DumpExact.BodyRoundTrip | src/sql_parser.rs:102-143 | `node_body` returns exactly the printed fields of its node and `paren_body` exactly the printed items of its list, whatever follows. |
| DumpExact.Exact | src/sql_parser.rs:195-275 | For each marker and every tree whose texts do not spell it, searching the printed text finds what the walk of the tree finds, in the walk's order. |
| DumpTheorems.AnalyzeIsStructure | src/sql_parser.rs:195-275 | For every tree, list by list: relations, CTE names and functions are the walk's, in pre-order, if no text spells their own markers and their names read back, whatever spells other markers; and if no text spells any marker, the whole report is the walk's. |
| DumpTheorems.PlainTreesAreExact | src/sql_parser.rs:21-25 | On every tree whose tokens hold no ':' or '{' and whose reported names are readable, with string nodes arbitrary: relations, CTE names and functions are the walk's, so no string literal is mistaken for a table. |
| DumpTheorems.WritesExactly | src/sql_parser.rs:254-258 | For every tree, `writes` is reported if and only if the tree has an intoClause node or a data-modifying node at any depth, or some text spells the opening of one. |
| DumpTheorems.DmlFound | src/sql_parser.rs:256-258 | A data-modifying tag is found in printed text if and only if a node has it or a text spells it. |
| DumpTheorems.SearchCovers | src/sql_parser.rs:203-252 | For arbitrary texts each marker finds at least what the walk finds; a relation's name is never lost to a NULL that is not its own. |
| DumpTheorems.NothingUnderReported | src/sql_parser.rs:200-264 | For trees with arbitrary texts: at least as many relations, CTE names, functions and statements as the walk finds, and "select" only with at most one statement. |
| DumpTheorems.CtesExactlyWhen | src/sql_parser.rs:227-237 | The CTE names are exactly the tree's if and only if no token followed by another field ends in ":ctename" and no CTE name holds a CR or FF. |
| DumpStatements.FoundTree | src/sql_parser.rs:200-210 | At every depth: if no text that spells the statement marker is followed by a `:stmt` node within its node, the scan finds the walk's statements; otherwise it finds more. |
| DumpStatements.StatementsExactlyWhen | src/sql_parser.rs:200-264 | For every tree the statement count is never too low, is right if and only if no text that spells the marker is followed by a `:stmt` node within its node, and then the kind is right too. |
| DumpStatements.CountsEveryDump | src/sql_parser.rs:200-264 | On every list of raw statements, whatever their texts: the count is the number of statements, and the kind is "select" if there is one and it is a SELECTSTMT, and "other" otherwise. |
| DumpRelations.RelationNameRead | src/sql_parser.rs:183-187 | The name that `field` reads for a relation is its own as far as it reads back, unless the schema ends in ":relname"; then it is ":relname". |
| DumpRelations.RelationNameExactlyWhen | src/sql_parser.rs:183-187 | What `field` reads is the relation's own name if and only if the schema does not end in ":relname" or the name is ":relname" itself. |
| DumpRelations.RangeVarSite | src/sql_parser.rs:214-223 | One RANGEVAR node is reported right if and only if its schema hides nothing, or the name is ":relname", and what is reported reads back. |
| DumpRelations.TokenSite | src/sql_parser.rs:214-218 | A token is reported as a relation if and only if it ends in "{RANGEVAR" and a name is the first to be found behind it in its node. |
| DumpRelations.RelationsExactlyWhen | src/sql_parser.rs:212-225 | For every tree whose RANGEVAR nodes start with schema and name: the reported relations are the tree's, with schemas and in its order, if and only if every one is named right and no token is taken for one. |
| DumpFunctions.ListReads | src/sql_parser.rs:151-179 | What is read from a printed list of names, as a function of the names alone: every quote after a name's first byte puts the reader on the other side, where gaps are read as strings and names are not. |
| DumpFunctions.NamesExactlyWhen | src/sql_parser.rs:245-250 | What is reported for a list of names is right if and only if its last two names are read as they are, which the quotes in the names decide. |
| DumpFunctions.FunctionsExactlyWhen | src/sql_parser.rs:239-252 | The reported functions are the tree's, with schemas and in its order, if and only if that holds of every list of names. |
| DumpReport.ReportExactlyWhen | src/sql_parser.rs:195-275 | The whole report equals the walk's if and only if no text is taken for a statement, relations and functions are named right and no token is taken for a relation, CTE names are clean, and a text spells a data-modifying node only in a tree that writes. |
| DumpReport.EveryDump | src/sql_parser.rs:195-275 | On every list of raw statements with plain tokens and arbitrary strings: the walk's relations, CTE names and functions, the number of statements, "select" if and only if there is one SELECTSTMT, and the exact condition for writes. |
| DumpReport.UnparseableExactlyWhen | src/sql_parser.rs:196-198 | Only the empty dump is reported as unparseable. |
| DumpEntries.CallReported | src/sql_parser.rs:243-252 | For what the parser returns for a call whose names have no double quote after their first byte: one function, its name the last of the list, its schema the one before it, none if there is none. |
| DumpEntries.QualifiedCallReported | src/sql_parser.rs:243-252 | For two names: schema and name, in that order. |
| DumpEntries.PlainCallReported | src/sql_parser.rs:243-252 | For one name: no schema. |
| DumpEntries.CteReportedExactlyWhen | src/sql_parser.rs:227-237 | For what the parser returns for a WITH query with one CTE: that name and no other, if and only if it holds no CR or FF and does not end in ":ctename". |
| DumpEntries.NamelessCteUnreported | src/sql_parser.rs:233-235 | A CTE whose name is NULL is not reported. |
| DumpEntries.UnqualifiedReported | src/sql_parser.rs:217-223 | A relation without a schema is reported without one. |
| DumpEntries.NamelessUnreported | src/sql_parser.rs:217-218 | A RANGEVAR whose name is NULL is not reported. |
| DumpEntries.IntoReported | src/sql_parser.rs:254-255 | A SELECT with an intoClause node is reported as writing. |
| DumpEntries.NoIntoReported | src/sql_parser.rs:254-255 | One whose intoClause is NULL is not. |
| DumpEntries.DmlReported | src/sql_parser.rs:256-258 | INSERT, UPDATE, DELETE and MERGE are reported as writing. |
| DumpSelects.StringWritesExactlyWhen | src/sql_parser.rs:254-258 | What the parser returns for selecting a string constant is reported as a write if and only if the text spells the opening of a data-modifying node. |
| DumpSelects.StringReportedAsWrite | src/sql_parser.rs:254-258 | One such statement, in the parser's own shape. |
| DumpSelects.RelationReportedExactlyWhen | src/sql_parser.rs:212-225 | What the parser returns for selecting from a schema-qualified relation is reported as that one relation if and only if the schema ends neither in ":relname" (unless that is the name) nor in "{RANGEVAR". |
| DumpSelects.PhantomRelation | src/sql_parser.rs:212-225 | In a schema named "{RANGEVAR" a relation is reported twice, the second time without a schema. |
| DumpAnalyze.Field | src/sql_parser.rs:183-187 | On every string: the value is what is read at the first marker of the field, none if there is no marker; a panic if and only if reading the token there panics. |
| DumpAnalyze.StatementKind | src/sql_parser.rs:206-208 | The kind of a statement is the identifier behind the first `:stmt {` of its body, none if there is none. |
| DumpTree.IdentBytes | src/sql_parser.rs:189-193 | What is read as an identifier: letters, digits and the underscore. |
| DumpAnalyze.Search | src/sql_parser.rs:200-252 | Each of the four loops, on every string: everything its marker finds, in order, or a panic if and only if reading at one of the markers panics. |
| DumpAnalyze.Occurs | src/sql_parser.rs:255-258 | `contains` of a marker is true exactly when the scan finds it. |
| DumpAnalyze.AnalyzeDump | src/sql_parser.rs:195-275 | On every string: the scan's report, with the empty dump unparseable, or a panic if and only if some token or string that is read has a backslash before a byte above 0x7F. |
| DumpPanics.PrintedTreesAreClear | src/sql_parser.rs:46-60 | The dump of a tree whose texts are strings is a string, and analyzing it does not panic: every backslash in it escapes an ASCII byte. |
| DumpAnalyze.AnalyzeTree | src/sql_parser.rs:195-275 | End to end from a tree: no panic; exact conditions for writes, statement count, kind, CTE names, relations and functions; on plain trees the walk's lists; on lists of raw statements the number of statements and "select" only for one SELECTSTMT. |
| RuntimeSystem.InvStep | src/runtime_worker.rs:332-487 | Every step of every thread keeps counting, conservation, fencing and the one-outcome law. |
| RuntimeSystem.EveryRunIsCounted | src/runtime_worker.rs:332-487 | In every reachable state `in_flight` is queued plus running plus unharvested jobs, never above capacity over the four claim stages and never zero while a result waits; no job is sent or submitted twice; every job sent is with the pool, was submitted or died with the worker. |
| RuntimeSystem.HarvestReaches | src/runtime_worker.rs:352-370 | A harvested result is for a row of the table it was claimed from; it records that row's one completion if the row is in flight and changes nothing if the row was lost meanwhile; the counter goes down by exactly one. |
| RuntimeSystem.HarvestSkips | src/runtime_worker.rs:207-217 | Without the worker's role a harvested result changes neither rows nor outcomes; the counter goes down all the same. |
| RuntimeSystem.HarvestedIsCompleted | KNOWN_ISSUES.md:795-811 | In every reachable state a harvested row has one outcome, and it is Completed. |
| RuntimeSystem.PumpOrder | src/runtime_worker.rs:385-487 | The four stages of a pump and the four tables they claim from, in order. |
| RuntimeSystem.ClaimMarks | src/runtime_worker.rs:385-399 | A claim marks the rows it returns as in flight, leaves the others, and hands the calls on in its order under the queue of its stage. |
| RuntimeSystem.LosesOnce | src/outbound.rs:126-128 | A cancel and a reclaim make the row lost and record the call's first outcome. |
| RuntimeSystem.OutcomesAreFinal | KNOWN_ISSUES.md:795-811 | Over every run with crashes, reclaims, cancels, skipped submissions and belated results, no call gets a second outcome, a call has one exactly when its row is harvested or lost, and no row leaves those states. |
| RuntimeSystem.RowRun | src/runtime_worker.rs:204-226 | Over every run a row stays in its table and moves only along queued, in flight, harvested or lost. |
| RuntimeSystem.ClaimFenced | src/runtime_worker.rs:385-399 | What a claim returns was never held or sent before. |
| RuntimeWorker.ForeignKeeps | src/outbound.rs:457-487 | No step of the pool threads, the watchdog or operators touches the counter, the phase or what was sent and submitted. |
| RuntimeWorker.Worker.HarvestAll | src/runtime_worker.rs:352-370 | The harvest loop terminates although results keep arriving, leaves none behind, hands on every one that was waiting, submits the n-th under the n-th answer to whether the worker has its role, and lowers the counter by exactly those handed on; if the role is always available, every one of them ends with its row harvested or lost. |
| RuntimeWorker.Worker.ClaimStage | src/runtime_worker.rs:385-401 | A ready stage with room sends, in order, the claimed calls with valid ids for as long as the pool accepts them, under the queue of its stage, and otherwise nothing; the counter grows by the calls sent and stays within capacity. |
| PoolTiming.InvStep | src/outbound.rs:457-487 | Every timed step keeps: a job waits no longer than the job N places before it runs, and when it was claimed the job (k-1)N places before it had started or is about to. |
| PoolTiming.StartBound | src/outbound.rs:467-476 | A claimed job starts within k-1 calls. |
| PoolTiming.EveryJobInTime | src/runtime_worker.rs:332-401 | In every timed run with N FIFO threads, capacity kN and any bound S on one call, every job finishes within kS of its claim, or is still within that. |
| PoolTiming.SourcePoolInTime | src/runtime_worker.rs:332-333 | For the source's capacity of twice the threads: within 2S. |
| PoolTiming.BoundIsTight | src/runtime_worker.rs:332-333 | A run that reaches 2S, for every S. |
| PoolErasure.EveryTimedRun | src/outbound.rs:457-487 | Every timed run, its clocks erased, is a run of the runtime worker's system with the same waiting and running jobs, so that system's accounting holds of the timed pool. |
| CancelFlags.EveryInterleaving | src/outbound.rs:129-153 | In every interleaving of register, snapshot, query, store and drop in which no two calls in progress share an id, the map holds exactly the calls in progress, each with its own flag, a raised flag of one means its row is lost, and without reuse of ids every raised flag belongs to a call that a query reported lost. |
| CancelFlags.StaysRaised | src/outbound.rs:336-338 | Until a call ends it keeps its flag, and a raised flag stays raised. |
| CancelFlags.StoreTouches | src/runtime_worker.rs:110-116 | A store raises the flags of the calls it was told about that are still in progress and no other; a late store touches nothing. |
| CancelFlags.OnePassRaises | src/runtime_worker.rs:84-117 | If the row is lost when the keys are copied and the call lasts until the store, that pass raises its flag, whatever happens in between. |
| CancelFlags.UnprivilegedPass | src/runtime_worker.rs:92-95 | A pass without the worker's role raises no flag, whatever rows are lost and whatever happens in between. |
| CancelFlags.ReuseHitsLaterCall | src/runtime_worker.rs:110-116 | If an id is used again after its call has ended, a late store can raise the flag of the later call, which nobody reported. |
| CancelFlags.RightExactlyWhen | src/outbound.rs:137-153 | However ids recur, the map holds exactly the calls in progress throughout a run if and only if no id is registered while a call with it is in progress. |
| CancelFlags.OverlapLosesCall | src/outbound.rs:147-152 | With two calls of one id in progress, the end of the first takes the second out of the map. |
| SlicedWait.Await | src/outbound.rs:256-278 | The wait reports what its last inner call answered, every earlier one having had nothing; a timeout comes only from a call made at the deadline; it outlasts its timeout if and only if a call made at the deadline takes time, and never lasts more than twice as long; a cancel raised by the deadline ends it within 150 ms, a later one is never noticed. |
| SlicedWait.SilentPeer | src/outbound.rs:260-263 | With a transport that never has anything the wait is cancelled if and only if the cancel is raised by the deadline, and otherwise lasts exactly twice its timeout. |
| Windows.RecentTwice | src/web.rs:90-90 | Pruning early does not change later pruning. |
| Windows.RecentIsSize | src/web.rs:90-91 | Pruning keeps as many timestamps as are younger than the window. |
| Windows.CountIsSize | src/web.rs:77-81 | Counting in a window is the size of the set of timestamps in it. |
| Windows.SpacedWindows | src/web.rs:77-81 | If admissions `limit` places apart are a window apart, no window anywhere holds more than `limit`. |
| RateLimiter.Decide | src/web.rs:88-101 | The pruned vector counts the same as the full history, and stays in step whether the request is admitted or refused. |
| RateLimiter.Limiter.RateCheck | src/web.rs:82-101 | A request is admitted exactly when fewer than `limit` admissions of its address are younger than the window; only that address is affected. |
| RateLimiter.Limiter.EveryWindow | src/web.rs:77-101 | In every state, no window of the limiter's length, wherever it lies, ever held more than `limit` admissions of an address. |
| RateLimiter.Limiter.SourceWindow | src/web.rs:72-73 | With the source's constants: at most 120 requests of one address in any minute. |
| RateLimiter.Limiter.SourceCheck | src/web.rs:106-109 | With the source's constants: admitted if and only if fewer than 120 admissions of the address are younger than a minute. |
| Lockout.CappedStep | src/web.rs:642-662 | Every step keeps live handlers within the counter and the counter within the maximum. |
| Lockout.CounterIsExact | src/web.rs:646-662 | As long as no thread panics, the counter is the number of live and starting threads: every thread counts itself out. |
| Lockout.InvStep | src/web.rs:538-553 | Every step of every handler keeps the bound for every address and window. |
| Lockout.CheckBounded | src/web.rs:111-117 | A handler passes the check only while every window still open is under the limit. |
| Lockout.CheckExactly | src/web.rs:111-117 | A handler passes if and only if fewer failures in its address's history than the limit are younger than the window; otherwise it is answered, and nothing is recorded. |
| Lockout.LockoutEnds | src/web.rs:115-116 | When every failure of an address is a window old, its handlers pass. |
| Lockout.SourceCheck | src/web.rs:74-75 | With the source's constants: fewer than 20 failures in five minutes. |
| Lockout.RecordBounded | src/web.rs:119-122 | A recorded failure uses up the room its handler had. |
| Lockout.EveryWindow | src/web.rs:538-553 | However checks, comparisons and records interleave, any window of the lockout's length holds at most the limit less one plus the number of threads failures of one address. |
| Lockout.BoundIsReached | src/web.rs:538-553 | The bound is exact: for all limits some run puts that many failures of one address into one window. |
| Lockout.SourceWindow | src/web.rs:74-75 | With the source's constants: at most 83 in any five minutes. |
| Tickets.TicketBox.Mint | src/web.rs:41-48 | A minted ticket is in the map with its reading, and the map stays what the history says. |
| Tickets.TicketBox.Consume | src/web.rs:52-57 | A consumer is let in exactly when its ticket is there and was minted less than a lifetime before the consumer's reading; the ticket is gone either way. |
| Tickets.AdmittedExactlyWhen | src/web.rs:41-57 | In every history a consumer is let in if and only if its ticket was minted, not touched since, and young by every reading since. |
| Tickets.AdmitsOnce | src/web.rs:50-57 | Between two admissions on one ticket it was minted again. |
| Tickets.AdmittedInTime | src/web.rs:52-57 | Every admission is within the lifetime by the consumer's own reading, in whatever order readings and locks came. |
| Tickets.SourceLifetime | src/lib.rs:92-92 | With the source's constant: within thirty seconds of the mint. |
| Tickets.SweepingIsInvisible | src/web.rs:41-57 | When readings follow lock order, admission is exactly "minted less than a lifetime ago and untouched", as if nothing were ever swept. |
| Tickets.SourceAdmits | src/lib.rs:92-92 | With the source's constant and readings in order: admitted if and only if minted less than thirty seconds ago and untouched. |
| Tickets.LateReaderSweeps | src/web.rs:43-45 | When they do not, a ticket can be swept although its owner presents it in time. |
| DollarQuote.Run | src/function_exec.rs:57-65 | The retry loop ends for every body, at the first of the tags "body_", the clock in hexadecimal and any number of "x" that does not occur; for every suffix the lexer reads newline, body, newline and stops there. |
| DollarQuote.LexInvertsQuote | src/function_exec.rs:51-65 | For every tag that does not occur in the body, lexing the quoted text plus any suffix returns the body between newlines and that suffix. |
| DollarQuote.NoStraddle | src/function_exec.rs:63-63 | The newline in front of the closing tag rules out a delimiter that begins in the body. |
| DollarQuote.NewlineIsNeeded | src/function_exec.rs:63-63 | Without the newline a body can complete the closing tag too early. |
| DollarQuote.BuiltBodyIsTheBody | src/function_exec.rs:73-80 | The one quoted constant in the statement built for a valid identifier is the body, and only the semicolon follows. |
| DollarQuote.StatementIs | src/function_exec.rs:78-80 | The statement, clause by clause, with the identifier in its place. |
| DollarQuote.StatementTells | src/function_exec.rs:73-80 | Two statements for valid identifiers are equal only if identifiers and quoted bodies are. |
| DollarQuote.ValidExactly | src/function_exec.rs:33-36 | A valid identifier is the prefix and 32 hexadecimal digits in either case. |
| DollarQuote.OccursExactly | src/function_exec.rs:60-60 | `contains`: the delimiter stands at some index of the body. |
| FormCodec.PercentDecode | src/web.rs:135-164 | The web worker's loop computes the decoding function. |
| FormCodec.FormDecode | src/http_protocol.rs:69-99 | The separately written loop, with its cases in the other order, computes the same function: the two decoders agree on every input. |
| FormCodec.DecodeInvertsEncode | src/http_protocol.rs:69-99 | Decoding inverts percent and form encoding for every text. |
| FormCodec.DecodeInvertsEvery | src/web.rs:141-157 | Whatever an encoder writes for a text, with digits in either case and escapes where it likes, decoding gives the text back. |
| FormCodec.DigitsExactly | src/web.rs:142-143 | The sixteen digits in both cases have their values, and no other byte has one. |
| FormCodec.StrayPercent | src/web.rs:148-151 | A percent sign that starts no escape stays. |
| FormCodec.FormRoundTrip | src/http_protocol.rs:100-104 | A form body of any list of pairs reads back as its map, the last value of a repeated key winning. |
| FormCodec.QueryReadsFirst | src/web.rs:167-173 | A query of any list of pairs gives the first value of a key made of unreserved bytes. |
| FormCodec.QueryFirstPair | src/web.rs:167-173 | The first pair decides if its key is byte for byte the one asked for; a key that only decodes to it is passed over; the value runs to the next ampersand. |
| FormCodec.PairlessPiece | src/http_protocol.rs:100-101 | A piece without an equals sign is dropped. |
| FormCodec.PlusIsADigit | src/web.rs:142-147 | What an escape with a plus sign decodes to, and that the standard reads it otherwise. |
| FormCodec.HexOnlyExactlyWhen | src/web.rs:141-152 | Both decoders read escapes as two hexadecimal digits if and only if no percent sign is followed by a plus sign and a hexadecimal digit. |
| HttpFraming.ReadRequest | src/http_protocol.rs:106-143 | On any sequence of reads, a request of at most 1,048,576 bytes is handed on only if no deadline, error or size cap came first, and is then what had arrived when it was first complete or when the stream ended. |
| HttpFraming.HeaderEndStays | src/http_protocol.rs:129-133 | More bytes never move the end of the header block, so looking for it once is enough. |
| HttpFraming.HeaderEndsExactly | src/http_protocol.rs:130-131 | The header block ends with the first CR LF CR LF. |
| HttpFraming.NeededExactly | src/http_protocol.rs:136-136 | Header end plus length, wrapping at 2^64. |
| HttpFraming.CompleteExactlyWhen | src/http_protocol.rs:135-138 | A part of the stream is complete exactly when it holds header block and body of the message. |
| HttpFraming.EverySplitting | src/http_protocol.rs:106-143 | For every splitting of a stream under the cap: a stream of one message is handed over whole, and with more behind it header block and body are the message's own and the overshoot is under 8192 bytes. |
| Utf8.Truncate | src/lib.rs:370-379 | The cut is the longest that fits and ends on a character boundary, loses at most three bytes against the limit, and leaves a string. |
| Utf8.StoredBody | src/runtime_worker.rs:204-206 | After truncation on the pool thread and NUL removal, the second truncation keeps everything: what is stored is the first cut without NULs. |
| Utf8.WithoutNulExactly | src/runtime_worker.rs:205-206 | NUL removal drops exactly the NUL bytes and keeps the others in order. |
| Utf8.CutValid | src/lib.rs:378-378 | Cutting a string at a character boundary gives two strings. |
| Utf8.BoundaryExactly | src/lib.rs:375-375 | The boundaries of a string are exactly where a prefix of it is a string. |
| Utf8.EncodedIsCharacter | src/lib.rs:370-379 | What counts as one character: the encoding of a scalar value, whatever follows. |
| Utf8.CharacterIsEncoded | src/lib.rs:370-379 | And nothing else: no overlong form, no surrogate, nothing above U+10FFFF. |

## Left out

- DumpRelations.RelationsExactlyWhen: for trees whose RANGEVAR nodes start with schema and name, as PostgreSQL prints them; `DumpTheorems.AnalyzeIsStructure` covers other shapes in one direction.
- DumpFunctions.FunctionsExactlyWhen: for trees whose `funcname` lists hold String nodes only, as PostgreSQL prints them.
- The walk takes tags by prefix where the marker has no space after it (`{RAWSTMT`, `{INSERTSTMT` and the like) and looks for a field anywhere below its node, as the source does.
- The printer follows `outToken` also in guarding a sign before a digit or a point, which the source's comments do not mention.
- PoolTiming.EveryJobInTime: assumes an idle thread takes a waiting job at once, every call returns within S, and a job is claimed and sent at one instant.
- RuntimeSystem.OutcomesAreFinal: assumes of the database that a claim returns at most its limit of queued rows of its own table, that ids are unique over the four tables and a retry is a new row, and that all four completion functions act only on a row in flight, as documented for `fn_complete_outbound`.
- RuntimeWorker.Worker.ClaimStage: one method stands for the four stages, which differ in the claim function and the `kind` they put into the call.
- SlicedWait.Await: `transmit_output` is the same loop with an inner call that never answers "no data"; time passes only inside inner calls.
- Tickets.TicketBox.Mint: nonces are arguments, so "a ticket admits once" is stated up to minting the same nonce again.
- FormCodec.DecodeInvertsEncode: about the bytes that the decoders collect; the replacement of malformed UTF-8 afterwards changes nothing for texts that were UTF-8.
- HttpFraming.ReadRequest: `content_length` and `parse_http_request` are any functions of the bytes; the end of the list of events is the end of the stream; a sum that wraps at 2^64 is modelled.
- Lockout.EveryWindow: a poisoned lock is not modelled; a handler without a peer address takes the steps that record nothing.
- The size of the limiter's map: vectors of other addresses are pruned only when that address returns.
- The main loop's schedule (RPC first, idle backoff, latch), sandboxed SQL, function and procedure builds and their queues: easy repetitions of the queue shape.
- The PL/pgSQL control plane, SPI, roles, subtransactions, `raw_parser` and `nodeToString`: foreign code.
- Building and sending HTTP requests, DNS, TLS, blocked address ranges, sockets.
- `constant_time_eq`, `valid_uuid`, CSRF and loopback checks, JSON, HTML, configuration and scripts.
