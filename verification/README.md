# stirmake in Dafny

A model of the stirmake build tool and proofs about it. The build scheduler is the core; around it stand the
decision what has to be made, the database file, path normalisation, paged output, the stat cache and the
dependency-file reader. Everything that the C code updates step by step is a class or an array here, with loops and
invariants, proved against functions on values; the main results are lemmas and contracts about those functions.

## The build scheduler

`BuildGraph` holds numbered rules with ordered dependency lists and the reverse index. `DependentIndex` and
`RuleTable` build it in any order of rules and dependencies, with the chained blocks and the deferred list of
bydep.c. `CycleDetect` is the depth-first search; it is exact, and its post-order is the certificate the completion
proof needs. `Scheduler` is the mutual recursion of consider, do_exec, mark_executed and reconsider over one object
state; `SchedulerState` is a snapshot of that state with its invariant, `SchedulerSteps` what each elementary step
keeps. `RunLoop` drives the scheduler with children that finish in any order and with the token pool of `Jobserver`.
`SchedulerTheorems` says what the invariant means, `Build` puts the parts in the order of main.

The history of a run is a list of events, kept for the proofs: a rule is queued, a rule is done. The invariant holds
on every graph, also with cycles and with wait markers, and the recursion terminates on all of them by counting flags
that are still off. `SchedulerProgress` says why a started rule is not forgotten and why a rule may be started at all.

A build with a wait marker does not always finish. reconsider fixes at stirc/stirmake.c:3699-3701 whether it will go on
to do_exec before it has considered the dependencies behind the marker; when those all finish at once, the rule is never
passed on, and the build ends in the abort for lack of children. The code is modelled as it is. At the end of any run on
an acyclic graph the abort comes exactly when a needed, started rule has all its dependencies executed and was never
queued; `Build.Execute` states this, and two conditions that can be checked before the build and exclude it: everything
at or behind a wait marker of a needed rule is to be made, or nothing needed is to be made. A third condition forces it:
one rule is requested, of its dependencies only one, which no other rule shares, has anything to be made at or below it,
and something lies behind a wait marker after that one. `WaitExample` is the smallest such build. Whether a build between
these conditions finishes depends on the graph and on the order in which children finish. Everything about order is
proved for all graphs.

## The null build

`NullBuild` is do_exec's real decision and the file half of mark_executed, over a file system that maps names to
times and sizes, the stat cache, and both databases. `SecondBuild` follows any history the scheduler can produce with
those decisions, lets running commands rewrite their own targets at any moment, then prints the databases to the file,
parses the file (`Persist`), and follows a second history. `SecondBuild.TwoBuilds` is the result: the second build
queues nothing. Its hypotheses are in `BuildFiles.Plan.Valid` and in the requires clauses: every rule has targets, no
two rules share one, files without a rule exist, and a command touches nothing but its own targets. The histories it
follows are those of `Build.Make`: ordered, and at the end with every queued rule done. `TwoMakes.BuildTwice` runs the
run loop itself twice and puts the decisions beside both of its histories. For the first build the answer to every event
is spelled out from the world of that moment (`SecondBuild.Replayed`), so that agreeing is a fact about files and
databases. `DecisionLaws` says what is compared in nanoseconds, sizes, directories and commands.

## The database file

`Literal` says how strings are quoted and what a quoted string means, `LiteralCode` holds the unrolled writer, the
in-place decoder and the growing decoder. `DbFormat` is the file as a text and the parser as a function;
`DbRoundTrip` proves that reading inverts writing and says exactly when: entries without a command are never
reported (stirc/dbnonyy.c:221-230), and a negative number fails the whole parse because the digit test
(stirc/dbnonyy.c:324) does not know the minus sign. `DbCode` is the printer and the line parser that decodes inside
the line buffer and reuses its command buffers. `DbTable` is the list with its hash index. `LiteralLaws` and
`DbLaws` tell from the characters what literals and lines mean that are not written as the printer writes them, and
which ones fail.

## Paths, output, caches, dependency files

`Canon` is path normalisation as a stack of names, `CanonCode` the loop on the character buffer, `Neighbour` the way
from one path to another. The guard at stirc/canon.c:194 compares a distance that is three for `..` with two, so it is
never true and a third level up takes one back; where that matters is stated exactly (`Canon.CanonKeepsLocation`,
`Neighbour.NeighInverts`) and `Neighbour.ThirdLevelLost` is the smallest case. `AnsiStrip` and `SyncBuf` are paged
output and its stripping, which is not idempotent: `AnsiStrip.StripTwice` says exactly where. `StatCache` is the table
of stat results with its list of use. `DepFile`, `DepFileCode` and `DepRoundTrip` are the reader of dependency files:
joining of lines by a skip scan, and words unescaped in place. `DepLaws` says what they mean for every way to spell a
name, space a rule and join lines. A name that begins with an escaped newline loses it
when a blank stands before it, since the blank skip of stirc/incnonyy.c:64-79 takes it for a joint; the round trip is
stated with that. The last blank skip of a line (stirc/incnonyy.c:267-270) overwrites what ended the line; when that
was the terminator of a last line without a newline, nothing on the line stops the scan any more
(`DepFileCode.LastSkip`).

Names are numbers, as in the string table, except where their bytes matter; bytes are numbers below 256 (`Bytes`).
Integers are unbounded where the code uses object counts; the characters of a decoded escape wrap as the C types do,
and numbers in the database file saturate as strtoll does.

## Model

| member | source | states |
|---|---|---|
| DependentIndex.Append | stirc/bydep.c:58-104 | appending to the chain of blocks adds exactly one element at the end and keeps the chain well shaped |
| DependentIndex.NewDep | stirc/stirmake.c:1760-1888 | entering one more dependency keeps the index entries equal, in number, to the non-duplicate dependencies that name a target of each rule |
| DependentIndex.FlushOne | stirc/bydep.c:21-35 | entering one deferred pair later, once its target has a rule, keeps the same agreement |
| DependentIndex.IndexComplete | stirc/stirmake.c:7944-7971 | after the flush the reverse index and the edges are each other's mirror, whatever the order in which rules and dependencies came |
| DependentIndex.IndexMultiplicity | stirc/bydep.c:37-104 | a rule appears in the index of another exactly as many times as it has non-duplicate dependencies naming one of its targets |
| RuleTable.RuleTable.InsByDep | stirc/bydep.c:37-104 | enters a pair in the index, or in the deferred list when no rule makes the name yet; enforced entry requires the rule |
| RuleTable.RuleTable.EnterDep | stirc/rule.c:246-309 | appends the dependency, marks it a duplicate exactly when the name was there, and indexes it only the first time |
| RuleTable.RuleTable.AddTarget | stirc/rule.c:83-109 | a target gets a rule only if it has none |
| RuleTable.RuleTable.AddRule | stirc/stirmake.c:1760-1888 | succeeds exactly for a nonempty list of different new targets; adds one rule with these targets and dependencies and changes no other |
| RuleTable.RuleTable.AddExtra | stirc/stirmake.c:1443-1458 | lists one announcement and all given dependencies for every target and nothing else, each target announced before its dependencies |
| RuleTable.RuleTable.ProcessExtras | stirc/stirmake.c:1586-1758 | every announced target without a rule gets one of its own, no further rule appears, and each rule's list grows by just the additional dependencies listed for its targets, in order, strict and marked as included or not as listed |
| RuleTable.RuleTable.ProcessOrders | stirc/stirmake.c:5852-5906 | each rule's list grows by just the names that orders between traversed rules ask for, in order, as strict dependencies without wait; fails exactly on a name without a rule |
| RuleTable.RuleTable.FlushLater | stirc/bydep.c:21-35 | enters every deferred dependency whose rule has turned up and leaves the graph and its index well formed |
| CycleDetect.CycleDetector.Impl | stirc/stirmake.c:1327-1374 | the depth-first search: it fails only with a real cycle below the rule, else extends a dependencies-first order by exactly what the rule reaches |
| CycleDetect.CycleDetector.Detect | stirc/stirmake.c:1376-1388 | fails if and only if a cycle can be reached from the rule, and otherwise marks exactly the reached rules as traversed |
| CycleDetect.TopologicalAcyclic | stirc/stirmake.c:1327-1388 | a dependencies-first order excludes every cycle among its rules |
| CycleDetect.WalkDescends | stirc/stirmake.c:1327-1388 | along any walk inside such an order positions fall |
| Build.DetectAll | stirc/stirmake.c:7954-7969 | over all requested rules: fails exactly when one of them reaches a cycle, else gives one order of everything needed |
| Build.OrdersKeepNeeded | stirc/stirmake.c:5852-5906 | orders between needed rules do not make any other rule needed |
| Build.OrderEdges | stirc/stirmake.c:5852-5906 | process_orders only adds edges, and only between traversed rules |
| Build.Prepare | stirc/stirmake.c:7954-7971 | the two detection passes around the orders are exact for the final graph, handed on well formed and in dependencies-first order; when the first finds no cycle, an order naming a target without a rule is the failure and nothing else is; every order between needed rules is an edge of the final graph, and the lists grew by nothing else |
| Build.ApplyOrders | stirc/stirmake.c:5852-5906 | given the rules traversed by an acyclic first pass: the failure comes exactly from an order without a rule, a cycle is reported exactly when the orders close one, and otherwise each applicable order is an edge, the lists having grown by what the orders ask for |
| Build.Execute | stirc/stirmake.c:5473-5850 | the run loop on an acyclic graph: the abort for lack of children comes if and only if some needed, started rule has all its dependencies executed and was never queued; never when what lies behind wait markers is to be made, or nothing is; always when a requested rule waits for the one thing to be made and what lies behind the marker is up to date; without the abort everything needed is executed and no source of it is missing |
| WaitExample.MakeTarget | stirc/stirmake.c:3665-3777 | the smallest graph with a wait marker: with the dependency behind the marker up to date every build aborts, with it to be made every build finishes |
| WaitExample.Stops | stirc/stirmake.c:3699-3701 | that graph meets the general condition for the abort |
| Build.Make | stirc/stirmake.c:7944-7976 | from targets to the end of the build: each outcome with its cause, an unknown order exactly when one names a target without a rule, a missing file never passed over by a run that finishes, the abort for lack of children exactly characterised, everything needed executed otherwise, for each applicable order nothing of the second rule before the first is done, at most the allowed number of children at once, every command of each executed rule that needed them started and none of the others |
| Build.OrderRanks | stirc/stirmake.c:5513-5551 | a dependencies-first order, with the conditions on wait markers and on what is to be made, is what the completion proofs of the scheduler ask for |
| Scheduler.Scheduler.constructor | stirc/rule.c:215-229 | the start state satisfies the invariant with every dependency rule in the remaining set |
| Scheduler.Scheduler.CalcDepsRemain | stirc/rule.c:215-229 | the remaining set becomes exactly the dependency rules, with zero wait counts and the right size |
| Scheduler.Scheduler.Insert | stirc/rule.c:185-213 | one dependency rule is added once and the count stays the size of the set |
| Scheduler.Scheduler.Erase | stirc/rule.c:156-182 | one dependency rule goes, and the size and the sum of the wait counts follow |
| Scheduler.Scheduler.ForWait | stirc/rule.c:139-154 | one more wait on a dependency rule that is still in the set; the abort is unreachable |
| Scheduler.Scheduler.AddRoot | stirc/rule.h:138-146 | an unfinished root is listed once |
| Scheduler.Scheduler.Visit | stirc/stirmake.c:3591-3655 | a dependency rule is considered and, if still unexecuted, waited for; a dependency with neither rule nor file ends the program and no other is passed; nothing of the visiting rule's own progress is lost |
| Scheduler.Scheduler.Try | stirc/stirmake.c:3599-3623 | the dependency loop stops exactly at a wait marker while a wait count is positive, else moves past the dependency |
| Scheduler.Scheduler.StartDeps | stirc/stirmake.c:3591-3655 | the loop of consider: ready for do_exec only when every dependency rule is executed |
| Scheduler.Scheduler.Consider | stirc/stirmake.c:3558-3663 | keeps the invariant on every graph, with no missing source behind the point any loop has reached; terminates, takes a rule up once, and returns 1 whenever something was executed and nothing queued |
| Scheduler.Scheduler.DoExec | stirc/stirmake.c:3503-3556 | a rule with all dependencies executed is queued once when its commands must run, else marked executed at once |
| Scheduler.Scheduler.MarkExecuted | stirc/stirmake.c:3779-3796 | marks a rule executed exactly once, with aborts 16 and 17 unreachable, and tells every dependent; a sole dependent with more to wait for stays unqueued |
| Scheduler.Scheduler.Notify | stirc/stirmake.c:4030-4048 | every rule that depends on the executed one is reconsidered, in any nesting |
| Scheduler.Scheduler.Reconsider | stirc/stirmake.c:3665-3777 | erases the executed dependency and resumes at the wait pointer, keeping the invariant on every graph; a rule with something else left to wait for is not queued by this call |
| Scheduler.Scheduler.ResumeLoop | stirc/stirmake.c:3699-3777 | whether the rule goes on to do_exec is settled before the resumed loop: with something left at entry it is not queued, whatever the loop finishes |
| Scheduler.Scheduler.ResumeDeps | stirc/stirmake.c:3719-3767 | the resumed loop stops at a marker only while something started is waited for, and passes it only with everything before it executed |
| Scheduler.Scheduler.Take | stirc/stirmake.c:5513-5551 | the popped rule was queued, needs its commands, and is not executed |
| Scheduler.Scheduler.Complete | stirc/stirmake.c:5772-5781 | a finished child is marked executed, and unfinished roots lose exactly what is executed |
| SchedulerTheorems.OrderSafety | stirc/stirmake.c:3591-3655 | in every reachable state of every run a rule queued, running or executed has all its dependency rules executed |
| SchedulerTheorems.WaitOrder | stirc/stirmake.c:3719-3751 | once the loop has moved past a wait marker every dependency rule before it is executed |
| SchedulerTheorems.HeldBack | stirc/stirmake.c:3599-3607 | a rule that one rule alone wants, behind a wait marker, is not started before everything before the marker is executed |
| SchedulerProgress.Steady | stirc/stirmake.c:3558-3663 | while a rule considers its dependencies, whatever was started below it and is not executed stays so |
| SchedulerProgress.LoopOver | stirc/stirmake.c:3599-3623 | a dependency loop that stopped or ran out waits for something started, unless all its dependency rules are executed |
| SchedulerProgress.Behind | stirc/stirmake.c:3719-3727 | what a parked rule has not started lies at or behind a wait marker |
| SchedulerTheorems.Bookkeeping | stirc/rule.c:139-229 | the remaining set holds every unexecuted dependency rule; its size and wait sum are the stored counts |
| SchedulerTheorems.DoneBefore | stirc/stirmake.c:3558-3777 | in the history of a run everything a rule reaches was done before the rule was queued or done |
| SchedulerTheorems.CyclesNeverRun | stirc/stirmake.c:3558-3777 | a rule from which a cycle is reached is never queued, run or executed, even without cycle detection |
| SchedulerTheorems.NotBeforeItself | stirc/stirmake.c:3558-3777 | no ordered history contains a rule that depends on itself |
| SchedulerSteps.Enqueue | stirc/stirmake.c:3503-3516 | queueing keeps the invariant and adds one event that no earlier one repeats |
| SchedulerSteps.Finish | stirc/stirmake.c:3793-3796 | marking executed keeps the invariant, with the dependents owed a notification |
| SchedulerSteps.Erase | stirc/rule.c:156-182 | erasing a dependency keeps the invariant and pays one owed notification |
| SchedulerSteps.AllSettled | stirc/stirmake.c:5828-5848 | with no child running and an empty queue, whatever was queued is done, and of the executed rules exactly those that needed it were queued |
| SchedulerSteps.ReachedExecuted | stirc/stirmake.c:5513-5849 | every rule below an executed rule is executed, in every reachable state |
| SchedulerSteps.Unfinished | stirc/stirmake.c:5828-5848 | when no child runs and the queue is empty, a started rule that is not executed lies above one that was passed over; there is none when what lies behind wait markers is to be made, or nothing is |
| SchedulerSteps.StillWaits | stirc/stirmake.c:3699-3701 | in a build that will abort, as long as something runs the dependency before the marker is unmade and something behind the marker unstarted |
| Jobserver.Jobserver.Host | stirc/stirmake.c:5279-5303 | the host fills the pool with one byte fewer than the number of jobs |
| Jobserver.Jobserver.Read | stirc/stirmake.c:369-437 | a byte is taken exactly when there is one and no other process is faster; it moves from the pipe to the held ones, all bytes together unchanged, or nothing changes; only past the capacity of 1024 is a byte lost |
| Jobserver.Jobserver.Write | stirc/stirmake.c:345-368 | the last held byte goes back, all bytes together unchanged; with none held a dot is written |
| RunLoop.RunLoop.Spawn | stirc/stirmake.c:2431-2762 | one more rule runs and one more child is counted; tokens held stay children minus one |
| RunLoop.RunLoop.SpawnQueued | stirc/stirmake.c:5513-5551 | spawns while tokens last: afterwards the queue is empty, or a child runs and the pool, asked again, has refused a token; no token is lost |
| RunLoop.RunLoop.Reap | stirc/stirmake.c:5746-5789 | a finished child of a rule with commands left starts the next one and changes nothing else; after the last one the child returns its token and the rule is executed; in a build that will abort the requested rule is still not queued |
| RunLoop.RunLoop.ConsiderRoots | stirc/stirmake.c:5473-5489 | one pass considers every unfinished root; what is executed leaves the list |
| RunLoop.RunLoop.Wakeup | stirc/stirmake.c:5563-5827 | one round of the loop keeps tokens and the invariant and makes progress |
| RunLoop.RunLoop.AllBuilt | stirc/stirmake.c:5828-5848 | at the end of a loop a requested rule is left over if and only if a rule below was passed over; else everything below the requested rules is executed |
| RunLoop.RunLoop.Run | stirc/stirmake.c:5473-5850 | whole run, any order of completions, any graph: tokens conserved, at most pool-plus-one rules at once, ordered history, every command of each rule that was made started and none of any other, everything below the requested rules executed unless the abort comes, and when it comes |
| BuildFiles.TsCmpOrders | stirc/stirmake.c:519-538 | ts_cmp is antisymmetric, zero only on equal times, and transitive |
| DecisionLaws.TsCmpIsLater | stirc/stirmake.c:519-538 | ts_cmp is 1 exactly of a time more nanoseconds after the epoch, and -1 exactly of an earlier one |
| DecisionLaws.UpToDateExactly | stirc/stirmake.c:3127-3496 | what Decide compares comes out even if and only if no dependency is missing, no strict one nor a target has another size or time than recorded, no target was made in another directory or with other commands, and no strict dependency is later than a target |
| DecisionLaws.PassesExactly | stirc/stirmake.c:3897-3988 | comparing with the measured newest time passes if and only if every target exists and no strict dependency is later than one |
| DecisionLaws.WrittenExactly | stirc/stirmake.c:5115-5170 | of an entry that was noted in the run the new values are written, of any other the old ones |
| DecisionLaws.MergedExactly | stirc/stirmake.c:5035-5065 | targets of rules that ran carry their own directory and commands, targets of other rules what they had |
| DecisionLaws.RecordedExactly | stirc/stirmake.c:3897-3988 | a recorded file has its present size and time as the values to compare and as those to write back |
| NullBuild.CmdEqual | stirc/stirmake.c:302-329 | true exactly for the same commands with the same arguments in order |
| NullBuild.BuildDb.CmdEqualDb | stirc/stirmake.c:439-471 | true exactly when the target was recorded with this directory and these commands |
| NullBuild.BuildDb.TsszEqual | stirc/stirmake.c:477-516 | true exactly when size and time agree with the recorded ones; a source is noted for writing back with its present size and time, and nothing else changes |
| NullBuild.BuildDb.Lstat | stirc/statcache.c:150-202 | gives what lstat gives as long as the remembered entry is truthful, remembers it, and on a hit changes nothing |
| NullBuild.BuildDb.CheckDeps | stirc/stirmake.c:3127-3297 | finds something wrong exactly when a dependency is missing or a strict one differs from its record, measures the newest strict one, and notes exactly the strict ones that exist and are known for writing back |
| NullBuild.BuildDb.CheckTargets | stirc/stirmake.c:3298-3361 | finds something wrong exactly when a target is missing, made differently, or differs from its record, and measures the oldest |
| NullBuild.BuildDb.CheckExisting | stirc/stirmake.c:3455-3496 | the decision for a rule without dependencies |
| NullBuild.OldestAgainstNewest | stirc/stirmake.c:3362-3371 | comparing the oldest target with the newest strict dependency compares all pairs |
| NullBuild.BuildDb.Decide | stirc/stirmake.c:3127-3496 | has_to_exec is set exactly when the rule is not up to date, for any stat cache that tells the truth about it; exactly its existing and known strict dependencies are noted for writing back |
| NullBuild.BuildDb.MarkExecuted | stirc/stirmake.c:3897-3988 | passes exactly when every target exists and is no older than the newest dependency; then all targets and dependencies are recorded as they are, no other file is, and targets just made are forgotten by the cache |
| NullBuild.BuildDb.Merge | stirc/stirmake.c:5035-5065 | the targets of the rules that ran get their commands; every other entry is kept |
| SecondBuild.DecideKeeps | stirc/stirmake.c:3127-3496 | a decision keeps the run invariant and queues a rule with its dependencies measured |
| SecondBuild.CommandKeeps | stirc/stirmake.c:3503-3516 | commands that touch only their own targets disturb no finished rule and no measured dependency |
| SecondBuild.MarkKeeps | stirc/stirmake.c:3897-3988 | mark_executed settles its rule |
| SecondBuild.Follow | stirc/stirmake.c:3096-4049 | decisions, commands and bookkeeping beside any history the scheduler can produce: the answer to each event is the one that the file system and the databases of that moment give, up to the end or the first disagreement or target not made; the invariant holds throughout, and from a quiet start exactly the histories without a queued rule are followed |
| SecondBuild.SavedIsQuiet | stirc/stirmake.c:5035-5170 | what a finished build saves makes every rule it finished quiet |
| SecondBuild.TwoBuilds | stirc/stirmake.c:3096-5170 | null build: after a build that agreed, event by event, with files and databases, and whose databases went through the file, a second build on the same files queues no command and gives up on no target, in any order |
| TwoMakes.BuildTwice | stirc/stirmake.c:3096-5850 | the same for two runs of the whole run loop: when the answers of the first are those of files and databases at each moment, the answers of the second are those of files and databases exactly when it queued nothing, and with answers that make nothing it ends with nothing to do |
| Persist.SaveAndLoad | stirc/stirmake.c:4835-5170 | printing both databases and reading the file back gives the same lists in the same order: commands without the entries that have none, times with the values noted in the run; and so the same maps |
| Bytes.Utf8RoundTrip | stirc/yyutils.c:264-294 | the bytes written for a 16-bit code decode to it by the table in section 3 of RFC 3629, and no shorter form does |
| Bytes.TwoDigits | stirc/yyutils.c:861-894 | two lower-case hexadecimal digits read back as the byte |
| Literal.LiteralRoundTrip | stirc/yyutils.c:1050-1087 | for every NUL-free string the decoder gives back what file_escape_string wrote, and the position after the closing quote, whatever follows |
| LiteralLaws.UnicodeEscape | stirc/yyutils.c:252-289 | u with four hexadecimal digits in either case, up to the closing quote, reads as the shortest UTF-8 form of the sixteen-bit code they write and ends after the quote |
| LiteralLaws.HexEscape | stirc/yyutils.c:229-251 | x with two hexadecimal digits in either case reads as the byte with that value |
| LiteralLaws.ShortEscape | stirc/yyutils.c:194-339 | three letters after a backslash stand for control characters and every other character but x and u for itself |
| LiteralLaws.BadHexEscape | stirc/yyutils.c:229-289 | an x escape is malformed if and only if strtol does not take both characters; it takes a digit after white space or a sign too |
| LiteralLaws.BadUnicode | stirc/yyutils.c:252-289 | a u escape whose last character is no hexadecimal digit ends the program |
| LiteralLaws.DigitsAre | stirc/yyutils.c:229-289 | every hexadecimal digit in either case has a value and nothing else has one |
| LiteralLaws.PlainCharacter | stirc/yyutils.c:226-236 | outside escapes every character but a quote, a backslash and NUL stands for itself |
| LiteralLaws.CutBackslash | stirc/yyutils.c:194-339 | a literal cut off after a backslash is not closed |
| LiteralLaws.WrittenPrintable | stirc/yyutils.c:1050-1087 | whatever the string, nothing but printable characters is written between the quotes |
| LiteralCode.AcceptCharsInit | stirc/yyutils.c:914-948 | both tables come out as the escape of each byte says, whatever was in the accept table |
| LiteralCode.FileEscapeString | stirc/yyutils.c:1050-1087 | the loop unrolled eight times writes exactly the escapes of the bytes before the terminator |
| LiteralCode.Unescape | stirc/dbnonyy.c:75-146 | one escape: the bytes it stands for and where it ends, or that it is malformed or cut off, as the laws of `LiteralLaws` give them from the characters |
| LiteralCode.DecodeInPlace | stirc/dbnonyy.c:29-180 | the decoder over its own text computes the reading of the literal; nothing before the literal and nothing after it is written, and the string ends below the read position |
| LiteralCode.DecodeCopy | stirc/yyutils.c:194-339 | the growing decoder agrees with the same reading, never writes past its capacity and leaves the text alone |
| LiteralCode.Reserve | stirc/yyutils.c:206-224 | after growing there is room for eight more bytes and what was there is kept |
| DbRoundTrip.ArgsScan | stirc/dbnonyy.c:232-309 | a printed command line is read back as its arguments |
| DbRoundTrip.HeadScan | stirc/dbnonyy.c:232-329 | a printed entry line is read back as its directory and target |
| DbRoundTrip.StampScan | stirc/dbnonyy.c:310-372 | a printed stamp line is read back as its stamp, or fails the parse when a number is negative |
| DbRoundTrip.DecimalReads | stirc/stirmake.c:5145-5146 | the digits of a number have its value |
| DbRoundTrip.FileReads | stirc/stirmake.c:5083-5170 | whole file round trip, exactly: parsing succeeds just when no number is negative and gives every entry that has a command and every stamp, in order |
| DbRoundTrip.Survives | stirc/stirmake.c:5083-5170 | a database survives writing and reading if and only if every entry has a command and no number is negative |
| DbLaws.AnyHead | stirc/dbnonyy.c:182-386 | two names with any blanks around them, and a colon or none, open an entry in a file of either version |
| DbLaws.LoneName | stirc/dbnonyy.c:348-370 | a line with one name and nothing else fails |
| DbLaws.GluedString | stirc/dbnonyy.c:245-263 | a name directly followed by anything but a blank, newline, colon or equals sign fails |
| DbLaws.ThirdString | stirc/dbnonyy.c:239-244 | a third string on a line fails |
| DbLaws.CommandEnds | stirc/dbnonyy.c:348-352 | a command line ends well with whatever else stood on it |
| DbLaws.AnyStamp | stirc/dbnonyy.c:309-370 | a name, an equals sign and numbers with any blanks make a stamp exactly when there are three numbers and the file is of the second version, each number at most the largest long long |
| DbLaws.OldFileKnowsNoStamps | stirc/dbnonyy.c:182-386 | a file that starts with the first version's line, or with none, fails at a printed stamp |
| DbLaws.CommandFirst | stirc/dbnonyy.c:182-386 | a command line before any entry reaches for a rule that was never read |
| DbLaws.LateVersion | stirc/dbnonyy.c:182-386 | a version line anywhere but on the first line fails |
| DbLaws.FirstAsAny | stirc/dbnonyy.c:182-386 | a first line that is no version line means what it means further down in a file of the first version |
| DbLaws.StringLast | stirc/dbnonyy.c:245-267 | on a last line without a newline the last string is not taken and nothing fails |
| DbLaws.NumberLast | stirc/dbnonyy.c:324-347 | a stamp on a last line without a newline is lost |
| DbCode.PrintDb | stirc/stirmake.c:5083-5170 | the printing loops with their first-block flag write exactly the file text |
| DbCode.Dbyy.AddCmd | stirc/dbyy.h:63-86 | a new empty command, in a reused or new buffer |
| DbCode.Dbyy.AddArg | stirc/dbyy.h:123-134 | the argument is added to the last command, cut at a NUL |
| DbCode.Dbyy.EmplaceRule | stirc/dbyy.h:136-157 | a new current entry without commands |
| DbCode.Dbyy.PostCmds | stirc/dbyy.h:108-121 | the current entry with its commands is reported |
| DbCode.Dbyy.ParseLine | stirc/dbnonyy.c:232-379 | the loop over a line, decoding in the line buffer, does what the line means in its original text: earlier strings survive later decoding |
| DbCode.Dbyy.MineParse | stirc/dbnonyy.c:182-386 | the whole parser with its buffers does what the file means, error by error |
| DbCode.WriteThenRead | stirc/stirmake.c:5083-5170 | printing and parsing: success just when no number is negative, then the kept entries and all stamps |
| DbTable.Table.Get | stirc/db.c:228-258 | finds exactly what the list holds under the key |
| DbTable.Table.MaybeDel | stirc/db.c:119-132 | the entry goes from list and index, the others stay in order |
| DbTable.Table.Insert | stirc/db.c:134-158 | the entry goes to the end of the list in place of any entry with its key, in list and index alike |
| DbTable.Table.Store | stirc/db.c:160-226 | an existing entry is overwritten where it stands, a new one is appended; as a map, one update |
| DbTable.OverwrittenMap | stirc/db.c:188-194 | overwriting in place is a map update and keeps keys different |
| DbTable.DroppedMap | stirc/db.c:119-132 | deleting is map removal, keeps keys different, and does nothing for an absent key |
| DbTable.Load | stirc/stirmake.c:4835-4854 | loading entries into an empty table keeps the last one of each key, in the order of these |
| DbTable.LastNodesMap | stirc/stirmake.c:4835-4854 | as a map, a later entry for a key overrides the earlier ones, and the keys are those loaded |
| Canon.CanonNormal | stirc/canon.c:95-242 | the result has no empty or dot component, and dot-dot only in front, at most twice, never in an absolute path |
| Canon.CanonIdempotent | stirc/canon.c:95-242 | canon of canon is canon |
| Canon.CanonKeepsLocation | stirc/canon.c:160-208 | canon keeps the place a path leads to if and only if that is at most two levels above the start; absolute paths never climb |
| Canon.RenderStack | stirc/canon.c:209-242 | a normal stack is recovered from its text |
| Canon.ComponentsJoined | stirc/canon.c:70-93 | a path joined with a slash splits into the parts of both |
| CanonCode.CanonBuf | stirc/canon.c:95-242 | the character loop computes the stack normal form, reports its length, and writes no byte past the input length and its terminator |
| CanonCode.OnePart | stirc/canon.c:142-222 | one component of the path, in the buffer |
| CanonCode.UpStep | stirc/canon.c:160-208 | the dot-dot branch: two or more names lose the last one, whatever it is; the guard for a third dot-dot is never true |
| CanonCode.ConstructBackpath | stirc/canon.c:266-312 | as many dot-dots as the normal form has parts, or an abort |
| CanonCode.NeighPathOf | stirc/canon.c:314-393 | for all texts: the shortcuts, the abort on an empty path, and the loop over both canonical paths, which computes the way from one to the other |
| Neighbour.MeetIsWay | stirc/canon.c:342-392 | for normal stacks the loop arrives at the climb out of one and the descent into the other |
| Neighbour.WayInverts | stirc/canon.c:314-393 | on stacks: the way leads back if and only if the climb is at most two |
| Neighbour.NeighInverts | stirc/canon.c:314-393 | for canonical relative paths, the first without dot-dot, neighpath gives a path, and joining it on gives the file if and only if the levels to climb are at most two |
| Neighbour.NeighLeads | stirc/canon.c:314-393 | for any two relative texts, canonical or not, where the path does not lead above its start: appending the result to the path leads where the file leads if and only if the file begins with the path or the way climbs at most two levels |
| Neighbour.NeighAborts | stirc/canon.c:314-393 | where the path leads above its start and the file does not share that part, neighpath aborts |
| Neighbour.NeighSpecial | stirc/canon.c:314-393 | a file named from the root, or any file from here, is the answer itself; an empty path or file, or a path from the root to a file that is not, aborts |
| Neighbour.ThirdLevelLost | stirc/canon.c:194-203 | the smallest path that canon moves: three levels up become one |
| AnsiStrip.SequenceGoes | stirc/syncbuf.c:140-178 | text without an introducer stays, lone escape characters included, and a whole control sequence of section 5.4 of ECMA-48 after it goes |
| AnsiStrip.Unchanged | stirc/syncbuf.c:140-178 | stripping is the identity if and only if no escape character stands right before a bracket |
| AnsiStrip.StripTwice | stirc/syncbuf.c:140-178 | stripping twice is stripping once if and only if no kept escape character is followed, as the next kept byte, by a bracket |
| AnsiStrip.NotIdempotent | stirc/syncbuf.c:140-178 | a shortest stream for which it is not |
| AnsiStrip.SequenceEnds | stirc/syncbuf.c:140-178 | inside a sequence everything goes, whatever the bytes, up to and with the first one from 64 to 126; then stripping goes on, inside a new sequence when that byte was a bracket after an escape character |
| AnsiStrip.NeverEnds | stirc/syncbuf.c:140-178 | a sequence without such a byte takes the rest of the stream with it |
| SyncBuf.StripBytes | stirc/syncbuf.c:132-178 | the in-place loop over one page keeps what one pass over the whole stream keeps of it, including an introducer split between two pages |
| SyncBuf.Buffer.Fill | stirc/syncbuf.c:79-87 | as much as fits goes to the last page |
| SyncBuf.Buffer.Append | stirc/syncbuf.c:54-89 | the bytes go after what is there, on however many pages |
| SyncBuf.Buffer.StripAll | stirc/syncbuf.c:125-178 | all pages together keep what one pass over their concatenation keeps |
| SyncBuf.Buffer.Dump | stirc/syncbuf.c:114-184 | writes the stream, stripped unless a terminal or a stripping parent listens, and empties the buffer |
| SyncBuf.WriteAll | stirc/syncbuf.c:91-112 | everything is written in order, however few bytes are taken at a time |
| StatCache.Cache.constructor | stirc/statcache.c:20-38 | an empty cache with its free entries |
| StatCache.Cache.Grow | stirc/statcache.c:40-58 | more free entries, never past the limit, and nothing cached changes |
| StatCache.Cache.Evict | stirc/statcache.c:60-71 | exactly the name used longest ago goes |
| StatCache.Cache.EnsureFree | stirc/statcache.c:73-89 | a free entry; a name is given up only at the limit |
| StatCache.Cache.Lstat | stirc/statcache.c:150-202 | a hit gives what the last miss read and moves the name to the front, a miss reads afresh; list, free list and index stay a partition |
| StatCache.Cache.EvictNamed | stirc/statcache.c:130-148 | exactly the named entry goes |
| StatCache.Cache.EvictAll | stirc/statcache.c:118-128 | nothing is cached any more |
| StatCache.CacheIsRecent | stirc/statcache.c:60-202 | after any run of lookups and evictions by name the cached names are the first ones in order of last use, within the limit |
| DepFile.EscapingIsOdd | stirc/incnonyy.c:306-331 | pairing backslashes from the left comes to the parity of the last run |
| DepFileCode.InsetAscii | stirc/incnonyy.c:17-24 | the bit set contains exactly the seven special bytes |
| DepFileCode.ScanContinues | stirc/incnonyy.c:299-332 | the skip scan sets its flag if and only if an odd run of backslashes stands before the newline |
| DepFileCode.ReadLogical | stirc/incnonyy.c:299-395 | physical lines are joined up to the first that does not continue; running out of text before that is an error |
| DepFileCode.SetCspn | stirc/incnonyy.c:31-46 | the unrolled scan stops at the first special byte |
| DepFileCode.Cspn | stirc/incnonyy.c:80-101 | finds the end of a word, passing over escapes, and says whether there were any |
| DepFileCode.UnescapeWord | stirc/incnonyy.c:166-205 | the in-place compaction gives the unescaped word with its terminator, or fails exactly on a bad escape, and touches nothing outside it |
| DepFileCode.HandleLine | stirc/incnonyy.c:132-273 | the tokens cut out of the line in place are those of the original line, with the same errors |
| DepFileCode.LastSkip | stirc/incnonyy.c:267-270 | the blank skip after the last dependency stays on the line if and only if the line ended with a newline |
| DepFileCode.Parse | stirc/incnonyy.c:275-406 | the tokens of every logical line, or an error |
| DepRoundTrip.RuleReads | stirc/incnonyy.c:132-273 | every rule of NUL-free names written with escapes is read back name by name, the names after a blank without the newlines in front of them |
| DepRoundTrip.RuleComesBack | stirc/incnonyy.c:132-273 | the line parser gives a written rule back as it was if and only if every name has a byte and none but the first target begins with a newline |
| DepRoundTrip.FileReads | stirc/incnonyy.c:275-406 | a file of such rules is read back rule by rule; newlines inside names do not break its lines |
| DepLaws.SpelledWord | stirc/incnonyy.c:80-205 | however its characters are spelled, a backslash before any character, two dollar signs or the character alone, a word ends at the next blank, colon, newline or terminator and unescapes to its name |
| DepLaws.BadWord | stirc/incnonyy.c:166-205 | a dollar sign before anything but another one, or a last backslash or dollar sign, makes a word fail whatever stands before it |
| DepLaws.BadWordFails | stirc/incnonyy.c:166-205 | a word that cannot be unescaped makes its line fail |
| DepLaws.JointSkipped | stirc/incnonyy.c:64-79 | a backslash with a newline counts as a blank after a blank, and only there |
| DepLaws.BlankLine | stirc/incnonyy.c:132-147 | a line of blanks has no rule |
| DepLaws.OneWord | stirc/incnonyy.c:132-273 | one word and what ends it: target or dependency, the colon once, a line end only after the colon |
| DepLaws.SpelledRule | stirc/incnonyy.c:132-273 | a target and a dependency, spelled and spaced in any way, are read back |
| DepLaws.ContinuesExactly | stirc/incnonyy.c:299-332 | a line goes on if and only if an odd number of backslashes stands before its newline |
| DepLaws.JoinedLines | stirc/incnonyy.c:299-395 | lines that go on and the first that does not are one logical line; a last line may end without a newline |
| DepLaws.NeverComplete | stirc/incnonyy.c:333-345 | a text whose every line goes on gives an error |

## Left out

- Process spawning, pipes, signals, timers, select and load average: a child is a rule in a set that may finish at any moment, the jobserver pipe a multiset of bytes that other processes borrow from and return to.
- Failing commands, with and without -k: a failed command under -k gives up a child without returning a token (stirc/stirmake.c:5649), so token accounting is about runs without one.
- Touch mode, dry run, pretend options, unconditional builds, tracing and do_clean: option handling around the decisions modelled here.
- Phony, maybe, rectgt and detouch rules, recursive dependencies, directories and symbolic links: rules are ordinary and files are regular in `NullBuild`, as the null-build promise assumes.
- Adding dependencies while the build runs (add_dep_after_parsing_stage): the graph is fixed once the run loop starts.
- deps_remain is filled from the final graph here, after orders and additional dependencies; the code fills it before process_orders, which adds each order to it (stirc/stirmake.c:5895).
- The memo of stirdep_ruleid, the string table, bytgt, bypid, adddep and the allocators: tables whose content is all that matters here.
- Evaluation of Stirfiles and of commands: command lines are given lists of strings.
- Scheduler.Scheduler.DoExec: does not look at files; whether a rule's commands are needed is a fixed answer per rule there, each rule being decided at most once, and the real decision is `NullBuild.BuildDb.Decide`.
- Scheduler.Scheduler.MarkExecuted: does not check the targets a command was to make; that half, with its ways to give up, is `NullBuild.BuildDb.MarkExecuted`.
- RunLoop.RunLoop.Run: does not model rounds of the loop in which no child has finished, which change nothing, nor children that fail.
- Build.Make: says for every finished run whether the abort for lack of children came, but before the run only under the conditions given above; between them it depends on the order in which children finish.
- Read errors and write errors of the database file and of the output: every write succeeds here, in pieces of any size.
- DbCode.Dbyy.MineParse: does not model files that contain NUL bytes, for which mygetline itself is marked as unfinished (stirc/mygetline.c:94).
- LiteralCode.DecodeInPlace: for a literal without a closing quote it says only that the decoder reports no string or runs past the end of the text, since the unrolled copy does not test for the terminator (stirc/dbnonyy.c:64-73).
- yy_escape_string_single and the accept table of machines without ASCII: the same loops with other constants.
- The first version of the database format and the unused bison grammars.
- neighpath_buflen and the other pathcat functions: the same computation in buffers of fixed size.
- SyncBuf.Buffer.GetBuf: a page from the cache is a page with arbitrary bytes, and the cache only a count, since a page is overwritten before it is read.
- DepFileCode.Parse: does not model files that contain NUL bytes, the growth of the joined line's buffer, nor the prefixing and normalisation that the callbacks apply to each name.
- DepFileCode.Deps: omits the blank skip after the last dependency, which gives no token; `DepFileCode.LastSkip` says when it stays on the line, and at the end of a last line without a newline it does not.
- inset_set, the table the span functions use on machines without ASCII: `DepFileCode.InsetAscii` is its constant for ASCII.
- accesscache.c: the same code as statcache.c.
- Red-black trees and hash functions: a bucket is a map and the hash an arbitrary function.
