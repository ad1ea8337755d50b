# WhiteX: a verified model of its stateful cores

WhiteX is a small i386 kernel. This project models the parts of it that keep state over whole runs, in
Dafny 4.11, and proves what those parts promise. `dafny verify dfyconfig.toml` checks everything.

Where the source changes things in place, the model does too: the process table, the two calculator stacks,
the zones, the bitmap, the page tables, the buffer pool, the ARP cache, the socket table, the node table and
the log ring are classes or arrays whose methods follow the source's loops. Each method is proved equal to a
specification function on values, and the theorems are about those functions and their runs.

- **Calculator** (`CalcArith`, `CalcMachine`, `CalcMeaning`, `CalcGrammar`, `CalcLevels`, `CalcOperators`, `CalcCounts`,
  `CalcExamples`): the shunting-yard loop over two arrays
  of 40 entries computes the value, or the first fault in left-to-right postorder, of the expression tree, for
  every spelling of every well-formed expression that fits the stacks; and every infix string is that of exactly
  one well-formed expression. Every expression of nesting depth at most 7 fits, and 7 is sharp. 32-bit overflow,
  on which C is silent, is the fault `Undefined`. The infix strings are also the sentences of a grammar with one
  nonterminal for each of the four levels of operators, and each sentence is answered as its tree; what each operator
  computes is told by its inverse, by what a quotient leaves, or bit by bit; and for arguments that are no
  expressions the numbers and operators counted tell which answers are possible.
- **Scheduler** (`SchedModel`, `SchedFairness`, `SchedBound`, `SchedCover`, `SchedExact`, `SchedIpc`, `SchedCalls`,
  `SchedTable`):
  every call is a step of the running slot; `scheduler_ipc_receive` is one test of its loop, repeated when the
  slot runs again. Proved over all runs: the exact condition under which waiting is bounded, channels as bounded
  FIFO queues, the one call that loses a wakeup, no return of the dead once they have been switched away, no stranded
  waiter without SIGKILL, and exactly when SIGKILL strands one. For each call: whose state it changes, to what, with
  which reply, and who gives up the processor.

  A process with base b can reach priority max(100, b), its cap. Its rivals are the slots whose base shuts it out
  (at the cap or above in a lower slot, above it in a higher one), which need no rest, and, if its cap is 100, all
  lower slots, which rest for 500 * (100 - base) selections after each turn. Waiting is bounded in every run
  exactly when the rivals cannot take any number of turns in a row, each resting in between. For example, if
  lower bases are below 100 and none exceeds B, a process with at most 500 * (100 - B) slots below it waits
  a bounded time exactly when no base shuts it out; and more than 500 * (100 - b) lower slots with bases of at
  least b make it starve.
- **Page accounting and OOM killer** (`OomModel`, `OomCascade`, `OomOutcome`, `OomControl`, `OomThreads`, `OomAlone`,
  `OomReclaim`): the sequential cascade with the exact memory at which each of the four attempts succeeds, conservation
  of pages over runs, the choice of victim, the order of blame and the bound on kills; and the same code as a step machine of any number of threads, where reclaim adds without the lock, the free counts
  stay above their minimum all the same, and a bound holds on how far above its high watermark a zone is lifted.
- **Paging** (`FrameBits`, `PageModel`, `PageClone`, `PageRuns`, `PageIsolation`, `PageRegions`, `PageShortage`,
  `PageMmu`): both frame searches, ownership of frames over all runs of region calls and clones, what a region call maps
  and unmaps and how many frames it needs to return, allocate-then-free, cloning as
  an isolated copy, what happens when frames run out, and isolation that lasts over every run.
  Runs start from the state `initialize_paging_system` builds, and use virtual addresses from 4 MiB on.
- **Network** (`NetChecksum`, `NetArp`, `NetTcp`, `NetHandshake`, `NetFrames`, `NetAnswers`, `NetPool`, `NetStack`): the
  Internet checksum, the ARP cache, the passive TCP open and that it completes, the packet path from the receive loop
  to the wire, and every answer field by field. Receiving is
  proved equal to `HandledAll`, a function from frames to cache, sockets and frames sent, while no buffer
  leaks, none is touched after it was freed or outside its 4096 bytes, and at most three are live.
- **Directory tree** (`DirTree`, `DirCommands`) and **log ring** (`LogRing`). `Common` holds what several components share.

Some promises turn out to need a condition the code does not check. The model states it exactly, and gives a
run or an input on which the promise fails. Bounded waiting and wakeups need the conditions above. An allocation
takes exactly the pages asked for and leaves the zone its minimum if and only if request and minimum add up below
2^32. Tasks are blamed in the order of their sizes only up to 429496 pages. A process that terminates itself and then
blocks before it is switched away is alive again. A region whose end, rounded up to a page, reaches 2^32 is not
mapped in full. Set-up calls with segments in between can give two connections with the peer whose port and address are 0. That a clone is a full copy holds
if and only if enough frames are free; otherwise `clone_page_directory` panics, returns null or silently leaves
tables out. The log's tamper check never fires on messages that fit their 128-byte field, but fires on almost
every longer one, because the checksum covers a character that is cut off. An echo request is answered within
the buffers if and only if its announced ICMP length lies in 8..3720; other frames are outside the runs.

## Model

| member | source | states |
|---|---|---|
| CalcArith.PowStaysOut | i386/whitex/calc.h:1-8 | once a power has left the 32-bit range no higher power comes back, so checking each product is checking the result |
| CalcArith.Power | i386/whitex/calc.h:1-8 | the loop gives the mathematical power, 0 for a negative exponent, `Undefined` exactly when the power does not fit 32 bits |
| CalcArith.TruncDiv | i386/whitex/calc.h:58-63 | C's quotient: the remainder is smaller than the divisor and has the dividend's sign |
| CalcArith.ApplyOp | i386/whitex/calc.h:52-69 | value or fault of each operator, division and modulo by zero included |
| CalcArith.DigitsReadBack | i386/whitex/calc.h:23-39 | printed digits read back as the number |
| CalcArith.DigitsLength | i386/whitex/calc.h:23-26 | a number below 10^k prints in at most k digits |
| CalcArith.TextFits | i386/whitex/calc.h:10-40 | every 32-bit value prints within 12 bytes, sign and terminator included |
| CalcArith.EmitDigits | i386/whitex/calc.h:23-26 | the digit loop writes the decimal digits in reverse |
| CalcArith.ReverseInPlace | i386/whitex/calc.h:32-39 | the in-place loop reverses the prefix and leaves the rest |
| CalcArith.Itoa2 | i386/whitex/calc.h:10-40 | terminated decimal text of every value but `INT_MIN` |
| CalcMachine.PopOnce | i386/whitex/calc.h:117-125 | one operator applied to the two top values, or the message that ends the command |
| CalcMachine.PopWhile | i386/whitex/calc.h:101-142 | popping while the precedence condition holds equals the specification's drain |
| CalcMachine.DecimalGrows | i386/whitex/calc.h:91-95 | a prefix of a literal never exceeds it, so overflow on the way is overflow of the whole |
| CalcMachine.PushOperator | i386/whitex/calc.h:86-89 | the operator on top, or stack overflow exactly when 40 are pending |
| CalcMachine.PushValue | i386/whitex/calc.h:97-98 | the value on top, or stack overflow exactly when 40 are pending |
| CalcMachine.ScanNumber | i386/whitex/calc.h:91-95 | takes the maximal digit run and its value, `Undefined` exactly when the whole literal does not fit |
| CalcMachine.CloseParen | i386/whitex/calc.h:100-113 | a closing parenthesis applies everything back to its partner |
| CalcMachine.Operator | i386/whitex/calc.h:114-129 | pops everything of at least its precedence, then is pushed, or the stack is full |
| CalcMachine.Consume | i386/whitex/calc.h:83-130 | one pass of the scanner is one token of the specification |
| CalcMachine.Report | i386/whitex/calc.h:132-151 | the final drain prints the one value left, or reports why there is none |
| CalcMachine.Handle | i386/whitex/calc.h:71-152 | the whole routine over its arrays equals the specification for every argument |
| CalcMeaning.ExecAppend | i386/whitex/calc.h:83-130 | running tokens is compositional |
| CalcMeaning.DrainTwice | i386/whitex/calc.h:116-126 | popping to a precedence can be done in two stages |
| CalcMeaning.Correct | i386/whitex/calc.h:83-142 | an expression evaluated on top of any stacks leaves its value above them, or its first fault, or needs too much room |
| CalcMeaning.CalculatorMeaning | i386/whitex/calc.h:71-152 | every spelling of a well-formed expression prints its value or reports its first fault; beyond 40 entries it reports stack overflow, or a fault met before |
| CalcMeaning.LexToken | i386/whitex/calc.h:83-100 | the scanner reads a spelled token back |
| CalcMeaning.SpellReadsBack | i386/whitex/calc.h:71-152 | every well-formed expression has a spelling that the scanner reads back, and the command answers it |
| CalcGrammar.TokensInjective | i386/whitex/calc.h:44-50 | two well-formed trees with the same tokens are the same tree |
| CalcGrammar.EveryInfixHasOneTree | i386/whitex/calc.h:44-50 | the token strings of well-formed trees are exactly the infix ones, each of one tree only |
| CalcGrammar.InfixMeaning | i386/whitex/calc.h:71-152 | on every infix string the command computes the one meaning it has, or runs out of stack |
| CalcLevels.SentenceMeaning | i386/whitex/calc.h:44-152 | a sentence of the grammar bit operators under sums under products under powers, each level to the left, is answered as its tree |
| CalcLevels.EveryInfixIsSentence | i386/whitex/calc.h:44-50 | and every infix string is such a sentence |
| CalcOperators.SumsMean | i386/whitex/calc.h:52-69 | sums and differences undo one another; only what 32 bits cannot hold is undefined |
| CalcOperators.ProductsMean | i386/whitex/calc.h:52-69 | a product divided by its nonzero factor leaves nothing and gives the other one, for `*` and `x` alike |
| CalcOperators.QuotientsMean | i386/whitex/calc.h:58-65 | divisor times quotient plus remainder is the dividend, the remainder is smaller and has its sign; 0 and the one overflow are faults |
| CalcOperators.PowersMean | i386/whitex/calc.h:1-8 | a power is its base times the power before, with a fault exactly when one of the two has one; negative exponents give 0 |
| CalcOperators.BitsMean | i386/whitex/calc.h:66-67 | every bit of a conjunction or disjunction of two's complement numbers is that of the two bits |
| CalcOperators.LiteralsMean | i386/whitex/calc.h:91-95 | a digit more is ten times as much and the digit |
| CalcOperators.TextReadsBack | i386/whitex/calc.h:10-40 | the text printed is digits after an optional minus sign and denotes the value |
| CalcCounts.CountsDecide | i386/whitex/calc.h:71-152 | for any argument: a value is printed only if the numbers are one more than the operators and open parentheses, an invalid expression has another count, fewer numbers break off, and only the empty argument gets the usage |
| CalcCounts.AnswersMean | i386/whitex/calc.h:132-151 | what is printed for an expression reads back as its value; its fault is named; only the least value cannot be printed |
| CalcCounts.LiteralIsEvaluated | i386/whitex/calc.h:91-95 | a literal is its number up to 2147483647 and undefined beyond |
| CalcExamples.WorkedExamples | i386/whitex/calc.h:71-152 | the example of the usage text prints 174, and `7-2*3` prints 1 |
| CalcMeaning.NeedBound | i386/whitex/calc.h:44-50 | with d nested parentheses at most 5d+4 operators are pending |
| CalcMeaning.NoOverflowToDepthSeven | i386/whitex/calc.h:83-130 | no well-formed expression of depth at most 7 overflows, however long |
| CalcMeaning.DeepIsWorst | i386/whitex/calc.h:44-50 | the bound 5d+4 is met at every depth |
| CalcMeaning.DepthEightOverflows | i386/whitex/calc.h:83-130 | a well-formed expression of depth 8 that has a spelling and overflows in every one |
| SchedModel.BestIsFirstMaximum | i386/whitex/multitasking.h:201-220 | the scan picks the first eligible slot of greatest dynamic priority, nobody only if none is eligible |
| SchedModel.NextValid | i386/whitex/multitasking.h:231-509 | every call keeps the table well formed |
| SchedModel.RunValid | i386/whitex/multitasking.h:231-509 | so does every run |
| SchedFairness.NextTame | i386/whitex/multitasking.h:179-229 | every call keeps dynamic priorities between base and cap and accumulators below 500 |
| SchedFairness.PicksFirstMaximum | i386/whitex/multitasking.h:194-265 | the slot that runs next beats every ready slot and starts over at its base; the others only age and wake |
| SchedFairness.PickedIsRival | i386/whitex/multitasking.h:179-229 | once a process shows its cap only a rival that shows it too is picked instead, and starts again at its base |
| SchedFairness.OneMoreTurn | i386/whitex/multitasking.h:179-229 | each further pick is one more turn of a cover: every slot picked has rested since its last turn |
| SchedFairness.WaitRun | i386/whitex/multitasking.h:179-229 | the progress a waiting process has made after any part of a run |
| SchedFairness.BoundedWaiting | i386/whitex/multitasking.h:179-229 | a process nobody stops or kills, whose rivals cannot take n turns in a row, runs within FirstChance + n - 1 selections, whatever the others do |
| SchedBound.HighBaseStarves | i386/whitex/multitasking.h:179-229 | one runnable process with a base at or above the cap in a lower slot, or above it in a higher slot, starves a slot forever |
| SchedBound.WaitsCover | i386/whitex/multitasking.h:179-335 | in every run from the initial table a wait of 50000 + n selections shows n turns of rivals in a row |
| SchedBound.UnfairBasesStarve | i386/whitex/multitasking.h:141-335 | with any base that shuts it out there is a wait of every length |
| SchedCover.TurnPicked | i386/whitex/multitasking.h:179-229 | in the run built from a cover each selection picks the slot whose turn it is |
| SchedCover.CoverWaits | i386/whitex/multitasking.h:141-379 | from any cover of n + 1 turns a run from the initial table in which the process waits n selections |
| SchedExact.BoundedExactly | i386/whitex/multitasking.h:179-379 | for all base priorities and every process waiting is bounded in every run if and only if its rivals cannot take any number of turns in a row |
| SchedExact.FairnessDecides | i386/whitex/multitasking.h:179-335 | if no lower slot rests for fewer selections than there are lower slots, or the base is above 100, waiting is bounded if and only if no base shuts the process out |
| SchedExact.Upto97 | i386/whitex/multitasking.h:179-335 | with lower bases up to 97, or from 100 on, that holds for every slot |
| SchedExact.CrowdCovers | i386/whitex/multitasking.h:179-229 | more lower slots than the longest rest among them can take turns forever |
| SchedExact.CrowdStarves | i386/whitex/multitasking.h:179-379 | more than 500 * (100 - b) lower slots of base b or more make a process with a base up to 100 wait as long as one likes |
| SchedIpc.EnqueueAppends | i386/whitex/multitasking.h:420-426 | writing at the tail appends to the queue |
| SchedIpc.DequeueTakesFirst | i386/whitex/multitasking.h:447-457 | reading at the head takes the oldest message |
| SchedIpc.Replies | i386/whitex/multitasking.h:409-459 | a send fails exactly when too long, without addressee or with 32 pending; a receive gives the oldest message cut to the length asked for |
| SchedIpc.QueueStep | i386/whitex/multitasking.h:409-459 | no call but send and receive touches a queue |
| SchedIpc.ChannelIsFifo | i386/whitex/multitasking.h:409-459 | over every run: what was sent is what was taken, in order, followed by what is still there, at most 32 |
| SchedIpc.WakeupStepExactly | i386/whitex/multitasking.h:409-509 | a call loses a wakeup if and only if it waits for pid 0, a living process has that pid, and the caller has a message pending |
| SchedIpc.WakeupsKeptExactly | i386/whitex/multitasking.h:409-509 | a run keeps every wakeup if and only if it has no such call |
| SchedIpc.WakeupsAreNotLost | i386/whitex/multitasking.h:409-459 | with up to 2^32 - 100 registrations a slot blocked for a message always has an empty channel |
| SchedIpc.WakeupLossExample | i386/whitex/multitasking.h:267-279 | that number is sharp: a run with one registration more that loses a wakeup |
| SchedIpc.TheDeadStayDead | i386/whitex/multitasking.h:194-245 | a dead slot other than 0 that is not running is never revived or scheduled |
| SchedIpc.WaitersAreNotStranded | i386/whitex/multitasking.h:461-509 | without SIGKILL whoever is blocked on a pid waits for a process that is not dead |
| SchedIpc.KillStrandsExactly | i386/whitex/multitasking.h:354-379 | SIGKILL strands a waiter exactly when another slot waits on the victim's pid and no other living slot has it |
| SchedIpc.KillStrandsExample | i386/whitex/multitasking.h:354-379 | a run of four calls that strands the master process |
| SchedCalls.YieldPicks | i386/whitex/multitasking.h:194-245 | a yield moves the clock and, with two slots or more, picks a ready slot, slot 0 exactly for want of any |
| SchedCalls.YieldWakes | i386/whitex/multitasking.h:205-212 | a yield ends the sleep of exactly the processes that are ready |
| SchedCalls.TerminateEnds | i386/whitex/multitasking.h:461-479 | without a slot of the pid the reply is not found, with the master or a critical one a refusal; else the first such slot is dead, its waiters run again, and nobody else changes |
| SchedCalls.ExitEnds | i386/whitex/multitasking.h:481-486 | an exit does that to the caller's pid and yields, and a slot above 0 that it ended is not the next to run |
| SchedCalls.EndedForGood | i386/whitex/multitasking.h:461-486 | in every run a process ended by another or by its exit, above slot 0, never runs and never lives again |
| SchedCalls.DeadStep | i386/whitex/multitasking.h:348-509 | a call revives a dead slot above 0 exactly if that slot is still running and blocks for a message or a living process |
| SchedCalls.DeadExactly | i386/whitex/multitasking.h:348-509 | a run keeps a dead slot above 0 dead if and only if it has no such call |
| SchedCalls.TerminationUndone | i386/whitex/multitasking.h:409-479 | a process that terminates itself, asks an empty channel for a message and is sent one runs again |
| SchedCalls.TerminationUndoneReached | i386/whitex/multitasking.h:141-335 | such a process exists after two registrations and one yield |
| SchedCalls.SignalDoes | i386/whitex/multitasking.h:354-379 | the reply to a signal, the state it gives the first living process of the pid and nobody else, and that a process that kills or stops itself gives up the processor |
| SchedCalls.WaitDoes | i386/whitex/multitasking.h:488-509 | a wait blocks the caller on a living process and gives up the processor; else nothing happens |
| SchedCalls.ReceiveDoes | i386/whitex/multitasking.h:436-459 | a receive blocks and gives up the processor exactly on an empty channel, and touches nobody else |
| SchedCalls.SendDoes | i386/whitex/multitasking.h:409-434 | a send wakes the addressee exactly if it is blocked for a message, and touches nobody else |
| SchedCalls.SleepDoes | i386/whitex/multitasking.h:348-352 | a sleeper above slot 0 that is not yet due is not picked, one that is due is awake |
| SchedCalls.RegisterDoes | i386/whitex/multitasking.h:267-335 | a new process is the last slot, running, with the next pid and nothing pending; the errors are exact and nobody else is touched |
| SchedTable.Scheduler.constructor | i386/whitex/multitasking.h:141-177 | the initial table |
| SchedTable.Scheduler.ApplyAging | i386/whitex/multitasking.h:179-192 | every running slot but the current one ages by one, the rest of the table is untouched |
| SchedTable.Scheduler.Scan | i386/whitex/multitasking.h:201-220 | expired sleeps are cleared and the first maximum found |
| SchedTable.Scheduler.SelectNext | i386/whitex/multitasking.h:194-229 | the selection of the specification, slot 0 when nobody is eligible |
| SchedTable.Scheduler.DoYield | i386/whitex/multitasking.h:231-265 | one tick, one selection, unless only one slot is in use |
| SchedTable.Scheduler.YieldNow | i386/whitex/multitasking.h:231-265 | the call as a step of the specification |
| SchedTable.Scheduler.FindLive | i386/whitex/multitasking.h:358-360 | the lowest slot with this pid that is not dead |
| SchedTable.Scheduler.RegisterProcess | i386/whitex/multitasking.h:267-335 | the table part of registration, with its errors |
| SchedTable.Scheduler.DoSleep | i386/whitex/multitasking.h:348-352 | the call as a step of the specification |
| SchedTable.Scheduler.SendSignal | i386/whitex/multitasking.h:354-379 | the call as a step of the specification, with its reply |
| SchedTable.Scheduler.IpcSend | i386/whitex/multitasking.h:409-434 | the call as a step of the specification, with its reply |
| SchedTable.Scheduler.IpcReceive | i386/whitex/multitasking.h:436-459 | one test of the waiting loop and the delivery, with its reply |
| SchedTable.Scheduler.TerminateProcess | i386/whitex/multitasking.h:461-479 | the call as a step of the specification, with its reply |
| SchedTable.Scheduler.Release | i386/whitex/multitasking.h:468-474 | every waiter of the pid runs again, nobody else changes |
| SchedTable.Scheduler.TerminateCurrent | i386/whitex/multitasking.h:481-486 | the call as a step of the specification |
| SchedTable.Scheduler.WaitPid | i386/whitex/multitasking.h:488-509 | the call as a step of the specification, with its reply |
| OomModel.SlabValid | i386/whitex/oomk.h:117-134 | the slab shrinker only refills zones and never lifts one above WM_HIGH |
| OomModel.CacheValid | i386/whitex/oomk.h:136-150 | nor does the cache shrinker |
| OomModel.Badness | i386/whitex/oomk.h:152-177 | at most 10000, and 0 exactly for the exempt |
| OomCascade.WorstIsFirstMaximum | i386/whitex/oomk.h:179-200 | the victim search gives the first entry of greatest badness, none exactly if all are exempt |
| OomCascade.VictimIsWorst | i386/whitex/oomk.h:179-234 | a victim is the first maximum and never init, critical, unkillable, dead or a zombie; without one the kernel halts |
| OomCascade.AllocEnds | i386/whitex/oomk.h:236-273 | an allocation ends within four attempts and one kill, and takes exactly the pages asked for and leaves the zone its minimum if and only if request and minimum add up below 2^32 |
| OomCascade.AllocBalances | i386/whitex/oomk.h:236-273 | what one allocation takes, reclaims and gets from a kill balances |
| OomCascade.PagesAreConserved | i386/whitex/oomk.h:90-281 | over every run free plus allocated is managed plus reclaimed plus killed |
| OomCascade.KillsNeverExceedTasks | i386/whitex/oomk.h:202-281 | kills never exceed registrations |
| OomOutcome.AllocOutcome | i386/whitex/oomk.h:117-273 | each of the first three attempts succeeds exactly if the zone has the pages and its minimum after that many reclaims; a task is killed or the kernel halts exactly if it has not after both |
| OomOutcome.KillOutcome | i386/whitex/oomk.h:202-273 | then the victim's pages help exactly a request for the normal zone that they make fit; every other one halts the kernel |
| OomOutcome.BlameValue | i386/whitex/oomk.h:152-177 | the score of a plain task is its share of memory in ten thousandths, at least 1 |
| OomOutcome.BlameParts | i386/whitex/oomk.h:160-169 | niceness adds or takes a twentieth of the share a step, rounded toward the share, and the critical mark leaves a quarter |
| OomOutcome.BlameMonotone | i386/whitex/oomk.h:152-177 | without wrapping, more pages, more niceness, a higher adjustment and no critical mark never lower the score |
| OomOutcome.BlameOrder | i386/whitex/oomk.h:160 | no smaller plain task is blamed before a larger one if and only if sizes stay within 429496 pages, where the product wraps |
| OomOutcome.InitWatermarks | i386/whitex/oomk.h:90-115 | each zone starts full, with a 64th, 128th or 256th as its minimum and twice and four times that as low and high |
| OomOutcome.MonitorDoes | i386/whitex/oomk.h:297-303 | the monitor does nothing if no zone is below its minimum, else it kills or halts, at most once a zone |
| OomOutcome.MonitorKills | i386/whitex/oomk.h:220-303 | and the first it kills is the task the killer chooses |
| OomAlone.AloneIsSequential | i386/whitex/oomk.h:72-273 | a thread that nobody disturbs ends with exactly the counters of the sequential cascade |
| OomAlone.MonitorLooks | i386/whitex/oomk.h:297-303 | one look of a monitor alone costs a victim or the thread exactly for a zone below its minimum |
| OomControl.Controller.constructor | i386/whitex/oomk.h:90-115 | the state after `sys_oom_init` |
| OomControl.Controller.ShrinkSlabCaches | i386/whitex/oomk.h:117-134 | equals the specification and returns what the three zones gained, at most 300 |
| OomControl.Controller.ShrinkPageCache | i386/whitex/oomk.h:136-150 | equals the specification, with the amount returned |
| OomControl.Controller.SelectBadProcess | i386/whitex/oomk.h:179-200 | equals the specification |
| OomControl.Controller.SendSigkill | i386/whitex/oomk.h:202-218 | equals the specification |
| OomControl.Controller.TriggerOomKiller | i386/whitex/oomk.h:220-234 | equals the specification |
| OomControl.Controller.TryTake | i386/whitex/oomk.h:243-255 | takes the pages exactly when both checks allow it |
| OomControl.Controller.AllocPages | i386/whitex/oomk.h:236-273 | the retry loop equals the cascade of the specification |
| OomControl.Controller.Register | i386/whitex/oomk.h:275-281 | equals the specification, a full array halting the kernel |
| OomControl.Controller.MonitorCheck | i386/whitex/oomk.h:297-303 | equals the specification |
| OomThreads.StepIsExact | i386/whitex/oomk.h:117-273 | no step of any thread wraps a counter |
| OomThreads.OthersKeep | i386/whitex/oomk.h:72-80 | no step takes back what another thread has checked under its lock |
| OomThreads.StepKeepsInv | i386/whitex/oomk.h:236-273 | every step keeps the invariant of all threads |
| OomThreads.AccountingIsSafe | i386/whitex/oomk.h:72-303 | in every interleaving free counts stay at or above WM_MIN and never wrap, locks exclude, and the monitor never kills |
| OomThreads.MutualExclusion | i386/whitex/oomk.h:72-80 | no two threads hold the same lock |
| OomThreads.RequestMustFit | i386/whitex/oomk.h:243-251 | the subtraction after the check is safe if and only if request plus minimum stays below 2^32 |
| OomThreads.WrappingRequest | i386/whitex/oomk.h:243-251 | a concrete request whose sum wraps: both checks pass and a zone of 64 pages has 65 free |
| OomReclaim.ReclaimIsBounded | i386/whitex/oomk.h:117-303 | in every interleaving of T threads a zone holds at most what it started with, or its high watermark and max(100, high / 2) for each other thread, plus pages of killed tasks; if that stays below 2^32 only requests need to fit |
| OomReclaim.RaceExample | i386/whitex/oomk.h:117-134 | a run of two threads that lifts a zone from below its low watermark above its high one |
| FrameBits.RunOfOne | i386/whitex/paging.h:110-144 | a run of one frame is a clear bit, so the two searches agree |
| FrameBits.Bitmap.SetBit | i386/whitex/paging.h:89-94 | marks that frame only |
| FrameBits.Bitmap.ClearBit | i386/whitex/paging.h:96-101 | clears that frame only |
| FrameBits.Bitmap.TestBit | i386/whitex/paging.h:103-108 | whether the frame is marked |
| FrameBits.Bitmap.FindFirstFreeFrame | i386/whitex/paging.h:110-121 | the lowest clear bit of the whole bitmap, 0xFFFFFFFF exactly when there is none |
| FrameBits.Bitmap.FindContiguousFreeFrames | i386/whitex/paging.h:123-144 | the lowest start of `count` clear frames, 0xFFFFFFFF exactly when there is none or `count` is 0 |
| PageModel.BootOwned | i386/whitex/paging.h:348-369 | the starting state has every frame owned |
| PageModel.AllocEntryOwned | i386/whitex/paging.h:146-160 | giving an entry a frame keeps ownership |
| PageModel.FreeEntryOwned | i386/whitex/paging.h:162-171 | so does taking it away |
| PageModel.MakeTableOwned | i386/whitex/paging.h:173-193 | so does making a page table |
| PageModel.AllocPagesOwned | i386/whitex/paging.h:302-310 | so does allocating a region |
| PageModel.FreePagesOwned | i386/whitex/paging.h:312-319 | so does freeing one |
| PageClone.CloneTableTwin | i386/whitex/paging.h:252-276 | a private twin of the table, exactly when frames for it and its present pages are free |
| PageClone.CloneIsIsolated | i386/whitex/paging.h:278-300 | with enough frames the copy shares the kernel's tables and no others, gives every other table, empty or not, a new frame, maps every other page iff the source does, with equal flags and contents in new frames, and changes nothing old |
| PageClone.CloneIsCompleteExactly | i386/whitex/paging.h:278-300 | a copy with every table is returned if and only if the free frames suffice |
| PageClone.CloneDirOwned | i386/whitex/paging.h:278-300 | cloning keeps ownership even when it leaves tables out |
| PageRuns.NextOwned | i386/whitex/paging.h:146-332 | every call keeps ownership |
| PageRuns.FramesAreOwned | i386/whitex/paging.h:146-332 | in every run low memory, directories, tables and data frames are distinct and exactly the marked ones, each data frame has one entry, and the counter counts them |
| PageRuns.AllocateThenFree | i386/whitex/paging.h:302-332 | allocating and freeing an available region restores bitmap and counter up to new page tables |
| PageIsolation.TablesStayApart | i386/whitex/paging.h:173-332 | in every run a table is in two places only if it is the kernel's table at that slot |
| PageIsolation.RegionCallsStayPrivate | i386/whitex/paging.h:302-319 | in every run a region call on one directory changes no page of another outside the kernel's tables, and no frame's contents |
| PageRegions.RegionAllocates | i386/whitex/paging.h:146-310 | an allocation returns exactly if the free frames cover the pages without a frame and the missing tables; then every page of the region is present, new ones in frames that were free and with the rights asked for, old ones and all others as they were |
| PageRegions.RegionFrees | i386/whitex/paging.h:162-319 | freeing takes the frame from every page of the region, frees exactly those frames and leaves all other pages as they were |
| PageRegions.RegionCovered | i386/whitex/paging.h:302-306 | the walk covers every address of a nonempty region if and only if its end, rounded up, is below 2^32 |
| PageRegions.AllocationMaps | i386/whitex/paging.h:302-332 | in every state of every run: what an allocation needs, and that every address of its region is present after it |
| PageRegions.ReleaseUnmaps | i386/whitex/paging.h:312-332 | in every state of every run a region that was freed is available |
| PageRegions.MappingDoes | i386/whitex/paging.h:195-205 | mapping puts the page into that frame with those rights and marks the frame; it panics exactly if a table is missing and no frame is free |
| PageShortage.TableLeftOut | i386/whitex/paging.h:278-300 | with one frame left, the copy of a directory with a table of its own is returned without a table |
| PageShortage.CloneOutcome | i386/whitex/paging.h:252-300 | null exactly when no frame is free, a whole copy exactly when they suffice, a copy lacking tables exactly when they end between two tables, a panic exactly when they end within one |
| PageShortage.SilentLossExample | i386/whitex/paging.h:278-300 | a run from boot that ends in such a state |
| PageMmu.Paging.constructor | i386/whitex/paging.h:348-365 | leaves the state every run theorem starts from, with every frame owned |
| PageMmu.Paging.MapLowMemory | i386/whitex/paging.h:362-365 | the loop builds the identity mapping, and its first pass takes a frame for the table |
| PageMmu.Paging.MapVirtualToPhysical | i386/whitex/paging.h:195-205 | equals the specification, panicking exactly when it does |
| PageMmu.Paging.AllocateFrame | i386/whitex/paging.h:146-160 | equals the specification, panicking exactly when it does |
| PageMmu.Paging.FreeFrameOf | i386/whitex/paging.h:162-171 | equals the specification |
| PageMmu.Paging.MakePageEntry | i386/whitex/paging.h:173-193 | equals the specification, and names the table made or found |
| PageMmu.Paging.UnmapVirtualPage | i386/whitex/paging.h:207-214 | equals the specification |
| PageMmu.Paging.GetPhysicalAddress | i386/whitex/paging.h:216-222 | the frame of the page plus the offset, 0xFFFFFFFF exactly when unmapped |
| PageMmu.Paging.AllocateMemoryRegion | i386/whitex/paging.h:302-310 | equals the specification, panicking exactly when it does |
| PageMmu.Paging.FreeMemoryRegion | i386/whitex/paging.h:312-319 | equals the specification |
| PageMmu.Paging.CheckRegionAvailability | i386/whitex/paging.h:321-332 | true exactly when no page of the region is present |
| PageMmu.Paging.ClonePageTable | i386/whitex/paging.h:252-276 | equals the specification |
| PageMmu.Paging.NewDirectory | i386/whitex/paging.h:279-285 | an empty directory in the lowest free frame, 0 exactly when none is free |
| PageMmu.Paging.ClonePageDirectory | i386/whitex/paging.h:278-300 | equals the specification, keeps ownership, and a null result changed nothing |
| NetChecksum.FoldIsModulo | i386/whitex/internet.h:201-215 | folding carries is arithmetic modulo 65535 |
| NetChecksum.WxChecksum | i386/whitex/internet.h:201-215 | the loops compute the one's-complement checksum |
| NetChecksum.StoredChecksumVerifies | i386/whitex/internet.h:337-340 | storing the checksum in its zeroed aligned field makes the block check to 0 |
| NetChecksum.ByteOrderIndependent | i386/whitex/internet.h:201-215 | on byte-swapped words the checksum is the byte-swapped checksum |
| NetChecksum.SumAppend | i386/whitex/internet.h:434-447 | word sums of consecutive blocks add up |
| NetChecksum.TcpChecksum | i386/whitex/internet.h:434-447 | the two-loop sum is the checksum of pseudo-header followed by header |
| NetArp.ArpCache.constructor | i386/whitex/internet.h:227-229 | an empty cache |
| NetArp.ArpCache.Update | i386/whitex/internet.h:231-248 | the table refines a map that refuses new keys once it holds 256 |
| NetArp.ArpCache.Lookup | i386/whitex/internet.h:250-258 | finds exactly the map's entry |
| NetArp.CacheKnowsLatest | i386/whitex/internet.h:227-258 | over every history the first 256 different addresses, each with its latest hardware address |
| NetTcp.PassiveOpen | i386/whitex/internet.h:394-458 | with segments arriving between the set-up calls or not: rcv_nxt is the peer's SYN plus 1, state 3 comes only from its later acknowledgement of snd_nxt, and connections are unique but for the peer whose port and address are 0 |
| NetTcp.UniqueStepExactly | i386/whitex/internet.h:394-458 | a call gives two connections with one peer if and only if it is a SYN from that peer for a listener while another socket of the port is connected with it |
| NetTcp.OpenedAtOnce | i386/whitex/internet.h:394-458 | if the set-up calls come in turn, connections are unique with every peer |
| NetTcp.InterleavedExample | i386/whitex/internet.h:394-458 | a run of eight calls, two segments among them, that gives two connections with one peer |
| NetTcp.NullPeerFirst | i386/whitex/internet.h:399-412 | a segment from port 0 of address 0 goes to the first socket of its port without a peer |
| NetTcp.StateOnlyAdvances | i386/whitex/internet.h:394-458 | states go 0 to 1 by listening and 1 to 2 to 3 by segments, one at a time, and a connection never changes its peer or numbers |
| NetTcp.NextUnique | i386/whitex/internet.h:394-412 | the peer search before the listener search keeps connections unique, whatever comes between the set-up calls |
| NetHandshake.SegmentDoes | i386/whitex/internet.h:394-458 | a segment of a known peer reaches its first socket, any other the first listener; a SYN is taken up with the peer and its next number, the acknowledgement of what was sent establishes, and nothing else changes anything |
| NetHandshake.OpenDoes | i386/whitex/internet.h:654-676 | opening makes the first unused socket listen and touches no other |
| NetHandshake.OthersLeave | i386/whitex/internet.h:394-458 | segments of other connections do not disturb one that is being opened |
| NetHandshake.HandshakeCompletes | i386/whitex/internet.h:394-458 | once a port is open, a new peer's answered SYN, any segments of others and the peer's acknowledgement establish that connection |
| NetHandshake.BothEndsAgree | i386/whitex/internet.h:412-458 | a peer that reads the SYN-ACK and acknowledges what it read is connected |
| NetTcp.SocketTable.constructor | i386/whitex/internet.h:390-392 | all sockets closed |
| NetTcp.SocketTable.FindTarget | i386/whitex/internet.h:399-412 | the socket of the peer, else the first listener |
| NetTcp.SocketTable.Socket | i386/whitex/internet.h:654-664 | the first unused socket, -1 exactly when there is none |
| NetTcp.SocketTable.Bind | i386/whitex/internet.h:666-670 | sets the port of a socket in use, refuses others |
| NetTcp.SocketTable.Listen | i386/whitex/internet.h:672-676 | makes a socket in use listen, refuses others |
| NetTcp.SocketTable.OpenListening | i386/whitex/internet.h:654-676 | the three calls in turn open one socket |
| NetFrames.EchoFitsExactly | i386/whitex/internet.h:348-361 | copying an echo payload stays inside both buffers if and only if its length is in 8..3720 |
| NetFrames.ShortEchoExample | i386/whitex/internet.h:348-361 | a frame of 36 bytes that is taken for an echo request and announces a length of 0 |
| NetFrames.HonestFramesAreConsistent | i386/whitex/internet.h:348-361 | a frame whose IP length covers the ICMP header and is covered by the frame meets that condition |
| NetFrames.EchoReplyVerifies | i386/whitex/internet.h:362-369 | an echo reply keeps identifier, sequence number and payload, and checks to 0 |
| NetFrames.SynAckVerifies | i386/whitex/internet.h:422-447 | a SYN-ACK checks to 0 together with its pseudo-header |
| NetFrames.ArpReadsBack | i386/whitex/internet.h:262-312 | an ARP packet sent is understood by the receiving code: it teaches its sender, and a request is answered |
| NetFrames.SynAckReadsBack | i386/whitex/internet.h:424-434 | a SYN-ACK read back has the connection's ports and numbers and both flags |
| NetFrames.SentIpSound | i386/whitex/internet.h:314-346 | everything `wx_ip_send` sends is sound |
| NetFrames.WireIsSound | i386/whitex/internet.h:262-507 | whatever arrives, every frame sent fits the device, carries this host's addresses, and has only checksums that verify |
| NetFrames.RunsAreRuns | i386/whitex/internet.h:283-507 | what frames do to cache and sockets is a history of ARP updates and TCP segments, so their theorems apply |
| NetAnswers.SendingDoes | i386/whitex/internet.h:262-346 | one packet to the hardware address of its destination, or to all, or one request for the address, with every header field |
| NetAnswers.PingIsAnswered | i386/whitex/internet.h:348-372 | an echo request is answered to its source with type 0 and its own identifier, number and data, or its source's address is asked for |
| NetAnswers.ArpIsAnswered | i386/whitex/internet.h:283-312 | an ARP packet teaches its sender, and exactly a request for this host is answered, to its sender |
| NetAnswers.SegmentNumbers | i386/whitex/internet.h:394-397 | ports and numbers are read high byte first |
| NetAnswers.SegmentFlags | i386/whitex/internet.h:158-176 | SYN is the flag of value 2 and ACK that of value 16 |
| NetAnswers.SynIsAnswered | i386/whitex/internet.h:412-450 | a SYN for a listener is taken up, and answered to its source with a SYN-ACK if a buffer and the address are there |
| NetAnswers.SegmentIsDelivered | i386/whitex/internet.h:394-458 | any segment for this host reaches the sockets, and sends nothing unless a listener takes it up |
| NetAnswers.TheRestIsIgnored | i386/whitex/internet.h:469-507 | every other frame changes nothing and is not answered |
| NetPool.Pool.constructor | i386/whitex/internet.h:54-56 | an empty pool |
| NetPool.Pool.Alloc | i386/whitex/internet.h:58-71 | the lowest free buffer, cleared; none exactly when all are in use |
| NetPool.Pool.Free | i386/whitex/internet.h:73-79 | gives up that buffer only |
| NetPool.Pool.Reserve | i386/whitex/internet.h:81-84 | moves both ends of that packet only |
| NetPool.Pool.Pull | i386/whitex/internet.h:97-101 | moves the front of that packet only |
| NetPool.Buf.Pushed | i386/whitex/internet.h:86-89 | the packet gains a header in front and stays inside the buffer |
| NetPool.Buf.Appended | i386/whitex/internet.h:91-95 | the packet gains content at its end and stays inside the buffer |
| NetPool.Pool.Transmit | i386/whitex/internet.h:617-635 | the packet reaches the wire unless longer than 2048 bytes, and the buffer is free on both paths |
| NetStack.Stack.constructor | i386/whitex/internet.h:580-615 | nothing in use, nothing learnt, nothing sent |
| NetStack.Stack.SendArpRequest | i386/whitex/internet.h:262-281 | one request on the wire if a buffer is free, no buffer kept |
| NetStack.Stack.SendArp | i386/whitex/internet.h:265-280 | one ARP frame on the wire, the buffer free |
| NetStack.Stack.SendIpTo | i386/whitex/internet.h:328-345 | the frame with sealed IP header on the wire, the buffer free |
| NetStack.Stack.SendIp | i386/whitex/internet.h:314-346 | consumes the buffer on every path; sends the packet, or asks for the unknown address |
| NetStack.Stack.ProcessArp | i386/whitex/internet.h:283-312 | learns the sender, answers requests for this host, consumes the buffer |
| NetStack.Stack.SendArpReply | i386/whitex/internet.h:290-309 | one reply on the wire if a buffer is free, no buffer kept |
| NetStack.Stack.ProcessIcmp | i386/whitex/internet.h:348-372 | answers echo requests, consumes the buffer, at most two more live |
| NetStack.Stack.SendEcho | i386/whitex/internet.h:359-369 | the echo reply goes out, the buffer free |
| NetStack.Stack.ProcessTcp | i386/whitex/internet.h:394-458 | sockets and wire become what the segment makes of them; consumes the buffer |
| NetStack.Stack.AcceptSyn | i386/whitex/internet.h:414-450 | the listener becomes the connection, and the SYN-ACK goes out if a buffer is free |
| NetStack.Stack.SendSynAck | i386/whitex/internet.h:422-448 | the sealed SYN-ACK goes out, the buffer free |
| NetStack.Stack.ProcessUdp | i386/whitex/internet.h:460-467 | consumes the buffer |
| NetStack.Stack.ProcessIp | i386/whitex/internet.h:469-494 | refuses what is not for this host, hands the rest on; consumes the buffer |
| NetStack.Stack.Dispatch | i386/whitex/internet.h:478-493 | each protocol does what the specification says; consumes the buffer |
| NetStack.Stack.ProcessEth | i386/whitex/internet.h:496-507 | hands the frame on by type; consumes the buffer |
| NetStack.Stack.Receive | i386/whitex/internet.h:637-652 | one frame does what the specification says and leaves the pool as it was, at most three more live |
| NetStack.Stack.Poll | i386/whitex/internet.h:637-652 | so does any sequence of frames: no leak, no use after free, and refinement of `HandledAll` |
| DirTree.NextKeepsInv | i386/whitex/fs.h:32-95 | every operation keeps a way from the current directory to the root |
| DirTree.CurrentReachesRoot | i386/whitex/fs.h:41-95 | after any operations following the parents reaches slot 0 in at most 127 steps through used directories |
| DirTree.RootedExactly | i386/whitex/fssdd.h:30-48 | every used node keeps hanging on the root except exactly when `rm` removes a node with a child |
| DirTree.OrphanIsAdopted | i386/whitex/fssdd.h:14-48 | a run of six operations after which a file is the parent of a file |
| DirCommands.CreationDoes | i386/whitex/fs.h:65-78 | `mkdir` and `touch` put a node of their kind and the first 31 characters of the name into the first free slot, nothing else changes |
| DirCommands.ChangeDoes | i386/whitex/fs.h:80-95 | `cd` moves to the parent or the first directory of the name, or nowhere |
| DirCommands.RemoveDoes | i386/whitex/fssdd.h:30-48 | `rm` frees the first node of the name, file or directory, but not the root, and nothing else |
| DirCommands.InitDoes | i386/whitex/fs.h:41-51 | the root alone is in use |
| DirCommands.CreateThenRemove | i386/whitex/fssdd.h:14-48 | creating under a new name and removing restores the tree if and only if the name has at most 31 characters |
| DirCommands.MakeEnterLeave | i386/whitex/fs.h:65-95 | making, entering and leaving a directory leads back |
| DirCommands.ContentsStay | i386/whitex/fssdd.h:30-48 | every other used node, so what is inside a removed directory too, is left as it is |
| DirTree.Storage.constructor | i386/whitex/fs.h:41-51 | the tree after `init_fs` |
| DirTree.Storage.Init | i386/whitex/fs.h:41-51 | equals the specification, on any table |
| DirTree.Storage.StrCopy | i386/whitex/fs.h:32-39 | the first 31 characters |
| DirTree.Storage.CreateNode | i386/whitex/fs.h:65-78 | `mkdir` and `touch`: a child in the first free slot, nothing exactly when the table is full |
| DirTree.Storage.Cd | i386/whitex/fs.h:80-95 | the parent, or the first child directory of that name |
| DirTree.Storage.Rm | i386/whitex/fssdd.h:30-48 | frees the first child of that name, never the root |
| LogRing.CalculateChecksum | i386/whitex/Kernel.c:153-159 | the hash of at most `len` characters |
| LogRing.SafeCopy | i386/whitex/Kernel.c:175-183 | at most `max - 1` characters |
| LogRing.HashIsWeighted | i386/whitex/Kernel.c:153-159 | the checksum is 5381 and the characters weighted by powers of 33, cut to 32 bits once |
| LogRing.OneChangeIsDetected | i386/whitex/Kernel.c:153-159 | altering any one character of a stored text makes the check fire |
| LogRing.FalseAlarmExactly | i386/whitex/Kernel.c:196-210 | an untouched entry makes the check fire if and only if its text has 128 characters or more and the 128th does not fix the hash |
| LogRing.LongTextsAlarm | i386/whitex/Kernel.c:196-210 | in particular whenever that character is not a multiple of 32 |
| LogRing.AlarmExample | i386/whitex/Kernel.c:196-210 | a concrete message that fires it |
| LogRing.ShortTextsNeverAlarm | i386/whitex/Kernel.c:372-393 | with messages up to 127 characters every recent entry is whole and the check never fires |
| LogRing.Log.constructor | i386/whitex/Kernel.c:196-210 | an empty log |
| LogRing.Log.WriteLog | i386/whitex/Kernel.c:196-210 | walking from the head gives the last min(n, 128) writes in order |
| LogRing.Log.Show | i386/whitex/Kernel.c:372-393 | shows exactly those, up to the first that fails the check |

## Left out

- CalcArith.Itoa2: does not cover `INT_MIN`, whose negation overflows in C; the calculator reports `Undefined` for it.
- CalcMachine.Handle: the two wordings of the division and modulo errors are one fault each, and the usage message stands for all of its lines.
- NetTcp.PassiveOpen: sockets are bound while they are closed, and opened once; nothing in the source calls for more.
- NetFrames.EchoFitsExactly: echo requests outside its condition make the source read or write outside its buffers; the runs exclude them.
- OomThreads.AccountingIsSafe: which task the killer picks is left open, so the pages it gives back are any number; sums are assumed to stay below 2^32. RequestMustFit shows that requests need this; for the other sums ReclaimIsBounded derives it.
- OomCascade.PagesAreConserved: the pointer `sys_alloc_pages` returns is not modelled; it does not name distinct pages.
- OomOutcome.BlameOrder: a memory of more than 2147480000 pages, in which all scores are nearly 1.
- OomOutcome.BlameMonotone: niceness below -20, at which the score wraps.
- PageClone.CloneIsIsolated: directories and tables are objects named by their frame; that a directory is larger than the one frame reserved for it is not modelled, nor are `physical_tables`, TLB flushes and the hardware layout of entries.
- PageMmu.Paging.constructor: the count of system frames, the interrupt handler and the switch to the new directory; `identity_map_region`, which nothing calls.
- The page fault handler: as written it sends not-present faults to the panic.
- NetPool.Pool.Transmit: descriptor rings, device registers and byte counters; waiting for completion is one step.
- `wx_pkg_listen`, which sets a TCP state directly.
- DirTree.Storage.CreateNode: reading a name from the keyboard into 32 bytes, and the messages printed; `ls`, `pwd` and writing the table to disk change nothing in it.
- LogRing.Log.WriteLog: the canary test before it, which halts the machine.
- Signals other than SIGKILL, SIGSTOP and SIGCONT: pending bits, handlers, and the parent and metric fields of a process.
- Process stacks, context switches, interrupts, port access, and every user interface.
- The heap of `malloc.h`: reuse shrinks blocks without splitting, so no invariant holds over its runs.
- The virtual machine, descriptor tables and command dispatch are not modelled.
