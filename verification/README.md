# Verified models of the course programs

The repository holds programs from an operating-systems course. This project models the ones
that contain an algorithm or a protocol and proves what they are for. Each module stands for one
program; the larger programs have several, and `Basics` is shared.

| Module | Program | Form |
|---|---|---|
| `CyclicRegion`, `AtomicQueue`, `QueueSteps`, `QueueCalls` | lock-free byte queue, `src/atomic/one-to-one-queue.h` | arithmetic of the ring; class over an array; interleaved steps; whole calls |
| `DivisorPairs`, `DivisorLoop`, `DivisorRounds`, `DivisorRuns`, `DivisorOrder` | parallel divisor search, `src/fork/divisors/main.c` | ranges; loop on 64-bit words, class over the slots; interleaved steps; whole runs; order of the report |
| `Expression`, `Limits`, `OperationGraph`, `GraphProgram` | expression graphs with derivatives, `src/nn` | meaning; limits over the reals; heap nodes; the program |
| `Semaphore` | mutex and condition variable, `src/cppthread/thread/main.cpp` | interleaved steps |
| `PingPong` | pipe and signals, `src/signal/ping-pong/main.c` | interleaved steps |
| `EventfdRing` | token ring, `src/fork/evfd-sync/main.c` | interleaved steps |
| `SequencePrint` | shared counter and signals, `src/signal/sequence_print/main.c` | interleaved steps |
| `AtomicList` | compare-and-exchange push, `src/atomic/list/main.c` | interleaved steps |
| `Leb128` | incremental signed LEB128 decoder, `src/mmap/sample4/main.c` | class; integers |
| `RelativeTree` | trees with relative links, `src/sample5/main.c` | arrays; trees |
| `MergeStreams` | merge of integer streams, `src/files/main.c` | loops over arrays; sequences |

**Step systems.** A program that runs as several threads or processes is a `State`, an `Action`
datatype, `Enabled` and `Do`. One action is one shared access (a load, a store, one copied byte, a
fetch-and-add, an eventfd or pipe operation, a signal), and `IsRun` lets the actions of all
participants interleave in any order. Every module of this kind gives an invariant, proves that
every action keeps it, and derives statements about all states of all runs. Fields marked as history
do not influence the program. Pipes are FIFO sequences, an eventfd is a counter that a read empties
and on which a read of 0 blocks, and a signal is one pending bit, so that two signals can merge.
Numbers of threads, processes, children and streams that the programs fix are parameters here.

**Where the code falls short of a plain reading.**

- The queue's `size_t` formulas are exact if and only if the ring takes at most half of the
  address range (`CyclicRegion.FormulasExactIffHalfWord`). Every C object is that small.
- Two divisor requests stop the program for ever, 0 and 2^64 - 1. Writing 0 to an eventfd wakes
  nobody, so the branch of `loop_fd` for 0 is never taken, and writing 2^64 - 1 is refused.
  `DivisorRuns.StuckRun` gives the runs, and `DivisorRuns.StuckIffNotCarried` shows that no other
  request stops it.
- The responses to a request can be more than the 64 slots, which the source does not check: 10080
  has 70 (`DivisorRuns.TenThousandEightyIsTooMuch`). The number is that of the divisors between 1 and
  the value, and one more for a perfect square (`DivisorRuns.HowManyResponses`). A request is
  reported if and only if an eventfd carries it and that number is at most 64
  (`DivisorRuns.EveryRequestEnds`).
- `i * i <= value` wraps: a range loop runs past the root if and only if the range contains 2^32
  and the value is at least (2^32 - 1)^2 (`DivisorLoop.LoopOverrunsIff`). It happens for 2^64 - 2,
  where the rounding of an 80-bit `sqrtl` makes the root 2^32 + 1
  (`DivisorLoop.LargestRequestOverruns`). The responses are wrong if and only if a candidate past the
  root divides the value (`DivisorLoop.RightIffNoneStrays`), which is not so there
  (`DivisorLoop.LargestRequestStraysNowhere`).
- The check-then-pause of `wait_signal` can miss its wake-up. `SequencePrint.MissIsReachable` gives
  the run, and `SequencePrint.GoesOnUnlessMissed` shows that nothing else stops the program.
- `concat_left` with an empty second block leaves a link past the end
  (`RelativeTree.GraftFitsIff`).

`dafny verify dfyconfig.toml` checks the whole project.

## Model

| member | source | states |
|---|---|---|
| Basics.WordIs | src/atomic/one-to-one-queue.h:7-9 | a `size_t` has 8 bytes, and 256^8 values |
| CyclicRegion.FormulasAreExact | src/atomic/one-to-one-queue.h:32-62 | the wrapping `size_t` formulas for free and available bytes give the true distances round the ring, one slot reserved |
| CyclicRegion.FormulasExactIffHalfWord | src/atomic/one-to-one-queue.h:32-62 | they do so for all offsets exactly if the ring is at most half of the address range |
| CyclicRegion.AppendBytes | src/atomic/one-to-one-queue.h:39-49 | writing bytes only to the positions behind a region, across the wrap or not, extends the bytes of the region by them |
| CyclicRegion.DropBytes | src/atomic/one-to-one-queue.h:69-79 | advancing the read offset cuts the region into what was read and what is left |
| CyclicRegion.UsedAndFreeAreDisjoint | src/atomic/one-to-one-queue.h:30-49 | no position in use is among the free positions behind it |
| AtomicQueue.Queue.Init | src/atomic/one-to-one-queue.h:12-21 | null exactly if the buffer cannot hold three `size_t` fields, otherwise an empty queue over the rest of the buffer |
| Basics.Memcpy | src/atomic/one-to-one-queue.h:41-46 | copies the block and leaves every other byte |
| AtomicQueue.Queue.TryEnqueue | src/atomic/one-to-one-queue.h:23-51 | succeeds exactly if the bytes fit beside the contents with one slot to spare, then appends all of them; on failure or for size 0 nothing changes |
| AtomicQueue.Queue.TryDequeue | src/atomic/one-to-one-queue.h:53-81 | succeeds exactly if that many bytes are there, then hands out the oldest ones in order and keeps the rest; otherwise nothing changes |
| QueueSteps.CopyInSimulates | src/atomic/one-to-one-queue.h:40-46 | a byte copied in, at any moment of a dequeue, leaves the published bytes and the reader's copies alone |
| QueueSteps.StoreWriteSimulates | src/atomic/one-to-one-queue.h:49 | the store of the write offset publishes all of the call's data behind the other bytes, and the call is answered with it |
| QueueSteps.StoreReadSimulates | src/atomic/one-to-one-queue.h:79 | the store of the read offset takes exactly the bytes in the caller's buffer off the front, and the call is answered with them |
| QueueSteps.LoadReadSimulates | src/atomic/one-to-one-queue.h:31-36 | at the load of the read offset an enqueue goes on with all its data exactly if that fits beside the contents, and is rejected otherwise |
| QueueSteps.LoadWriteSimulates | src/atomic/one-to-one-queue.h:60-66 | at the load of the write offset a dequeue goes on exactly if the contents suffice for its size, and is rejected otherwise |
| QueueSteps.ActionSimulates | src/atomic/one-to-one-queue.h:23-81 | every step of either side keeps the invariant and is either invisible or one correct call of a bounded FIFO at that step |
| QueueSteps.Linearizable | src/atomic/one-to-one-queue.h:23-81 | in every state of every run the finished calls, in the order of their effects, are a legal history of one FIFO of `memory_size - 1` bytes that ends with the published bytes |
| QueueSteps.ReplayConserves | src/atomic/one-to-one-queue.h:23-81 | a legal history loses, repeats and reorders no byte |
| QueueSteps.DequeuedIsPrefixOfEnqueued | src/atomic/one-to-one-queue.h:23-81 | in every run the bytes handed out are a prefix of the bytes taken in, and the rest is in the queue |
| QueueSteps.RegionsAreDisjoint | src/atomic/one-to-one-queue.h:30-79 | in every run the region being written meets neither the published bytes nor the region being read, and the offsets stay inside the buffer |
| QueueCalls.CallsAreAnswered | src/atomic/one-to-one-queue.h:23-81 | in every run the events of each side answer its calls one by one and in order, each with the argument of its own call: all of the data or a rejection, that many bytes or a rejection; a call not answered is the last one, and under way |
| QueueCalls.EnqueueAnswered | src/atomic/one-to-one-queue.h:23-51 | between a moment at which an enqueue is under way and the next one at which the producer is idle, exactly one event of the producer is added, for the call's own data |
| QueueCalls.DequeueAnswered | src/atomic/one-to-one-queue.h:53-81 | the same for a dequeue and the size it asked for |
| QueueCalls.BufferIsReported | src/atomic/one-to-one-queue.h:68-80 | what a dequeue reports is what the caller's buffer holds |
| QueueCalls.CallsAreWaitFree | src/atomic/one-to-one-queue.h:23-81 | in every state of every run a thread inside a call can take a step, each step of its own brings the call nearer to its end, and no step of the other thread changes that |
| DivisorPairs.PairsSplit | src/fork/divisors/main.c:54-64 | two adjacent ranges, each cut at the root, produce what their union produces |
| DivisorPairs.SharesJoin | src/fork/divisors/main.c:51-58 | the ranges of the first workers, raised to 2, join without gap or overlap |
| DivisorPairs.PairsCount | src/fork/divisors/main.c:58-64 | how often each number is among the responses of a range: once as a divisor up to the root, once as a cofactor of one |
| DivisorPairs.SharesAreTheDivisors | src/fork/divisors/main.c:51-64 | cut at the true root, all workers together respond with every divisor other than 1 and the value once, the root of a square twice, and with nothing else |
| DivisorLoop.WrittenSplits | src/fork/divisors/main.c:58-64 | what the 64-bit loop writes is what a loop cut at the root would write, followed by what it writes past the root |
| DivisorLoop.LoopOverrunsIff | src/fork/divisors/main.c:58 | the 64-bit guard examines a candidate past the root exactly if the range contains 2^32 and the value is at least (2^32 - 1)^2 |
| DivisorLoop.OverrunsIffRootTooLarge | src/fork/divisors/main.c:51-58 | with 8 workers and a computed root of the integer root plus 1 or 2, exactly the last worker passes the root, and exactly if the computed root exceeds 2^32 |
| DivisorLoop.LargestRequestOverruns | src/fork/divisors/main.c:51-58 | for 2^64 - 2 and a computed root of 2^32 + 1 the last worker does examine 2^32 |
| DivisorLoop.LargestRequestStraysNowhere | src/fork/divisors/main.c:51-64 | yet no candidate it examines past the root divides 2^64 - 2 |
| DivisorLoop.RightIffNoneStrays | src/fork/divisors/main.c:51-64 | for every request and number of workers, where the ranges reach the root: the responses are the divisors, each as often as it should be, exactly if no worker examines a divisor past the root |
| DivisorLoop.RightForEveryRequest | src/fork/divisors/main.c:51-64 | for every request that an eventfd carries, with either rounding of the root, the 8 workers respond with the divisors, each as often as it should be |
| DivisorLoop.ResponsesCount | src/fork/divisors/main.c:58-64 | then there is one response for every divisor between 1 and the value and one more for a perfect square |
| DivisorLoop.TooManyFor10080 | src/fork/divisors/main.c:58-64 | there are 70 responses to 10080 |
| DivisorLoop.Context.Respond | src/fork/divisors/main.c:61-62 | the cursor moves on; the store is inside the array exactly if the cursor was, and changes that slot only |
| DivisorLoop.Context.RespondBoth | src/fork/divisors/main.c:59-63 | both responses are stored behind the others, or the array is full of the first ones and a store is past it |
| DivisorLoop.Context.Serve | src/fork/divisors/main.c:47-66 | one worker alone, for any value: nothing for 0; otherwise it appends exactly its responses and replies, or fills the array and stores past it, exactly if they do not fit |
| DivisorRounds.StepKeepsInv | src/fork/divisors/main.c:42-113 | every step of parent and workers keeps the invariant, for every request: claimed and unclaimed responses together are those of the request, every claimed slot is written or held by its claimant, and a slot past the array is accessed only if there are too many |
| DivisorRounds.RoundIsComplete | src/fork/divisors/main.c:103-113 | when the parent reads the array every worker waits, and the array holds the responses in the order of their claims, all inside it |
| DivisorRuns.RunKeepsInv | src/fork/divisors/main.c:42-113 | the invariant holds in every state of every run of any number of rounds |
| DivisorRuns.NoWorkerActiveWhenParentTouchesSlots | src/fork/divisors/main.c:61-113 | no worker is in its loop while the cursor is reset or the array read, and no two workers hold one slot |
| DivisorRuns.SlotsHandedOut | src/fork/divisors/main.c:61-62 | the cursor never passes the number of responses to the request; if that is at most 64 every slot held is inside the array, and a round that reports has such a number |
| DivisorRuns.ReportsAreTheDivisors | src/fork/divisors/main.c:93-113 | every report of every run lists all responses to its own request and no others, these fit the array, and the lines are the divisors (without 1 and the value, a square root twice) exactly if no worker examines one past the root |
| DivisorRuns.StuckIffNotCarried | src/fork/divisors/main.c:45-50 | while a request is under way and no access was outside the array, no step is possible exactly if the request is 0 or 2^64 - 1 and has been sent to all workers |
| DivisorRuns.StuckRun | src/fork/divisors/main.c:99-105 | from any start, a run to such a state for either request |
| DivisorRuns.StepLowersMeasure | src/fork/divisors/main.c:42-113 | every step but a new request lowers a measure over candidates left, claims and the parent's turn |
| DivisorRuns.EveryRequestEnds | src/fork/divisors/main.c:93-113 | from every state between two requests, every request ends within a bound in exactly one of three ways: never answered if no eventfd carries it, reported in full if its responses fit, an access past the array otherwise |
| DivisorRuns.EveryRequestIsComputable | src/fork/divisors/main.c:51-56 | with 8 workers no range bound of any 64-bit request wraps |
| DivisorRuns.EightWorkersAreRight | src/fork/divisors/main.c:93-113 | with 8 workers every report of every run lists each number exactly as often as it should be: every divisor other than 1 and the value once, a square root twice, nothing else; at most 64 lines, with their number |
| DivisorRuns.HowManyResponses | src/fork/divisors/main.c:58-64 | the number of responses that decides whether a request is reported, from the request alone |
| DivisorRuns.TenThousandEightyIsTooMuch | src/fork/divisors/main.c:61-62 | the program's own configuration at 10080: 70 responses for 64 slots |
| DivisorOrder.StepKeepsOrder | src/fork/divisors/main.c:58-64 | every step keeps what a worker has claimed, followed by what it still has to claim, equal to its share in loop order |
| DivisorOrder.RunKeepsOrder | src/fork/divisors/main.c:58-113 | in every run each report is an interleaving of the shares of the workers, each in its own order |
| DivisorOrder.DivisorBeforeCofactor | src/fork/divisors/main.c:59-113 | every report lists each divisor up to the root before its cofactor |
| Expression.DifferenceIsSlope | src/nn/pairwise.c:20-98 | for every expression and step, f(x + h) - f(x) is h times the recursively defined slope |
| Expression.DerivativeIsSlope | src/nn/pairwise.c:25-91 | the derivative expression is defined wherever the expression is and equals the slope for h = 0 |
| Limits.EvalNear | src/nn/pairwise.c:20-81 | near a point where it is defined, an expression stays defined and is continuous with an explicit constant |
| Limits.SlopeNear | src/nn/pairwise.c:25-91 | so is its slope |
| Limits.DerivativeIsLimit | src/nn/pairwise.c:25-91 | for every epsilon a delta within which all difference quotients are that close to the derivative's value |
| Limits.DerivativeConverges | src/nn/pairwise.c:25-91 | the value of the derivative expression is the limit of the difference quotients, for every expression where it is defined |
| OperationGraph.Operation.constructor | src/nn/pairwise.c:6-17 | a new node ranks above its inputs, reaches itself and what they reach, and has an arbitrary cache |
| OperationGraph.Operation.Compute | src/nn/pairwise.c:20-81 | the node takes the value of its operation on the cached values of its inputs, spelled out for each kind; nothing else changes |
| OperationGraph.ResetGraph | src/nn/nn.h:10-18 | a forced reset, or an unforced one where uncomputed nodes are closed under inputs, clears all reachable nodes and no others; a node is cleared after its inputs; an unforced reset runs each input loop at most once |
| OperationGraph.ClosedThroughout | src/nn/nn.h:10-18 | after any number of the clearings of a reset, also an interrupted one, the uncomputed nodes of any graph around it are still closed under inputs |
| OperationGraph.UncomputedBelow | src/nn/nn.h:11-13 | where uncomputed nodes are closed under inputs, the early return skips nothing that is computed |
| OperationGraph.SettledMeansEval | src/nn/nn.h:21-31 | where no cached value is garbage, a computed node and all below it hold the value of their expressions |
| OperationGraph.ComputeGraph | src/nn/nn.h:21-31 | runs the compute function of uncomputed reachable nodes only, each once; a node that was run ends with computed inputs and the value of its operation on them; all other caches stay |
| OperationGraph.Evaluate | src/nn/main.c:20-23 | from arbitrary caches, forced reset and compute return the value of the expression, and leave every reachable node run once and with the value that its kind gives it: the variable, the constant, the sum, difference, product or quotient of its inputs' cached values |
| OperationGraph.MakePairwise | src/nn/pairwise.c:6-17 | a new well-formed node over existing ones, whose expression combines theirs |
| OperationGraph.MakePlaceholder | src/nn/inputs.c:18-33 | a new leaf that means its variable |
| OperationGraph.MakeConst | src/nn/inputs.c:42-57 | a new leaf that means its constant |
| OperationGraph.DerivativeMul | src/nn/pairwise.c:61-68 | the product rule, sharing the original operands and the given derivatives, all other nodes new |
| OperationGraph.DerivativeDiv | src/nn/pairwise.c:82-91 | the quotient rule, sharing the original operands and the given derivatives, all other nodes new |
| OperationGraph.Derivative | src/nn/pairwise.c:25-91 | terminates, changes no existing node, and returns an acyclic graph of new and original nodes that means the derivative |
| OperationGraph.ValueAndDerivative | src/nn/main.c:15-23 | value and derivative, evaluated in either order over shared nodes, are both right, the second being the limit of the difference quotients |
| GraphProgram.BuildExample | src/nn/main.c:9-15 | the graph of `x * x / (x * x + 1)`, sharing `x` and `x * x` |
| GraphProgram.Program | src/nn/main.c:6-24 | for every value of the variable the program computes r with r (x^2 + 1) = x^2 and dr with dr (x^2 + 1)^2 = 2 x |
| Semaphore.StepKeepsWakeups | src/cppthread/thread/main.cpp:78-90 | every step keeps a wake-up under way for every permit while a thread sleeps |
| Semaphore.StepKeepsInv | src/cppthread/thread/main.cpp:78-90 | every step keeps that and mutual exclusion |
| Semaphore.NoLostWakeup | src/cppthread/thread/main.cpp:78-90 | in every run, with barging and spurious wake-ups: no wake-up is lost, the counter is the initial value plus the steps that leave the middle of a release minus those that enter the end of an acquire, one thread has the lock |
| Semaphore.CounterFollowsPhases | src/cppthread/thread/main.cpp:78-90 | the counter told from the phases of the threads in the run alone |
| Semaphore.CounterFollowsCalls | src/cppthread/thread/main.cpp:78-90 | the counter is the initial value plus the calls of release minus the calls of acquire, except for the calls that are not that far yet |
| Semaphore.InternalStepsRunOut | src/cppthread/thread/main.cpp:78-90 | every step other than a new call or a spurious wake-up lowers a measure |
| Semaphore.QuietMeansNoPermit | src/cppthread/thread/main.cpp:78-90 | when nothing can move, every thread is outside, or asleep with the counter at 0 |
| Semaphore.SleepersGetTheirPermits | src/cppthread/thread/main.cpp:78-90 | from every reachable state, once calls cease, the program stops within a bound and then nobody sleeps beside a permit |
| Semaphore.QuietTellsAll | src/cppthread/thread/main.cpp:78-90 | when the program has stopped by itself, the sleepers are exactly the acquires for which there is no permit, and the counter is exactly the permits not asked for |
| PingPong.StepKeepsInv | src/signal/ping-pong/main.c:45-101 | every step of the parent and the two children keeps the invariant |
| PingPong.PrintsInOrder | src/signal/ping-pong/main.c:54-70 | in every run line j is number j, by child 1 if j is odd and by child 2 if it is even, up to n |
| PingPong.SignalsFindNonePending | src/signal/ping-pong/main.c:65-101 | in every run no signal is sent to a child that has one pending, so none merges with another |
| PingPong.MessagesReachTheirReader | src/signal/ping-pong/main.c:47-60 | in every run whoever can read the shared pipe gets the message meant for it |
| PingPong.EveryRunEnds | src/signal/ping-pong/main.c:54-101 | every run is bounded and stops only with both children exited, all lines printed and max(n, 1) + 1 numbers read |
| EventfdRing.StepKeepsInv | src/fork/evfd-sync/main.c:51-71 | every step keeps the invariant, for any number of processes and any limit |
| EventfdRing.PrintsInOrder | src/fork/evfd-sync/main.c:57-71 | in every run the numbers printed are 1, 2, ... within the limit, and number x is only ever read by process (x - 1) mod T |
| EventfdRing.AtMostOneToken | src/fork/evfd-sync/main.c:57-66 | in every state at most one eventfd or process holds a token |
| EventfdRing.EveryRunEnds | src/fork/evfd-sync/main.c:51-71 | every run is bounded and stops only with all processes exited, after max(limit, 1) + T - 1 reads |
| SequencePrint.StepKeepsInv | src/signal/sequence_print/main.c:24-83 | every step of the processes and of their signal handlers keeps the invariant |
| SequencePrint.PrintsInOrder | src/signal/sequence_print/main.c:60-83 | in every run the printf calls are 0, 1, 2, ... with value v by child v mod the number of children; the counter is their number, or one more while a child is at its call; it never passes the limit, and is reached when the parent is done |
| SequencePrint.AtMostOneActs | src/signal/sequence_print/main.c:62-83 | in every state at most one process acts, so the load and store of `(*mem)++` lose no update |
| SequencePrint.GoesOnUnlessMissed | src/signal/sequence_print/main.c:24-29 | in every reachable state the process whose turn it is can go on exactly if it has not missed its wake-up and the program has not ended |
| SequencePrint.MissedForEver | src/signal/sequence_print/main.c:24-29 | in every run that goes on from a missed wake-up it stays missed, and nothing is printed or counted any more |
| SequencePrint.MissIsReachable | src/signal/sequence_print/main.c:24-29 | a run in which the wake-up is missed before anything is printed |
| SequencePrint.EveryRunEnds | src/signal/sequence_print/main.c:60-83 | every run is bounded, and one that cannot go on has made all printf calls or missed a wake-up |
| AtomicList.StepKeepsInv | src/atomic/list/main.c:15-23 | every step of any number of pushers keeps the list and what each has loaded consistent |
| AtomicList.ListIsPushedThenOriginal | src/atomic/list/main.c:15-23 | in every run the chain from the head is finite, without repetition, and is the pushed nodes, latest first, followed by the original list |
| AtomicList.HeadTellsPushes | src/atomic/list/main.c:17-19 | the head equals the loaded one exactly if nothing was pushed since: an old head cannot come back |
| AtomicList.SwapSucceedsIffNothingPushed | src/atomic/list/main.c:19 | in every run the exchange can succeed exactly if no push went through since the load |
| AtomicList.InListIffFinished | src/atomic/list/main.c:15-23 | a node is in the list exactly if its push has finished |
| AtomicList.SuccessPutsNodeFirst | src/atomic/list/main.c:18-21 | a thread that leaves its exchange for anything but another try is done, its node is the head and leads to the former head |
| AtomicList.PushesAreBounded | src/atomic/list/main.c:15-23 | without spurious failures a run of n pushes has at most 3 n^2 steps: a thread fails at most once for every push of another one |
| AtomicList.EveryPushTakesEffect | src/atomic/list/main.c:15-23 | a run that cannot go on, but for spurious failures, has every thread done, and the chain from the head visits the nodes of all threads, each once, and then the original list |
| Leb128.OneGroup | src/mmap/sample4/main.c:42-60 | one byte below 128 stands for itself, less 128 from 64 on |
| Leb128.ValueHead | src/mmap/sample4/main.c:42-60 | one more byte in front contributes its low seven bits, below 128 times the rest |
| Leb128.StandardExamples | src/mmap/sample4/main.c:42-60 | the eight examples of section 7.6 of DWARF Version 5 |
| Leb128.EncodeMeansValue | src/mmap/sample4/main.c:42-60 | for every integer, the encoding is well formed and the groups of its bytes, with the sign of the last, give the integer back |
| Leb128.EncodeIsShort | src/mmap/sample4/main.c:42-60 | a number of 7n + 7 bits, sign included, takes at most n + 1 bytes, so a 32-bit number at most five |
| Leb128.DecodeOne | src/mmap/sample4/main.c:42-60 | one encoding, whatever follows it, decodes to its signed value modulo 2^32 and leaves the rest |
| Leb128.RoundTrip | src/mmap/sample4/main.c:113-117 | decoding the concatenated encodings of any 32-bit numbers gives exactly these numbers |
| Leb128.DigitsOfAndOr | src/mmap/sample4/main.c:49-51 | the modelled `&` and `|` are those of each binary digit |
| Leb128.OrShifted | src/mmap/sample4/main.c:49 | oring a shifted word above smaller bits adds it, modulo 2^32 |
| Leb128.AddGroup | src/mmap/sample4/main.c:49 | the word after a byte is the number made of the groups so far, modulo 2^32 |
| Leb128.Finish | src/mmap/sample4/main.c:51-55 | the sign extension, skipped after five bytes, gives the signed value modulo 2^32 |
| Leb128.Parser.PutChar | src/mmap/sample4/main.c:42-60 | -2, `*res` as it was, and one more group while bytes have the top bit; otherwise 0 and the signed value of the bytes read, the parser being ready for the next number |
| Leb128.DecodeAll | src/mmap/sample4/main.c:113-117 | the loop over the bytes prints the numbers that the bytes decode to |
| RelativeTree.GetLeft | src/sample5/main.c:15-21 | null exactly if the left subtree is empty, otherwise the index where that subtree decodes, which the link gives |
| RelativeTree.ConcatLeft | src/sample5/main.c:23-38 | a new array with every node of both blocks as it was, but for the one new link; the given arrays may be the same and stay as they are |
| RelativeTree.Program | src/sample5/main.c:40-50 | the program prints "abc" |
| RelativeTree.AtIsWalk | src/sample5/main.c:8-21 | a path that leads to a node follows links of the array, each the distance to the child |
| RelativeTree.WalkIsAt | src/sample5/main.c:8-21 | and every walk along such links is a path |
| RelativeTree.LabelsAreTexts | src/sample5/main.c:8-21 | the tree has at every path the text of the node that it leads to, and nothing where it leads nowhere |
| RelativeTree.GraftFitsIff | src/sample5/main.c:36 | the new array keeps its links forward and in range exactly if the second block is not empty |
| RelativeTree.BlockIsRelocated | src/sample5/main.c:32 | every node of the second block decodes at its new place as before |
| RelativeTree.GraftReplaces | src/sample5/main.c:23-38 | from any node, also with shared nodes, the new array means the old tree with the second tree as left subtree wherever the chosen node occurs |
| RelativeTree.GraftOnTree | src/sample5/main.c:23-38 | in a tree exactly the left subtree of the chosen node is replaced; for a node that the root does not lead to, nothing is |
| RelativeTree.ReplacedLabels | src/sample5/main.c:23-38 | below the new link every node comes from the second tree, everywhere else from the first, at the same path |
| RelativeTree.GraftIsTree | src/sample5/main.c:23-38 | every node of the new array is still reached by at most one path |
| RelativeTree.BuiltIsTree | src/sample5/main.c:23-38 | so it is after any nesting of calls that starts from single nodes |
| MergeStreams.TargetIsLeast | src/files/main.c:44-52 | the stream chosen has the least head, and is the first of those that have it |
| MergeStreams.ChooseTarget | src/files/main.c:44-52 | the `for` loop chooses that stream |
| MergeStreams.ReadNext | src/files/main.c:57-60 | the stream is advanced by one number, or closed when none is left; the others stay |
| MergeStreams.Merge | src/files/main.c:43-61 | for any number of non-empty streams the loop ends; every number printed is the next one of its stream, with the least value among the next numbers, and of equal ones from the lowest stream; and all numbers are printed |
| MergeStreams.StreamsKept | src/files/main.c:43-61 | each stream is printed whole and in its own order, sorted or not |
| MergeStreams.NumbersKept | src/files/main.c:43-61 | the numbers printed are the multiset union of the streams |
| MergeStreams.SortedIff | src/files/main.c:43-61 | the output is sorted, equal numbers by stream, exactly if every stream is sorted |
| MergeStreams.OnlyOutput | src/files/main.c:43-61 | for sorted streams no other interleaving has this order |

## Left out

- System calls, memory mapping, forking, timing, `scanf` and `printf` formatting and the texts of pipe messages: they have no logic of their own. Failing calls (`check_result`, `malloc` returning null) are not modelled.
- Weak memory: acquire, release and sequentially consistent accesses are interleaved atomic steps, and the bytes of a `memcpy` are separate steps in any order.
- The bodies of `acquire`, `run_child`, `atomic_push`, `wait_signal` and the process loops as methods over objects: they wait or retry until another participant acts, so no single call has a termination measure. They are step systems over values; what that leaves out is only their layout in memory.
- Fairness: progress is stated as bounded runs, absence of deadlock and, for the semaphore, what holds once calls cease.
- Integer widths of plain counters (`counter_`, `index`, `*mem`, the numbers of ping-pong and of the token ring), and the limit of an eventfd in `EventfdRing`: their limits are parameters, and 10 in the program.
- DivisorRuns.EightWorkersAreRight: takes for granted that the computed root is the integer root plus 1, or plus 2 where rounding makes it so, since floating point is not modelled. What the other lemmas need of the root is stated in them.
- DivisorRounds.StepKeepsInv: says nothing about a run after an access past the array, because C gives it no meaning. A request whose range bounds would not be 64-bit numbers is not modelled; `DivisorRuns.EveryRequestIsComputable` shows that 8 workers have none.
- DivisorLoop.Context.Serve: runs without the other workers; `DivisorRounds` interleaves them.
- Limits.DerivativeIsLimit: `float` is `real`, without rounding, infinities or NaN, and nothing is claimed where a denominator is zero.
- OperationGraph.Operation.Compute: gives 0 for a zero denominator, where `float` has an infinity or NaN; the results about values exclude such denominators.
- OperationGraph.Derivative: `malloc` does not fail. The nodes' rank and set of reachable nodes are ghost constants given at construction.
- PingPong.StepKeepsInv: process ids are not used again after an exit.
- SequencePrint.EveryRunEnds: does not promise that all numbers are printed, because a wake-up can be missed.
- AtomicList.ListIsPushedThenOriginal: the list has no removal in the source, and each thread pushes one node of its own.
- Leb128.Parser.PutChar: requires fewer than five bytes read so far, because the source's sixth shift is undefined in C. The words' `&`, `|` and `<<` are defined on integers, digit by digit and by the C definition of a shift. The mapping of the file block by block, whose inner loop runs to the file size, is not modelled.
- RelativeTree.ConcatLeft: sizes whose sum passes `SIZE_MAX` or `SSIZE_MAX` are not modelled. Links that lead backwards are excluded; no function makes them.
- MergeStreams.Merge: starts with both streams opened and one number read. Opening, which takes `path1` twice and fails for an empty file, is not modelled, nor is a number cut off at the end of a file.
- `SpinLock`, the race and thread-local demonstrations, growable vectors, buffered reading, polling, timers, sockets and the assembly files: easier members or behaviour outside the programs.
