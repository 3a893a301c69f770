# Verified models of the CS360 assignments

This project models, in Dafny 4.11, the three parts of the repository that carry real logic, and proves
properties of them. `dafny verify dfyconfig.toml` checks everything.

**The CPU scheduler simulator** (assignment 2). `SchedulerModel` is the simulator as a state machine on
values: one `Step` is one pass through the body of the FCFS, SJF or round-robin loop, with `uint32_t` and
`int32_t` arithmetic written out, and `After(alg, jobs, k)` is the state after k passes from freshly read
processes. The theorems about whole runs are in `SchedulerSafety`, `SchedulerTermination`,
`NonPreemptive`, `Accounting`, `FcfsSchedule`, `SjfDispatch`, `RoundRobinRun`, `RoundRobinAccounting` and
`BlockedQueue`. They hold for every list of jobs whose A, B, C are `uint32_t` values with B and C positive; unless a
lemma says otherwise there is no bound on the length of the run, and the 32-bit clock may wrap.
`ProcessQueue` and `Simulator` are the same program on the heap, with linked queues, an in-place bubble
sort and process records that are updated field by field; every step is proved to compute the function of
the same name in the model.

**The in-memory file system** (assignment 1). `FileSystem` has the commands on the linked
first-child / next-sibling / parent nodes. A ghost `Shape` (`FsShape`) says which node is whose child and
in which order nodes were created; `Valid` ties every pointer to it. `FsUpdates` and `FsLinks` prove what
the three pointer updates do, and `FsLaws` what follows for whole sessions of commands. `FsTree` is the
tree as a value, with `save` and `reload`, and `SaveFile` is the text of the save file and its parsing by
`fgets` and `strtok`. The text is part of the state of a session: `save` and `quit` write it, `reload` reads
it, and a new session starts with what the last one left.

**The Rio and Sio packages and the proxy** (assignment 4). `Descriptor` is the environment: `read` and
`write` with short counts, interrupts and errors in any pattern that a script gives. `Rio` is the buffered
reader over it, `Relay` the proxy's forwarding loop, `Sio` the number formatting, `ParseUri` the URI
parser.

## Findings

* After the FCFS loop nothing resets `total_finished_processes`, so the SJF and round-robin loops of
  `main` do nothing and all three reports show the processes of the FCFS run
  (`Simulator.Simulator.RunAll`); only the I/O utilisation differs, which is 0 in the later two because
  the blocked-cycle counter is reset after the first. That is not what SJF would have reported: run on its
  own it gives some process another waiting time (`Accounting.SjfIsNotFcfs`). Each loop is therefore also
  modelled on its own, from freshly read processes.
* The comment on `finishingTime` calls it the cycle in which the process finishes. Under FCFS it is that
  cycle only if blocked time plus blocks equals arrival time plus one, modulo 2^32
  (`FcfsSchedule.FcfsFinishingTime`), and the reported waiting time underflows to 2^32 - 1 for a job that
  is dispatched on arrival and never blocks (`FcfsSchedule.FcfsWaitingTime`). The single job A = 0, B = 2,
  C = 1 shows both (`FcfsSchedule.OneShortJob`).
* Round robin advances its clock twice on a completion, so an arrival due in the next cycle is skipped
  exactly when a process completes (`RoundRobinAccounting.SkippedArrival`). Any process skipped in this
  way stays unstarted until the clock has gone round all of its 2^32 values
  (`RoundRobinAccounting.SkippedArrivalIsVeryLate`); that is why the loop still ends on every input. Two
  one-cycle jobs are enough (`RoundRobinAccounting.TwoJobsTakeForever`). While the clock does not wrap, a
  round-robin run is done by the last arrival plus the total demand, as FCFS and SJF always are, exactly
  if it skips nobody (`RoundRobinAccounting.RrExitBound`).
* `mkdir` and `creat` look for duplicates only at the first child of the current directory and below it.
  They keep names unique exactly if they are refused or the new name is nowhere in the tree
  (`FsLaws.MkdirNames`, `FsLaws.CreatNames`). No other command makes two names equal, so a session keeps
  its save file trustworthy iff no mkdir or creat in it slips a second node of the same name past that
  search (`FsLaws.SessionRoundTrip`). `mkdir a`, `cd a`, `mkdir a` does (`FsLaws.NestedDuplicate`), and so
  does `creat a`, `creat b`, `creat a` among siblings (`FsLaws.SiblingDuplicate`).
* A comma in a name breaks the save file: after `mkdir x,y`, `quit` and a restart, `reload` restores nothing
  (`FsLaws.CommaIsLost`). `reload` of a file with a line that lacks its type follows a null pointer exactly if
  the line's parent is in the tree by then and its name is not (`SaveFile.CrashIff`).
* `rmdir` undoes `mkdir` of the same name, unless the `mkdir` is refused and an older empty directory of
  that name is removed instead (`FsLaws.MkdirThenRmdir`, with an instance in
  `FsLaws.OlderDirectoryIsRemoved`).
* `parse_uri` keeps ":port" in the host when the URL has a port but no path, and takes an empty port
  after a colon literally instead of as 80; every other URL is understood (`ParseUri.ParseInvertsBuild`,
  with the two failures at `ParseUri.MisreadUrls`).

## Model

| member | source | states |
|---|---|---|
| StableSort.SortIsStable | assignment-2-aanthoonyy-main/scheduler.c:243-272 | sorting the ready queue by B keeps the order of processes with equal B |
| StableSort.SortIsSorted | assignment-2-aanthoonyy-main/scheduler.c:257-266 | the sorted queue is in non-decreasing order of B |
| StableSort.SortIsPermutation | assignment-2-aanthoonyy-main/scheduler.c:252-271 | sorting neither loses nor duplicates a process |
| StableSort.StableSortUnique | assignment-2-aanthoonyy-main/scheduler.c:243-272 | only one sequence is sorted and keeps the order of equal keys, so the three laws above determine the result |
| StableSort.SwapKeepsSort | assignment-2-aanthoonyy-main/scheduler.c:260-264 | one exchange of the bubble sort does not change what the queue sorts to |
| ProcessQueue.Queue.Enqueue | assignment-2-aanthoonyy-main/scheduler.c:208-224 | the linked queue's contents grow by the process at the rear, in a new node |
| ProcessQueue.Queue.Dequeue | assignment-2-aanthoonyy-main/scheduler.c:226-241 | null and no change on an empty queue, else the first process, and the contents lose just that one |
| ProcessQueue.BubbleSort | assignment-2-aanthoonyy-main/scheduler.c:257-266 | the in-place bubble sort leaves the stable sort of the array, as a permutation of it |
| ProcessQueue.Queue.SortQueue | assignment-2-aanthoonyy-main/scheduler.c:243-272 | draining, sorting and refilling leaves exactly the stable sort of the old contents |
| SchedulerSafety.Reachable | assignment-2-aanthoonyy-main/scheduler.c:362-435 | the loop invariant of all three loops holds after every number of passes, for every input |
| SchedulerSafety.StatesAgree | assignment-2-aanthoonyy-main/scheduler.c:362-614 | in every reachable state the ready queue is a duplicate-free list of exactly the ready processes, only the running process is running or blocked, a process is terminated iff its CPU time equals C, and the counter counts those |
| SchedulerSafety.NeverReleased | assignment-2-aanthoonyy-main/scheduler.c:412-424 | the wrapped I/O burst and the blocked time always cancel mod 2^32, the release branch is never taken, and final blocked time is max(0, C - B) (0 under round robin) |
| SchedulerSafety.StepQueues | assignment-2-aanthoonyy-main/scheduler.c:374-435 | the effect of a whole pass on the ready queue, the CPU, the counter and the clock, by who had the CPU and whether it completed, was preempted or went on |
| SchedulerSafety.IdlePass | assignment-2-aanthoonyy-main/scheduler.c:363-383 | a pass is idle iff nobody is running or ready and nobody arrives in it |
| SchedulerSafety.RecordIsFinal | assignment-2-aanthoonyy-main/scheduler.c:362-614 | under every algorithm nothing changes the record of a terminated process |
| BlockedQueue.BlockedEntries | assignment-2-aanthoonyy-main/scheduler.c:399-406 | under FCFS and SJF the blocked queue holds each process once for every B cycles it has run, not counting the cycle in which it completes |
| BlockedQueue.BlockedInOrder | assignment-2-aanthoonyy-main/scheduler.c:399-406 | nobody leaves the blocked queue, and a pass adds at most the process that blocks in it, at the rear |
| BlockedQueue.NobodyBlocks | assignment-2-aanthoonyy-main/scheduler.c:571-589 | round robin leaves the blocked queue empty |
| BlockedQueue.UntouchedAlways | assignment-2-aanthoonyy-main/scheduler.c:321-340 | until it terminates a process reports finishing time -1; the quantum is -1 except under round robin, where it is 0 after a slice |
| SchedulerTermination.WorkStep | assignment-2-aanthoonyy-main/scheduler.c:385-410 | conservation: a pass reduces the total remaining CPU time by exactly one, or by none if it is idle |
| SchedulerTermination.Progress | assignment-2-aanthoonyy-main/scheduler.c:546-614 | each pass of an unfinished loop reduces the remaining work or, if idle, the total distance to the coming arrivals on the 32-bit clock |
| SchedulerTermination.EveryRunEnds | assignment-2-aanthoonyy-main/scheduler.c:362-614 | every loop ends on every input, after exactly `ExitPass` passes and not before, with all processes terminated |
| NonPreemptive.OnTimeAlways | assignment-2-aanthoonyy-main/scheduler.c:363-372 | FCFS and SJF admit every process in exactly its arrival cycle |
| NonPreemptive.BacklogIs | assignment-2-aanthoonyy-main/scheduler.c:362-527 | the arrived unfinished work of FCFS and of SJF follows W(t+1) = max(0, W(t) + arrivals(t) - 1), which mentions no dispatch order |
| NonPreemptive.DoneWhenDrained | assignment-2-aanthoonyy-main/scheduler.c:362-527 | FCFS and SJF are done before cycle t iff all jobs arrived before t and that backlog is 0 |
| NonPreemptive.SameExit | assignment-2-aanthoonyy-main/scheduler.c:362-527 | FCFS and SJF leave their loops after the same number of passes and with the same clock, on every input |
| NonPreemptive.ExitBound | assignment-2-aanthoonyy-main/scheduler.c:362-527 | FCFS and SJF are done by the last arrival plus the total demand |
| NonPreemptive.NotPreempted | assignment-2-aanthoonyy-main/scheduler.c:385-409 | a dispatched process holds the CPU for exactly C consecutive cycles and terminates in the last one |
| Accounting.WaitingAlways | assignment-2-aanthoonyy-main/scheduler.c:385-432 | in every reachable FCFS or SJF state each process's waiting time is the cycles since arrival that it did not run, plus one per I/O block (mod 2^32) |
| Accounting.SjfTurnaround | assignment-2-aanthoonyy-main/scheduler.c:479-526 | for every terminated SJF process, finishingTime - A = C + waiting - floor((C-1)/B) in `uint32_t` arithmetic, on every input |
| Accounting.SjfTurnaroundExact | assignment-2-aanthoonyy-main/scheduler.c:479-526 | as an equation of integers it holds for a process that completes in cycle e iff e as an int32_t and its w waiting cycles as a uint32_t lose the same multiple of 2^32, in particular if e < 2^31 |
| Accounting.CompletionRecord | assignment-2-aanthoonyy-main/scheduler.c:385-410 | under FCFS and SJF the cycle in which a process completes determines its final waiting, blocked and finishing times |
| Accounting.SjfIsNotFcfs | assignment-2-aanthoonyy-main/scheduler.c:348-527 | at their common exit FCFS and SJF report different waiting times for some process, whenever there is one and the run fits the clock |
| FcfsSchedule.ArrivalOrderSorted | assignment-2-aanthoonyy-main/scheduler.c:363-372 | the arrival order lists exactly the jobs with A < t, strictly sorted by (A, index) |
| FcfsSchedule.FcfsClosedForm | assignment-2-aanthoonyy-main/scheduler.c:362-435 | the whole FCFS run in closed form: with end(0) = A + C and end(k) = max(A, end(k-1)) + C in (A, index) order, every process is unstarted, ready, on the CPU or terminated in each cycle exactly as its start and end times say |
| FcfsSchedule.FcfsExit | assignment-2-aanthoonyy-main/scheduler.c:362-435 | the FCFS loop exits at the end time of the last job |
| FcfsSchedule.FcfsFinishingTime | assignment-2-aanthoonyy-main/scheduler.c:390-394 | what the reported finishing time is on every input, and that it is the completion cycle iff blocked time plus blocks equals A + 1 (mod 2^32) |
| FcfsSchedule.FcfsFinishingTimeExact | assignment-2-aanthoonyy-main/scheduler.c:390-394 | in integers: the reported value is the unwrapped sum iff that is below 2^31, and it is the completion cycle iff that is below 2^31 and blocked time plus blocks equals A + 1 |
| FcfsSchedule.FcfsWaitingTime | assignment-2-aanthoonyy-main/scheduler.c:393-403 | the reported waiting time is one below cycles waited plus blocks on every input, and it underflows iff that sum is 0 (mod 2^32): the job starts on arrival and C <= B |
| FcfsSchedule.OneShortJob | assignment-2-aanthoonyy-main/scheduler.c:390-394 | the single job (0, 2, 1) completes in cycle 1 and is reported to finish in cycle 0 after waiting 2^32 - 1 cycles |
| SjfDispatch.SortNewcomers | assignment-2-aanthoonyy-main/scheduler.c:455-467 | a queue in (B, A, index) order with newcomers at the rear sorts back into (B, A, index) order |
| SjfDispatch.DispatchesShortest | assignment-2-aanthoonyy-main/scheduler.c:455-477 | over the whole run every dispatched process is the (B, A, index)-least of all ready processes |
| RoundRobinRun.SlicesAlways | assignment-2-aanthoonyy-main/scheduler.c:559-588 | ready processes have run an even number of cycles; a running one is in the middle of its slice of two |
| RoundRobinRun.SliceEnds | assignment-2-aanthoonyy-main/scheduler.c:571-588 | a slice lasts at most two passes |
| RoundRobinRun.BoundedWaiting | assignment-2-aanthoonyy-main/scheduler.c:208-241 | the process at position p of the ready queue is dispatched within 2p + 1 passes, whatever arrives later |
| RoundRobinRun.RrLine | assignment-2-aanthoonyy-main/scheduler.c:546-557 | under round robin arrivals join the rear of the ready queue in list order |
| RoundRobinAccounting.RrClock | assignment-2-aanthoonyy-main/scheduler.c:577-613 | the clock is the number of passes plus the number of completions (mod 2^32) |
| RoundRobinAccounting.WaitAlways | assignment-2-aanthoonyy-main/scheduler.c:591-611 | in every reachable state of round robin the waiting time of an unfinished process is its passes since arrival that it did not run, plus one per preemption |
| RoundRobinAccounting.RrCompletion | assignment-2-aanthoonyy-main/scheduler.c:571-611 | exact waiting and finishing time on every input: n - C + floor((C-1)/2) for a process completing in its n-th pass since arrival, and passes plus earlier completions |
| RoundRobinAccounting.RrCompletionAtZero | assignment-2-aanthoonyy-main/scheduler.c:546-614 | the same with all arrivals at 0, where n is the pass number |
| RoundRobinAccounting.RrRunLength | assignment-2-aanthoonyy-main/scheduler.c:546-614 | with all arrivals at 0 the loop takes exactly sum C passes and leaves the clock at sum C + n |
| RoundRobinAccounting.SkippedArrival | assignment-2-aanthoonyy-main/scheduler.c:546-582 | an arrival due in the next cycle is skipped iff a process completes in this pass |
| RoundRobinAccounting.SkippedArrivalIsVeryLate | assignment-2-aanthoonyy-main/scheduler.c:546-614 | every process whose arrival cycle was skipped stays unstarted until the clock has advanced by 2^32 - 1 cycles |
| RoundRobinAccounting.SkippingRunIsVeryLong | assignment-2-aanthoonyy-main/scheduler.c:546-614 | a run in which an arrival is skipped takes more than 2^32 - n passes for n processes, counted from the skip |
| RoundRobinAccounting.RrExitBound | assignment-2-aanthoonyy-main/scheduler.c:546-614 | while the clock does not wrap, round robin is done by the last arrival plus the total demand iff no arrival is skipped |
| RoundRobinAccounting.TwoJobsTakeForever | assignment-2-aanthoonyy-main/scheduler.c:546-614 | two one-cycle jobs keep round robin busy for more than 2^32 passes, FCFS for at most 3 |
| Simulator.Simulator.constructor | assignment-2-aanthoonyy-main/scheduler.c:316-350 | freshly read processes, empty queues, clock and counter 0 |
| Simulator.Simulator.AdmitArrivals | assignment-2-aanthoonyy-main/scheduler.c:363-372 | the arrival loop on the heap computes `Arrive` |
| Simulator.Simulator.DispatchNext | assignment-2-aanthoonyy-main/scheduler.c:559-569 | step 2 on the heap computes `Dispatch` |
| Simulator.Simulator.ExecuteFcfs | assignment-2-aanthoonyy-main/scheduler.c:385-410 | step 3 of FCFS on the heap computes `Execute` |
| Simulator.Simulator.ExecuteSjf | assignment-2-aanthoonyy-main/scheduler.c:479-502 | step 3 of SJF on the heap computes `Execute` |
| Simulator.Simulator.ExecuteRoundRobin | assignment-2-aanthoonyy-main/scheduler.c:571-589 | step 3 of round robin on the heap computes `Execute` |
| Simulator.Simulator.ChargeAll | assignment-2-aanthoonyy-main/scheduler.c:591-611 | step 4 on the heap computes `ChargeUpTo` |
| Simulator.Simulator.Pass | assignment-2-aanthoonyy-main/scheduler.c:455-527 | one pass of each loop on the heap computes `Step` |
| Simulator.Simulator.RunLoop | assignment-2-aanthoonyy-main/scheduler.c:362-614 | each loop on the heap ends for every input, in the state the model reaches after `ExitPass` passes; it does nothing if the counter already stands at n |
| Simulator.Simulator.RunAll | assignment-2-aanthoonyy-main/scheduler.c:348-362 | running the three loops in sequence leaves the FCFS result |
| FsTree.RoundTrip | assignment-1-aanthoonyy-main/lab1_devito.c:181-272 | reloading the saved lines into a fresh root gives the same tree (shape, types, order) iff no two nodes share a name |
| FsTree.ReloadRebuilds | assignment-1-aanthoonyy-main/lab1_devito.c:227-272 | reloading the saved lines of a forest of new distinct names grafts exactly that forest below the named parent |
| FsTree.NestedDuplicateIsLost | assignment-1-aanthoonyy-main/lab1_devito.c:250-251 | a concrete tree with a nested duplicate that save and reload do not preserve |
| FsTree.ReloadKeepsDistinct | assignment-1-aanthoonyy-main/lab1_devito.c:227-272 | reload on any records keeps distinct names distinct |
| FsTree.SelfReload | assignment-1-aanthoonyy-main/lab1_devito.c:181-272 | reloading a tree's own saved lines into itself changes nothing, duplicates or not |
| FsTree.FreshReloadNames | assignment-1-aanthoonyy-main/lab1_devito.c:181-272 | reloading the saved lines into a fresh root gives exactly the saved set of names |
| FsTree.AddLineInserts | assignment-1-aanthoonyy-main/lab1_devito.c:241-270 | a record with an unknown parent or a known name changes nothing; any other puts exactly itself among the saved lines and exactly its name among the names |
| FsTree.ReloadAccepts | assignment-1-aanthoonyy-main/lab1_devito.c:227-272 | reload of any records adds exactly the accepted ones to what the tree saves and exactly their names to its names, where the names alone decide which are accepted |
| FsTree.ReloadAddsNothing | assignment-1-aanthoonyy-main/lab1_devito.c:227-272 | after reload the tree saves nothing that it did not save before and that is not in the file |
| FsTree.LinesOfAppend | assignment-1-aanthoonyy-main/lab1_devito.c:197-202 | trees side by side are saved one after the other, each with all that is below it |
| SaveFile.ParseFormat | assignment-1-aanthoonyy-main/lab1_devito.c:194-239 | for clean names, `strtok` takes a printed line apart into the record it came from |
| SaveFile.FormatLength | assignment-1-aanthoonyy-main/lab1_devito.c:194-195 | a printed line has no character besides name, parent, type, two commas and the newline |
| SaveFile.SavedText | assignment-1-aanthoonyy-main/lab1_devito.c:181-204 | the literal text of a tree with four nodes |
| SaveFile.SavedNestedText | assignment-1-aanthoonyy-main/lab1_devito.c:181-204 | the literal text of a tree with a nested node |
| SaveFile.FgetsIsALine | assignment-1-aanthoonyy-main/lab1_devito.c:236 | a buffer ends with the first newline, after 255 characters or with the text |
| SaveFile.BufferByBuffer | assignment-1-aanthoonyy-main/lab1_devito.c:236-240 | any text is read buffer by buffer, longer lines in pieces of 255 characters |
| SaveFile.SkippedIff | assignment-1-aanthoonyy-main/lab1_devito.c:237-240 | a buffer is skipped iff it has fewer than two comma-separated fields |
| SaveFile.ParseRecord | assignment-1-aanthoonyy-main/lab1_devito.c:237-239 | the type is the first character behind the comma after the parent that is not a newline, even a comma or slash |
| SaveFile.ParseNoType | assignment-1-aanthoonyy-main/lab1_devito.c:237-239 | the type is missing if nothing but newlines is there |
| SaveFile.CrashIff | assignment-1-aanthoonyy-main/lab1_devito.c:240-254 | reload follows the null pointer of a missing type iff that line's parent is in the tree by then and its name is not |
| SaveFile.ReloadRecords | assignment-1-aanthoonyy-main/lab1_devito.c:227-272 | otherwise it takes the records of the file one after the other |
| SaveFile.TextRoundTrip | assignment-1-aanthoonyy-main/lab1_devito.c:181-272 | the round trip through the text of the file: for clean names it restores the tree iff names are distinct |
| SaveFile.CleanTextRuns | assignment-1-aanthoonyy-main/lab1_devito.c:181-272 | reload of the printed text of clean records is reload of the records |
| FsShape.AllUnderRoot | assignment-1-aanthoonyy-main/lab1_devito.c:20-30 | every node of the tree is reachable from the root |
| FsShape.OneBranch | assignment-1-aanthoonyy-main/lab1_devito.c:6-11 | the subtrees of two children of a node are disjoint |
| FsShape.FoundAt | assignment-1-aanthoonyy-main/lab1_devito.c:206-225 | the search finds a node iff the name occurs in the subtree, and the node found bears the name and lies in it |
| FsShape.FindIsFirst | assignment-1-aanthoonyy-main/lab1_devito.c:206-225 | the search finds the first node of that name in preorder |
| FsShape.PreorderIsSaved | assignment-1-aanthoonyy-main/lab1_devito.c:181-204 | that preorder is the order of the save file |
| FsUpdates.AddedOk | assignment-1-aanthoonyy-main/lab1_devito.c:280-286 | adding a leaf keeps the graph a finite tree |
| FsUpdates.RemovedOk | assignment-1-aanthoonyy-main/lab1_devito.c:163-171 | unlinking a child keeps the graph a finite tree, and the child is gone from it |
| FsUpdates.Unaffected | assignment-1-aanthoonyy-main/lab1_devito.c:280-286 | subtrees that do not contain the changed node stay as they are |
| FsUpdates.ForestOfAddedFirst | assignment-1-aanthoonyy-main/lab1_devito.c:284-286 | mkdir and creat put the new leaf in front of the old children |
| FsUpdates.ForestOfRemoved | assignment-1-aanthoonyy-main/lab1_devito.c:105-125 | rm and rmdir remove exactly that child's tree from the children |
| FsUpdates.WithoutMiddle | assignment-1-aanthoonyy-main/lab1_devito.c:105-125 | the trees before and behind the removed one stay as they are |
| FsUpdates.AddedIsGraft | assignment-1-aanthoonyy-main/lab1_devito.c:245-268 | appending behind the children of the node that the search finds is the graft of the tree model, duplicates or not |
| FsLinks.LinkedFirst | assignment-1-aanthoonyy-main/lab1_devito.c:280-286 | the two pointer writes of mkdir represent the added leaf |
| FsLinks.LinkedLast | assignment-1-aanthoonyy-main/lab1_devito.c:256-268 | the pointer writes of reload represent the leaf added at the end |
| FsLinks.LinkedWithout | assignment-1-aanthoonyy-main/lab1_devito.c:112-118 | bypassing a child represents its removal |
| FsLaws.MkdirThenRmdir | assignment-1-aanthoonyy-main/lab1_devito.c:94-127 | mkdir and then rmdir of the same name restore exactly the old nodes and tree, iff not (mkdir is refused and cwd had an empty directory of that name to remove) |
| FsLaws.RemovedAdded | assignment-1-aanthoonyy-main/lab1_devito.c:94-127 | rmdir finds the new empty directory before any older one, and removing it restores the old nodes |
| FsLaws.MkdirNames | assignment-1-aanthoonyy-main/lab1_devito.c:274-287 | mkdir leaves names unique iff they were, and it is refused or the new name is nowhere in the tree |
| FsLaws.CreatNames | assignment-1-aanthoonyy-main/lab1_devito.c:289-302 | the same for creat |
| FsLaws.ChangedTree | assignment-1-aanthoonyy-main/lab1_devito.c:94-302 | a change below one node has the same effect on the names and size of the whole tree as on that node's children |
| FsLaws.NextNames | assignment-1-aanthoonyy-main/lab1_devito.c:327-374 | any command on a tree with unique names keeps them unique iff it is not a mkdir or creat of a name that occurs where it does not look |
| FsLaws.SessionNames | assignment-1-aanthoonyy-main/lab1_devito.c:307-381 | names are unique after every command of a session iff none of its commands is such a mkdir or creat |
| FsLaws.SessionRoundTrip | assignment-1-aanthoonyy-main/lab1_devito.c:181-381 | the save file restores the tree after every command of a session, under exactly the same condition |
| FsLaws.FileIsLastSave | assignment-1-aanthoonyy-main/lab1_devito.c:356-374 | the save file is the text of the tree at the last save or quit, whatever happened since |
| FsLaws.QuitAndRestart | assignment-1-aanthoonyy-main/lab1_devito.c:356-374 | quit, restart and reload give a tree of clean names back iff its names are unique |
| FsLaws.CommaIsLost | assignment-1-aanthoonyy-main/lab1_devito.c:181-272 | mkdir x,y, quit, restart and reload give the empty root |
| FsLaws.NestedDuplicate | assignment-1-aanthoonyy-main/lab1_devito.c:274-287 | mkdir a, cd a, mkdir a from the initial tree makes two nodes of one name, and save and reload lose one of them |
| FsLaws.SiblingDuplicate | assignment-1-aanthoonyy-main/lab1_devito.c:289-302 | creat a, creat b, creat a makes two siblings of one name |
| FsLaws.OlderDirectoryIsRemoved | assignment-1-aanthoonyy-main/lab1_devito.c:94-287 | mkdir a, mkdir a, rmdir a from the initial tree leaves the empty root, not the tree with the first directory |
| FileSystem.FileSystem.Initialize | assignment-1-aanthoonyy-main/lab1_devito.c:20-30 | the tree is the lone root, which is cwd |
| FileSystem.FileSystem.SearchTree | assignment-1-aanthoonyy-main/lab1_devito.c:206-225 | the pointer search returns the first match in preorder, or null iff there is none |
| FileSystem.KidIndexIsFirst | assignment-1-aanthoonyy-main/lab1_devito.c:105-125 | rmdir and rm stop at the first child of that name, rmdir at the first directory |
| FileSystem.DuplicateIff | assignment-1-aanthoonyy-main/lab1_devito.c:274-279 | a name is refused iff it is the first child's or occurs below the first child |
| FileSystem.FileSystem.Mkdir | assignment-1-aanthoonyy-main/lab1_devito.c:274-287 | a duplicate below the first child changes nothing; else a new directory is the first child of cwd and all else is as before |
| FileSystem.FileSystem.Creat | assignment-1-aanthoonyy-main/lab1_devito.c:289-302 | the same for a file |
| FileSystem.FileSystem.Rmdir | assignment-1-aanthoonyy-main/lab1_devito.c:94-127 | removes the first directory of that name among the children of cwd iff it is empty |
| FileSystem.FileSystem.Rm | assignment-1-aanthoonyy-main/lab1_devito.c:145-179 | removes the first child of that name iff it is a file |
| FileSystem.FileSystem.Cd | assignment-1-aanthoonyy-main/lab1_devito.c:57-92 | cwd becomes the root, the parent or the first child of that name; the first child's type alone can refuse; the tree stays |
| FileSystem.FileSystem.ReloadLine | assignment-1-aanthoonyy-main/lab1_devito.c:241-270 | one record on the heap does what the tree model's `AddLine` does |
| FileSystem.FileSystem.ReloadBuffer | assignment-1-aanthoonyy-main/lab1_devito.c:236-270 | one buffer of the file on the heap: a record, nothing, or the null pointer of a missing type |
| FileSystem.FileSystem.ReloadFile | assignment-1-aanthoonyy-main/lab1_devito.c:227-272 | reload of a text on the heap does what `ReloadParsed` does to the tree, null pointer included |
| FileSystem.FileSystem.Save | assignment-1-aanthoonyy-main/lab1_devito.c:181-204 | save writes the preorder lines of the subtree |
| FileSystem.FileSystem.SaveAll | assignment-1-aanthoonyy-main/lab1_devito.c:362-367 | save of the root writes `SavedLines` of the tree |
| FileSystem.FileSystem.Execute | assignment-1-aanthoonyy-main/lab1_devito.c:327-374 | each command keeps the tree invariant and makes exactly the transition `Next` of tree, cwd and save file; only cd to a name in an empty directory and reload without a file or a needed type fail |
| FileSystem.FileSystem.ExecuteAll | assignment-1-aanthoonyy-main/lab1_devito.c:307-381 | every session is a run of that transition system, with the tree invariant after every command, and stops early only at a command that fails |
| FileSystem.FileSystem.TreeInvariant | assignment-1-aanthoonyy-main/lab1_devito.c:6-30 | what the invariant means: each non-root node is in exactly one list of children, that of its parent, which is older; the root is its own parent; cwd and all nodes are reachable |
| Descriptor.Source.Read | assignment-4-aanthoonyy-main/csapp.c:757-763 | the environment's read: 0 only at the end of the stream, else as many bytes of it as the script offers, an interrupt or an error |
| Descriptor.Sink.Write | assignment-4-aanthoonyy-main/csapp.c:783-790 | the environment's write: accepts as many bytes as the script says, an interrupt or an error |
| Rio.LineIsALine | assignment-4-aanthoonyy-main/csapp.c:877-891 | a line has a newline at most at its end and stops short only there or at the end of the stream |
| Rio.RioBuffer.Refill | assignment-4-aanthoonyy-main/csapp.c:810-821 | only an empty buffer is refilled, by the first read that is not interrupted and with all it brings; the pending stream is kept |
| Rio.RioBuffer.Read | assignment-4-aanthoonyy-main/csapp.c:806-831 | copies exactly min(n, available) bytes, from the buffer alone unless it is empty; 0 only at the end of the stream, -1 iff that one read fails |
| Rio.RioBuffer.ReadNb | assignment-4-aanthoonyy-main/csapp.c:850-865 | returns the next min(n, remaining) bytes of the pending stream, or -1 iff a hard error is met before them, with all bytes before the error stored; nothing is fetched too early |
| Rio.RioBuffer.ReadLineB | assignment-4-aanthoonyy-main/csapp.c:872-894 | returns the bytes up to the first newline, maxlen - 1 or the end, with a NUL behind them, or -1 iff a hard error is met before, with a newline-free beginning of a line stored |
| Rio.ReadN | assignment-4-aanthoonyy-main/csapp.c:750-769 | the unbuffered read of min(n, remaining) bytes, -1 iff a hard error is met before, in one call if that brings them all |
| Rio.WriteN | assignment-4-aanthoonyy-main/csapp.c:776-793 | all n bytes are written in order, or -1 after a proper prefix when an error is met, in one call if that takes them all |
| Relay.RepliesAreConsecutive | assignment-4-aanthoonyy-main/csapp.c:806-895 | the replies to any interleaving of requests are consecutive pieces of the stream: nothing lost or duplicated |
| Relay.ServeAll | assignment-4-aanthoonyy-main/csapp.c:806-895 | any interleaving of rio_readnb and rio_readlineb (maxlen >= 2) gives those replies, independent of how read cuts up the stream |
| Relay.Forward | assignment-4-aanthoonyy-main/proxy.c:143-147 | if the loop is left normally the client received exactly the server's stream; it is left otherwise only when an error is met, and then a failed read loses at most the beginning of one line and a failed write at most the end of one |
| Sio.ReverseInPlace | assignment-4-aanthoonyy-main/csapp.c:227-236 | the string is reversed in place and the rest of the buffer stays |
| Sio.StrLen | assignment-4-aanthoonyy-main/csapp.c:259-266 | the position of the first NUL |
| Sio.Ltoa | assignment-4-aanthoonyy-main/csapp.c:239-256 | the buffer holds the formatted number and a NUL, and is otherwise as before |
| Sio.DigitTable | assignment-4-aanthoonyy-main/csapp.c:247-250 | the digits are 0-9 and then a-z |
| Sio.FormattedNumbers | assignment-4-aanthoonyy-main/csapp.c:239-256 | 2048 in base 10, -255 in base 16 and 0 in base 2 |
| Sio.RoundTrip | assignment-4-aanthoonyy-main/csapp.c:239-256 | parsing the string gives back the number, for every number and every base from 2 to 36 |
| Sio.NoLeadingZeros | assignment-4-aanthoonyy-main/csapp.c:247-252 | no leading zeros; a minus sign exactly for negative numbers |
| Sio.DecimalLength | assignment-4-aanthoonyy-main/csapp.c:277-283 | a 64-bit number takes at most 20 characters in base 10 |
| ParseUri.ParseInto | assignment-4-aanthoonyy-main/proxy.c:22-61 | the buffers hold the parsed host, port and path and are otherwise as before; without "//" they stay as they are |
| ParseUri.PartsFit | assignment-4-aanthoonyy-main/proxy.c:115-119 | buffers longer than the URI have room for every part |
| ParseUri.ParseOfBuild | assignment-4-aanthoonyy-main/proxy.c:22-61 | what the parser makes of every URL, with any text, or none, in front of "//" |
| ParseUri.EveryUriIsUrl | assignment-4-aanthoonyy-main/proxy.c:22-61 | every URI with "//" in it is such a URL |
| ParseUri.ParseInvertsBuild | assignment-4-aanthoonyy-main/proxy.c:22-61 | for every such URL, among them all of section 3.2.2 of RFC 1945, empty ports included, the parser gives back host, port (or 80) and path (or "/") iff there is no explicit port, or a path and a port that is not empty |
| ParseUri.MisreadUrls | assignment-4-aanthoonyy-main/proxy.c:31-58 | "http://h:/p" and "http://h:81" are misread |
| ParseUri.NoDoubleSlash | assignment-4-aanthoonyy-main/proxy.c:24-25 | the parser stores nothing iff the URI contains no "//" |

## Left out

- Jobs with B = 0 or C = 0: B = 0 divides by zero, and a job with C = 0 is never caught by the completion test before its counter wraps.
- The queue with a null process: the release branch would enqueue the result of dequeueing an empty queue; `SchedulerSafety.NeverReleased` shows that the branch is never taken, and the model skips that enqueue.
- `CPUBurst`, `currentBurst`, M and the random-number file: they are written but decide nothing.
- `TOTAL_NUMBER_OF_CYCLES_SPENT_BLOCKED`, which counts the entries of the blocked queue, printing, the floating-point summary and input parsing of the scheduler.
- `ls` and `pwd` of the file system, which only print, and the splitting of typed command lines.
- Name buffers of 64 bytes: the commands take names of any length; the text of the save file is treated for names up to 63 characters.
- What happens after a null pointer is followed: the session ends there.
- Freed memory: nodes that rm or rmdir unlink are no longer part of the tree, and nothing is said about their fields.
- ReadLineB: its `int` counter is unbounded, so a line of 2^31 bytes or more is not modelled.
- Ltoa: the least long, whose negation overflows, and the size of the caller's buffer beyond what the string needs.
- Sockets, connection set-up, request parsing by sscanf and the remaining wrappers of csapp.c.
- Assignment 3, `tiny` and `adder.c`.
