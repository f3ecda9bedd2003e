# A verified model of the lkb kernel modules

The repository is a collection of small Linux kernel modules. This project models the ones that have
loops, linked structures or interleavings of their own, and proves what they are for. Constants that only
size an example (5 list nodes, 5 threads, 14 tree nodes, 1 waiter) are arbitrary here; the 14 slots of
the batching work queue are kept.

| file | what it models |
|---|---|
| `Basics.dfy` | sequences without repetition, circular lists, and runs of step systems |
| `KernelList.dfy` | the circular doubly linked list: nodes with `next`/`prev`, a sentinel, and the list primitives |
| `LinkListModule.dfy` | `link_list/code.c`, front and tail insertion and deletion |
| `RcuModule.dfy` | the loops of `rcu/code.c` as a sequential program on that list |
| `RcuProtocol.dfy` | `rcu/code.c` as a step system: writers under a lock, lock-free readers, callbacks, and the inductive invariant |
| `RcuSafety.dfy` | memory safety, grace periods and the life of a node, over every run |
| `RcuWriters.dfy` | the lock, and each writer operation as one change of the list, over every run |
| `RcuProgress.dfy` | what can always still happen: grace periods end, nodes are linked, replaced and freed |
| `RcuWalk.dfy` | what one pass over the list sees while writers change it |
| `RcuBracketing.dfy` | why a read section inside the loop body is not enough, and which nodes it endangers |
| `SearchTree.dfy` | the tree of `red_black_tree/code.c` as a value: histories of insertions, order, cost |
| `TreeModule.dfy` | `insert` and `search` on mutable left/right fields |
| `BatchQueue.dfy` | the handler of `work_queue_dedicated/code.c` |
| `BatchTeardown.dfy` | interrupts, the work queue and module removal of the same module as a step system |
| `WaitQueue.dfy` | `wait_event` and `wake_up` as `wait_queue/code.c` and `work_queue_global/code.c` use them |
| `ThreadLifecycle.dfy` | `thread01/code.c` as a step system of init, exit and n threads |

Objects the source updates in place are classes. Interleavings are step systems: `Enabled` and `Step`
say what each step may do, a run is a finite sequence of enabled steps, and the theorems speak about
every run. Steps are sequentially consistent. In `RcuProtocol` the state is what memory holds;
`History` (the list the pointers spell out, an order on all nodes ever linked, and who may still get to an
unlinked node) exists for the proofs only and is computed from the run.

## Assumptions about the kernel

The kernel headers are not part of the repository. These contracts are written into the model:

- `list_del` poisons both pointers of the deleted node, `list_del_rcu` and `list_replace_rcu` only
  `prev`; a poisoned pointer is null (or, in `RcuProtocol`, absent).
- `list_add_rcu` and `list_replace_rcu` fill in the new node before one store to a `next` field makes it
  reachable.
- `call_rcu` runs its callback after every read section open at the call has closed; `synchronize_rcu`
  returns likewise.
- `kmalloc` returns a node that was never returned before, or fails; which requests fail is a parameter.
- `queue_work` does nothing if the item is already queued; the worker takes the item off the queue before
  it calls the handler; `free_irq` waits for handlers in progress; `flush_workqueue` waits for the queue.
- `wait_event` tests, queues itself, tests again and only then gives up the processor; `wake_up` makes every
  queued waiter runnable.
- `kthread_stop` sets the stop flag and returns when the thread has ended.

## Where the code and its comments disagree

The model follows the code.

- `rcu/code.c:28-32` says a writer stops the readers. It does not; only writers take `mylist_lock`.
- `rcu/code.c:133-142` opens and closes the read section inside the loop body, so the cursor outlives
  it. `RcuBracketing` shows that this is unsafe: the node under the cursor can be freed exactly when it is
  not one that a replacement took, or is about to take, off the list. One section per walk is what is needed.
- `rcu/code.c:157-176` replaces every node holding 10 by the same static node. The list survives exactly
  when at most one node holds 10, which the build loop guarantees.
- `rcu/code.c:202-227` takes the lock once and releases it once per match. The two balance exactly when
  at most one node holds 20, which the build loop guarantees.
- `rcu/code.c:204-224` leaves the deleted node through its next pointer after `call_rcu`, with no read section
  open. If the callback runs first, the hop is off freed memory; this can happen whenever a node holds 20, so
  already on the module's own list.
- `work_queue_dedicated/code.c:47-49` promises a flush of the list on removal. Only the work queue is
  flushed: `n mod 15` nodes stay on the list.
- `red_black_tree/code.c:26-49` describes red-black rules; the tree is never rebalanced (line 219), and
  ascending insertion gives a list.

## Model

| member | source | states |
|---|---|---|
| RcuSafety.NoReaderOnFreedNode | rcu/code.c:85-220 | with one read section per walk, in every run of any number of readers, writers and callbacks, no cursor stands on a freed node and no chain of next pointers from a cursor reaches one |
| RcuSafety.GraceWaitsForPaths | rcu/code.c:211-220 | a node awaiting its callback waits for every reader that can still get to it, also through nodes unlinked earlier |
| RcuSafety.SynchronizeReleases | rcu/code.c:169-181 | when `synchronize_rcu` returns, no walk is on or can get to any node unlinked before the call |
| RcuSafety.EveryNodeLivesOnce | rcu/code.c:85-220 | in every run a node goes through kmalloc, list_del_rcu, call_rcu and kfree in that order and at most once each; where it is tells exactly which of them it has been through. Neither call_rcu nor the callback checks this: a writer hands over what it deleted, and a callback frees what it was given |
| RcuSafety.NoNodeForgotten | rcu/code.c:85-220 | in every run each deleted node is owed to call_rcu by some writer or has a callback scheduled, until it is freed |
| RcuSafety.PointersSpellTheList | rcu/code.c:117-220 | in every reachable state the pointers from the head are one ring of exactly the linked nodes, with next and prev inverse |
| RcuSafety.RunInv | rcu/code.c:117-220 | every reachable state of either reader discipline satisfies the invariant of the protocol |
| RcuWriters.LockExcludes | rcu/code.c:119-122 | in every run, between two spin_lock calls that return the first caller has called spin_unlock |
| RcuWriters.StoresAreLocked | rcu/code.c:117-220 | in every run each store to the list and each unlock of w follows a spin_lock of w, with no lock or unlock by anybody in between |
| RcuWriters.PublishCompletes | rcu/code.c:119-172 | every publishing store completes an addition or replacement that the same writer prepared, with nothing published in between |
| RcuWriters.AddTakesEffect | rcu/code.c:119-122 | at the publishing store, and only then, the list that the pointers spell gets the prepared node in front |
| RcuWriters.ReplaceTakesEffect | rcu/code.c:169-172 | at the publishing store the new node takes the place of the old one in the spelled list |
| RcuWriters.DeleteTakesEffect | rcu/code.c:211-220 | list_del_rcu takes exactly its node out of the spelled list, and no step that does not publish changes that list |
| RcuWriters.OffListPoisoned | rcu/code.c:171-214 | in every run a node off the list keeps a next pointer and has no prev pointer |
| RcuProgress.CanLock | rcu/code.c:119-122 | from every reachable state any writer can have the lock after at most three steps: the holder completes its operation and releases it |
| RcuProgress.CanBeLinked | rcu/code.c:108-123 | from every reachable state of either discipline a new node can be allocated and put on the list |
| RcuProgress.CanBeReplaced | rcu/code.c:157-176 | likewise any node on the list that is not already being replaced can be replaced by a new one |
| RcuProgress.CallbackDueIff | rcu/code.c:220 | a callback can run if and only if every reader that was inside a read section when call_rcu was called has left it since; later readers are not waited for |
| RcuProgress.SyncDueIff | rcu/code.c:181 | synchronize_rcu can return under the same condition |
| RcuProgress.SyncBeginsIff | rcu/code.c:181 | a writer can call synchronize_rcu exactly when it is not inside it |
| RcuProgress.SyncCanReturn | rcu/code.c:181 | from every reachable state a synchronize_rcu in progress can return |
| RcuProgress.CanBeFreed | rcu/code.c:204-224 | from every reachable state of either discipline every node ever linked can be freed without a step of any reader outside its read sections, unless it was replaced or is being replaced |
| RcuProgress.ReclaimedIff | rcu/code.c:157-224 | which nodes leak: a node ever linked can still be freed if and only if it was not replaced and is not being replaced |
| RcuProtocol.StructKept | rcu/code.c:117-220 | every step keeps the ring, the order of all nodes ever linked, and each grace period longer than every walk that may still visit the node |
| RcuProtocol.WalkKept | rcu/code.c:128-142 | every step keeps every cursor on a node its walk may visit, with the visited nodes in strictly increasing order |
| RcuProtocol.MayVisitKept | rcu/code.c:211-220 | what a walk may visit stays visitable to it until its own section ends, also when it is unlinked meanwhile |
| RcuProtocol.HoldClosedKept | rcu/code.c:169-220 | an unlinked node only points to nodes the walks that hold it may visit |
| RcuWalk.CompletedWalk | rcu/code.c:187-194 | whatever writers do meanwhile, a completed walk has seen every node that stayed linked, none twice, only nodes linked at some moment of the walk, and in list order |
| RcuWalk.ReplacedWalk | rcu/code.c:157-194 | a completed walk that overlaps any number of replacements sees one node per place, each a node that stood at that place during the walk |
| RcuWalk.OldOrNew | rcu/code.c:157-194 | a completed walk that overlaps at most one replacement, at any point, sees exactly the old list or exactly the new one |
| RcuWalk.WalkIsBounded | rcu/code.c:187-194 | a walk visits at most as many nodes as were on the list when it began plus those added since |
| RcuWalk.WalkCanStart | rcu/code.c:128-142 | at any time a reader without a walk can open its read section and begin one |
| RcuWalk.WalkCanFinish | rcu/code.c:187-194 | from any point of any run, the run goes on by hops of this reader alone to the end of its walk, in at most as many hops as the bound leaves, one for the return to the head included |
| RcuBracketing.CursorCanDangle | rcu/code.c:133-142 | with a section per loop body, every run that has a reader between two bodies on x, whoever holds the lock, can go on without a step of that reader to a state in which x is freed under its cursor, unless x was replaced or its replacement is under way |
| RcuBracketing.DanglesIff | rcu/code.c:133-224 | such a continuation exists if and only if x is neither replaced nor being replaced |
| RcuProgress.SparedForGood | rcu/code.c:157-176 | in every run of either discipline, a node that was replaced or is being replaced is never freed afterwards |
| RcuBracketing.CursorOnNode | rcu/code.c:133-142 | even between bodies a cursor is at the head or on a node that was on the list once |
| RcuBracketing.SafeIffWholeWalk | rcu/code.c:128-142 | readers are safe in every run if and only if the read section spans the whole walk |
| KernelList.RingUnique | link_list/code.c:93-102 | no two different lists can be read off the same pointers |
| KernelList.ReplaceRcu | rcu/code.c:171 | exactly which pointers `list_replace_rcu` leaves behind, for any aliasing of the two nodes' neighbours |
| KernelList.List.constructor | link_list/code.c:46 | a valid empty ring |
| KernelList.List.Add | link_list/code.c:62-66 | the ring with the node in front; data untouched |
| KernelList.List.AddTail | link_list/code.c:72 | the ring with the node at the end; data untouched |
| KernelList.List.Del | link_list/code.c:77-78 | the ring without the node, whose pointers are poisoned |
| KernelList.List.DelRcu | rcu/code.c:214 | the ring without the node, which keeps its next pointer |
| KernelList.List.Read | link_list/code.c:93-102 | the printed values are the data of the nodes in list order |
| LinkListModule.Allocate | link_list/code.c:52-59 | as many distinct new nodes as kmalloc grants, node i holding step * i |
| LinkListModule.AddAllFront | link_list/code.c:61-66 | front insertion of any sequence of nodes gives its reverse |
| LinkListModule.AddTailThenDelete | link_list/code.c:70-77 | tail insertion then deletion of the same node restores the list and every next and prev pointer |
| LinkListModule.DeleteFirstInserted | link_list/code.c:78-80 | deleting the first-inserted node leaves the reverse of the others |
| LinkListModule.Start | link_list/code.c:34-87 | for every n and every number of granted allocations: return code, final ring, and the three printed sequences |
| RcuModule.Build | rcu/code.c:117-123 | any sequence of nodes ends up reversed on the list, data untouched, with one lock and unlock around each |
| RcuModule.Replace | rcu/code.c:164-173 | one replacement under the cursor keeps the rest of the walk intact; the second one tears the ring |
| RcuModule.Update | rcu/code.c:157-176 | for every list, each original node is visited exactly once; with no match nothing changes, with one match the list has that place replaced, with more the pointers are no ring of any list; one lock and unlock per match |
| RcuModule.TornIsNoRing | rcu/code.c:157-176 | when the shared node's prev no longer leads back to its predecessor, no list at all is spelled out |
| RcuModule.Delete | rcu/code.c:202-227 | for every list and whichever callbacks run meanwhile: a node stays if and only if its data was not 20, those that stay and those handed to call_rcu keep their order; one lock, then max(1, k) unlocks for the k handed over, balanced if and only if k is at most 1; nothing freed is on the list, and the rounds that hop off a freed node are those whose own callback has just run |
| RcuModule.BodiesAreSafe | rcu/code.c:204-224 | whichever callbacks run, no round of the delete loop looks at the data of a freed node |
| RcuModule.PartedExactly | rcu/code.c:204-224 | the nodes left out and those kept: every node in exactly one of the two by its value, both in list order |
| RcuModule.CountIs | rcu/code.c:202-227 | the number of matches is the number of places with that value |
| RcuModule.PairsAlternate | rcu/code.c:117-172 | a balanced lock history is lock and unlock in turn |
| RcuModule.CanDangleIff | rcu/code.c:204-224 | some timing of the callbacks makes the delete loop hop off a freed node if and only if some node holds 20 |
| RcuModule.StartCanDangle | rcu/code.c:108-224 | on the list that start builds, if and only if there are more than two nodes |
| RcuModule.BuiltValues | rcu/code.c:108-123 | the built values are distinct for every n, so 10 and, after the update, 20 occur at most once |
| RcuModule.Start | rcu/code.c:100-243 | for every n, every number of granted allocations and every timing of the callbacks: the three printed sequences, the last one being the second without its third last value if n > 2; one callback with data 20 if n > 2; a lock history of strictly alternating lock and unlock, n pairs for the build loop, one for the update if n > 1 and one for the delete loop; on a failed allocation an empty list and nothing printed |
| TreeModule.Root.Insert | red_black_tree/code.c:181-222 | keeps order, acyclicity and disjointness; returns 0 and adds exactly that key, or 1 and changes no pointer |
| TreeModule.Root.Descend | red_black_tree/code.c:192-203 | the descent ends at the node with the key, or at the one place where it belongs |
| TreeModule.Root.Search | red_black_tree/code.c:162-179 | the node found by the tree's lookup or null, and the exact number of rounds of the loop |
| TreeModule.InsertAll | red_black_tree/code.c:119-121 | inserting nodes one after the other, equal keys included, gives the tree of that history |
| TreeModule.SearchAfterInserts | red_black_tree/code.c:119-179 | inserting any nodes into the empty tree and then searching gives the first node inserted with that value, or null exactly when there is none |
| TreeModule.Start | red_black_tree/code.c:104-135 | for every n: in-order sequence 0, 100, ..., height n, and 200 is found, in 3 rounds, if and only if n > 2 |
| SearchTree.FirstWins | red_black_tree/code.c:162-222 | after any history of insertions, lookup of any key gives the first node inserted with it, or none |
| SearchTree.LookupAfterInsert | red_black_tree/code.c:162-222 | an insertion changes the answer for its own key only, and only if the key was absent |
| SearchTree.InsertKeeps | red_black_tree/code.c:181-222 | order is kept, exactly the key is added, a present key changes nothing |
| SearchTree.InorderIsCanonical | red_black_tree/code.c:141-160 | the in-order sequence is the distinct keys in increasing order; two histories give the same sequence if and only if they have the same keys |
| SearchTree.OrderShapesTheTree | red_black_tree/code.c:181-222 | the trees themselves do depend on the insertion order |
| SearchTree.AscendingIsSpine | red_black_tree/code.c:113-121 | ascending insertion gives a pure right spine |
| SearchTree.AscendingCost | red_black_tree/code.c:113-124 | then the height is the number of keys and the k-th key costs exactly k rounds |
| SearchTree.StepsBounded | red_black_tree/code.c:162-179 | search rounds never exceed the height, which never exceeds the number of nodes |
| SearchTree.HeightAttained | red_black_tree/code.c:162-179 | the height is the cost of some key of the tree |
| SearchTree.InsertMovesNothing | red_black_tree/code.c:181-222 | a new key costs one round more than the search that missed it, and no other key's cost changes |
| BatchQueue.Driver.Handle | work_queue_dedicated/code.c:163-197 | the pointers stay in step with the batch: the list is f[moving_val-1], ..., f[0] with those values, and a call does what `Call` says |
| BatchQueue.Driver.Fill | work_queue_dedicated/code.c:174-185 | one new node in front, or nothing when kmalloc fails |
| BatchQueue.Driver.Flush | work_queue_dedicated/code.c:186-195 | prints 13 down to 0 and leaves the list empty |
| BatchQueue.Driver.DeleteAll | work_queue_dedicated/code.c:190-194 | each of the 14 deletions acts on a non-null current member, and the list ends empty |
| BatchQueue.Driver.HandleAll | work_queue_dedicated/code.c:163-197 | any number of handler runs with failures anywhere leave the driver as `Calls` says, with n mod 15 nodes on the list for the n runs that did not fail, so none if and only if 15 divides n |
| BatchQueue.BatchesOfFifteen | work_queue_dedicated/code.c:174-207 | after any calls with failures anywhere, everything depends on the number n of calls that did not fail: n mod 15 on the list, n div 15 flushes in the log, 14 * (n div 15) nodes detached |
| BatchQueue.CleanRun | work_queue_dedicated/code.c:174-207 | the same in terms of the number of calls when no allocation fails |
| BatchTeardown.EveryInterruptAccounted | work_queue_dedicated/code.c:100-110 | in every interleaving each interrupt is in flight, merged, pending or has its handler run |
| BatchTeardown.RunsNeverExceedInterrupts | work_queue_dedicated/code.c:100-158 | handler runs never exceed interrupts, and after removal differ from them by the merged ones |
| BatchTeardown.CountersCount | work_queue_dedicated/code.c:100-158 | in every run the item is pending exactly when a queue_work has come since the worker last took it, merged counts the queue_work calls that found it so, and the other counters count their steps |
| BatchTeardown.NoInterruptDropped | work_queue_dedicated/code.c:100-158 | in every run that ends in removal each queue_work is followed by a start of the handler |
| BatchTeardown.RunsAreAskedFor | work_queue_dedicated/code.c:100-110 | the handler starts only when a queue_work has come since it was last started |
| BatchTeardown.RunsPerInterrupt | work_queue_dedicated/code.c:100-158 | after removal there was one handler run per interrupt, except for those that found the item still queued |
| BatchTeardown.CallsInOrder | work_queue_dedicated/code.c:143-158 | the four calls of removal return in order and once each |
| BatchTeardown.CallsWait | work_queue_dedicated/code.c:143-158 | when they return every interrupt handler has queued its work, and after the flush every handler run asked for has ended |
| BatchTeardown.InterruptsUntilFreed | work_queue_dedicated/code.c:143-158 | an interrupt can come if and only if free_irq has not returned |
| BatchTeardown.StepsWaitFor | work_queue_dedicated/code.c:100-158 | exactly what each interrupt handler, the worker and each call of removal waits for |
| BatchTeardown.NothingAfterTeardown | work_queue_dedicated/code.c:143-158 | once removal has completed nothing is pending or running and no step is left |
| BatchTeardown.TeardownCanFinish | work_queue_dedicated/code.c:143-158 | removal never gets stuck |
| BatchTeardown.ListAfterTeardown | work_queue_dedicated/code.c:44-56 | after removal moving_val is n mod 15 for the n handler runs that did not fail, and is 0 if and only if 15 divides n |
| BatchTeardown.DriverAfterTeardown | work_queue_dedicated/code.c:44-56 | the same on the pointers: for every run that ends in removal the list holds n mod 15 nodes, so the promised flush happened if and only if that is 0 |
| BatchTeardown.OneNodeLeft | work_queue_dedicated/code.c:44-56 | a run after which a node is left |
| WaitQueue.NoEarlyPass | wait_queue/code.c:58-77 | no waiter passes before the condition has held |
| WaitQueue.WhoIsQueued | wait_queue/code.c:92-101 | in every run a waiter is on the queue exactly while it is not runnable; one that has passed is not on it, one that sleeps is |
| WaitQueue.NoLostWakeIff | wait_queue/code.c:53-101 | for every script of assignments and wake-ups and any number of waiters, no interleaving leaves a waiter asleep at the end if and only if the condition holds throughout or some wake-up is followed by the condition holding for good |
| WaitQueue.OneSignal | work_queue_global/code.c:70-113 | one assignment of v and one wake-up let every waiter through if and only if v > 0, or v != 0, as the waiters test |
| WaitQueue.NoSleeperPastWake | wait_queue/code.c:72-77 | after such a wake-up no waiter is asleep ever again, whenever it was first scheduled |
| WaitQueue.PassesSoon | wait_queue/code.c:92-101 | from then on each waiter passes within three steps of its own and always has one to take |
| WaitQueue.NoSpinning | wait_queue/code.c:92-101 | in every run a waiter returns from having given up the processor at most once for each wake-up |
| WaitQueue.SleepsSoon | wait_queue/code.c:62-67 | while the condition does not hold and the signaller does nothing, a waiter takes at most four steps and stops only to sleep on the queue |
| WaitQueue.WhatActionsDo | wait_queue/code.c:53-77 | a wake-up gives every sleeper a step to take, an assignment changes no waiter |
| WaitQueue.FirstWakeReturns | wait_queue/code.c:62-67 | after the first wake-up, until the condition is set, each waiter is back asleep on the queue after at most four steps |
| WaitQueue.WaitModuleSignals | wait_queue/code.c:53-77 | the second and fourth action wake every sleeper, the first and third change no waiter, and there is no fifth |
| WaitQueue.GlobalModuleSignals | work_queue_global/code.c:70-84 | the handler sets the condition without touching start, then wakes it, and is done |
| WaitQueue.WaitModuleCorrect | wait_queue/code.c:53-101 | for n waiters: the condition is 0 until the third action and 1 from then on, a waiter passes only after that, and after the second wake-up none is asleep |
| WaitQueue.GlobalModuleCorrect | work_queue_global/code.c:45-113 | the condition is 0 until the handler sets it to 5, start passes its wait only after that, and is not left asleep |
| ThreadLifecycle.OnceEach | thread01/code.c:66-124 | in every interleaving each item is woken, stopped and freed at most once and in that order, every free follows the end of all threads, and after exit each happened exactly once |
| ThreadLifecycle.InListOrder | thread01/code.c:66-124 | in every interleaving an item is woken only after all those allocated later, and stopped only after all those have been stopped and have ended; no item is stopped before all are woken; frees run in allocation order |
| ThreadLifecycle.SleepsBetweenTests | thread01/code.c:93-111 | between two tests of its stop flag a thread has slept |
| ThreadLifecycle.ThreadsRunFreely | thread01/code.c:93-111 | a woken thread that has not ended always has a step to take, and it ends only when told to stop |
| ThreadLifecycle.EndsSoon | thread01/code.c:93-111 | a thread told to stop ends within two steps of its own and always has one to take |
| ThreadLifecycle.ExitCanFinish | thread01/code.c:74-91 | init and exit never deadlock |
| ThreadLifecycle.OnListIsListOrder | thread01/code.c:63-67 | the order in which items are met on the list |

## Left out

- Red-black colouring, rotations and logarithmic height: there is no code for them.
- `rb_first` and `rb_next` in `print`: insert never sets parent links, so only the in-order sequence is modelled.
- That the tree nodes of `start` in `red_black_tree/code.c` live on its stack.
- Reuse of an address by kmalloc after a free: every allocation is a new identity.
- Memory ordering, preemption counts, sleep times, signals and log texts.
- What a freed node holds: `RcuModule.Delete` records the hops off freed nodes and goes on with the pointer as it was. `RcuBracketing` treats a cursor without a read section in every interleaving with other threads.
- Interrupts that arrive inside `start` of `work_queue_dedicated/code.c`, before the queue exists.
- The local spinlock of `work_handler`, which excludes nobody; the handler is atomic because its queue has one thread.
- The lifetime of `my_data` around wake-up and free in `work_queue_global/code.c`.
- Failing allocation or thread creation in `km_init` of `thread01/code.c` and in `start` of `wait_queue/code.c`: the module is then not loaded.
- The final kfree loop of `link_list/code.c`, after which the list is not used.
- `radix_tree`, `mutex1`, `spinlock`, `ioctl`, `mmap`, `memory1`, `memory2`, `interrupt01`, `kprobe`, `kprobe1`, `kernfs`, `task_struct`, `basic`, `basic_debug`, `container_of`: calls into the kernel with next to no logic of their own.
