# A verified model of the ComplexSim kernel and of the tables it stands on

ComplexSim is a simulation library in C.  A run is driven by an engine thread, an event controller
and pools of workers that meet on a clock (`src/cs_*.c`); events, handlers and tasks are kept in
libavl's balanced trees (`avl-2.0/src/*.c`).  Both layers rest on invariants that the C code hints
at only through `assert`.  This project states these invariants and proves them in Dafny 4.11:

* **The tables.**  Memory is a map from addresses to node records, so relinking, aliasing and
  freeing are modelled as they happen.  Every table is a class whose methods make the writes of the
  C function in its order; a ghost tree says what the memory represents, and a ghost path (a zipper)
  is the list of ancestors that the C code keeps in `pa` and `da`, in threads or in parent pointers.
  In-order sequences consist of nodes and not just of items, so a rotation that lost, copied or
  swapped a node would be noticed.
* **The kernel.**  The pool, the lock-step of engine and event controller, the clock and the queue
  are state machines with one step per lock or semaphore section.  The theorems speak of every
  state that any finite sequence of enabled steps leads to, so of every interleaving.

| file | what it holds |
|---|---|
| `Store.dfy` | memory, trees, paths, frames, rotations: what all unthreaded tables share |
| `Ordered.dfy` | search order, the map a table stands for |
| `Splice.dfy` | taking out a node or putting its successor in its place |
| `RedBlackShape.dfy`, `RedBlackInsert.dfy`, `RedBlackDelete.dfy`, `RedBlack.dfy` | `rb.c`: find, probe, insert, replace, delete |
| `Traverser.dfy` | the traversers of `rb.c` |
| `AvlShape.dfy`, `AvlStack.dfy`, `AvlPaths.dfy`, `Avl.dfy` | `avl.c`: probe and delete, how long their arrays must be, and which nodes keep their ancestors |
| `Powers.dfy`, `Vine.dfy`, `Bst.dfy` | balancing in `bst.c` |
| `Pbst.dfy` | parent pointers repaired without a stack, `pbst.c` |
| `Threads.dfy`, `Tbst.dfy`, `Tavl.dfy` | threaded trees: balancing in `tbst.c`, deletion in `tavl.c` |
| `Timer.dfy` | the clock with n actors, `cs_timer.c` |
| `Engine.dfy`, `EngineClock.dfy` | engine, event controller, handlers and events, and that their clock is that clock |
| `EngineProgress.dfy` | that the termination test is obeyed, every tick is left, and activities take turns |
| `Queue.dfy` | the bounded closable queue, `cs_queue.c` |
| `WorkerPool.dfy`, `PoolQueue.dfy` | the worker pool, and that its queue is that queue |
| `PoolProgress.dfy` | that the pool goes on until everything is done, and who is woken |
| `Splits.dfy` | how events and activity items are divided among workers |

`dafny verify dfyconfig.toml` checks everything.

## What is taken as given

* Comparison functions are strict total orders; items are found through an integer key.
* `(struct node *) &tree->root` is the address `HEAD`, whose `link[0]` is the root.  `tavl_delete`
  also reads `tag[0]` there, which is a byte of another field of the table (`avl-2.0/include/tavl.h:58-65`);
  the model takes it not to be `TAVL_THREAD`.
* The result of an allocation is a parameter: `NULL`, or an address that is not in use.
* Where the C code has two mirrored arms for left and right, the model has one arm over a direction.
* `pa` and `da` are sequences, and the most entries in use at any time are counted (`high`); that the
  count fits the arrays is proved up to the number of items stated.
* A thread that waits on a condition goes on exactly when the condition is broadcast.  The C code
  waits under `if`, so a spurious wake-up would break it.
* The number of actors on a clock is fixed once the run starts; the pool's queue has one consumer;
  task ids are handed out atomically.

## What turned out otherwise than the code's comments suggest

* Offering a task to a closed queue returns 0, so `cs_wp_tsk_enqueue` returns an id; the slot of the
  limit semaphore is gone for good, what was offered never runs, and no wait for it ever returns
  (`WorkerPool.TasksConserved`, `Queue.CsQueue.Enqueue`).
* The semaphore of a task is posted once, and a woken `cs_wp_tsk_wait` does not post it again: of
  several waits that found the task unfinished only one is ever woken
  (`PoolProgress.OneWaitIsWoken`); a wait that finds the task done returns at once.
* The 32 entries of `pa` and `da` in `avl_delete` are one too few for a tree of 32 levels: a search
  for an absent key that goes through all of them fills 33.  There is a valid table with 5702886
  items and an absent key where this happens (`AvlStack.DeleteOverflows`); a search that ends in a
  hole stays inside the arrays exactly if it has compared with at most 31 nodes
  (`AvlStack.AbsentFitsIff`), and all searches do exactly if the tree has less than 32 levels
  (`AvlStack.DeleteFitsIff`), which up to 5702885 items it has.
* An event scheduled for a tick that has been passed, or that comes before the controller's first
  tick, is never handled and keeps an EVENT_DRIVEN run from ending (`Engine.EventFate`,
  `Engine.DrivenRunStopsEmpty`).  By the clock: an event due later is in time; an event due at the
  current time is late when scheduled before the run, in an AFTER_STEP activity or in a handler
  (`Engine.LateByTheClock`), and in a USER activity a race decides (`Engine.RaceInUserStep`).
* If the controller has been started with a first tick after 1, the run can block; with first tick 1
  it cannot (`Engine.BlocksIffLateStart`).
* The count assertion at the end of `cs_queue_dequeue` fails for two consumers; it holds exactly when
  no other consumer is between its semaphore and its lock, or the queue is closed
  (`Queue.PopAsserts`, `Queue.TwoConsumers`).
* Fewer items than workers, but at least one, give an activity only empty ranges (`Splits.CoveredIff`).

## Model

| member | source | states |
|---|---|---|
| RedBlack.RbTable.constructor | avl-2.0/src/rb.c:36-58 | a new table is valid and empty |
| RedBlack.RbTable.Find | avl-2.0/src/rb.c:63-82 | finds the item stored under a key, and nothing if the key is absent |
| RedBlack.RbTable.Probe | avl-2.0/src/rb.c:88-199 | insert-if-absent on a sorted map keeps all red-black rules; a duplicate or a failed allocation changes nothing; the slot of the right node comes back; 48 stack entries suffice up to 2^24 - 2 items |
| RedBlack.RbTable.RestoreAfterInsert | avl-2.0/src/rb.c:124-195 | the single red-red violation moves up two levels a round and is gone at the end, with the same nodes in the same order |
| RedBlack.RbTable.RecolourAfterInsert | avl-2.0/src/rb.c:129-134 | a red uncle: three colours change and the violation can only be at the grandparent |
| RedBlack.RbTable.RotateAfterInsert | avl-2.0/src/rb.c:135-158 | a black uncle: one or two rotations end the violation and keep black height and order |
| RedBlack.RbTable.Insert | avl-2.0/src/rb.c:205-210 | the duplicate comes back; otherwise the item is in the table unless the allocation failed |
| RedBlack.RbTable.Replace | avl-2.0/src/rb.c:216-228 | insert-or-replace on the map; a replaced item comes back and its node stays in place |
| RedBlack.RbTable.Delete | avl-2.0/src/rb.c:232-428 | the match comes back and the table is the old one minus exactly that key, red-black, one item and one record less; an absent key changes nothing; 48 stack entries suffice up to 2^24 - 2 items |
| RedBlack.RbTable.Locate | avl-2.0/src/rb.c:244-258 | the descent that starts at the head as if the comparison had been negative ends at the key or where it would be, with the stack holding the ancestors |
| RedBlack.RbTable.Unlink | avl-2.0/src/rb.c:260-305 | in all three cases just the node p leaves the in-order sequence, and if its final colour is black, one side of the path lacks one black node |
| RedBlack.RbTable.UnlinkSuccessor | avl-2.0/src/rb.c:277-304 | the in-order successor takes place, colour and stack slot of p |
| RedBlack.RbTable.RestoreAfterDelete | avl-2.0/src/rb.c:307-422 | the fix-up loop ends although it may push, restores all rules, keeps every node in order, pushes at most once and so needs at most one entry more than the path |
| RedBlack.RbTable.RotateRedSibling | avl-2.0/src/rb.c:324-339 | a red sibling is rotated up, and the new sibling is black with a red parent above the hole |
| RedBlack.RbTable.RotateNephew | avl-2.0/src/rb.c:348-366 | a red nephew ends the repair with one or two rotations |
| RedBlackShape.RBSize | avl-2.0/include/rb.h:53-55 | a tree of black height h has at least 2^h - 1 items and at most 2h levels under a black root |
| RedBlackShape.HeightLaw | avl-2.0/include/rb.h:53-55 | a red-black tree of n items has height at most 2 log2(n + 1) |
| RedBlackShape.HeightBound | avl-2.0/include/rb.h:53-55 | up to 2^24 - 2 items the height is at most 46 |
| Traverser.CountsChanges | avl-2.0/src/rb.c:122 | the generation is the number of changing calls modulo 2^64, and without a change all nodes stay in place |
| Traverser.StillRight | avl-2.0/src/rb.c:623-624 | after fewer than 2^64 changes an equal generation number means that the traverser's stack is the ancestor path in the table as it is now |
| Traverser.StillUsable | avl-2.0/src/rb.c:616-624 | a traverser that was up to date, on a node that stays in the table, is usable after any calls for other keys, as long as fewer than 2^64 of them changed the table |
| Traverser.RbTraverser.Refresh | avl-2.0/src/rb.c:432-456 | the stack is rebuilt as the ancestor path of the current node, which the search meets; `i` is never NULL, and up to 2^24 - 2 items the stack fits |
| Traverser.RbTraverser.ToEnd | avl-2.0/src/rb.c:472-521 | the first or last node of the table, with its ancestors on the stack |
| Traverser.RbTraverser.Move | avl-2.0/src/rb.c:616-717 | goes to the in-order neighbour in the table as it is now, to NULL past the end, and from NULL to the other end |
| Traverser.NeighbourInOrder | avl-2.0/src/rb.c:631-660 | down once and back out, or up to the first turn, is the next entry of the in-order sequence |
| AvlTree.AvlTable.Probe | avl-2.0/src/avl.c:88-194 | insert-if-absent keeps order and exact balances within -1..1; a duplicate or a failed allocation changes nothing; the peak of the cached comparisons is at most 32 up to 9227463 items; the generation stays exactly if every node that was in the table keeps its ancestors, and advances by one otherwise |
| AvlPaths.LeafAdded | avl-2.0/src/avl.c:115-132 | without a rotation the new tree is, balances aside, the old one with a leaf added, and every old node keeps its ancestors |
| AvlPaths.PathChanged | avl-2.0/src/avl.c:134-192 | a node that a rotation has moved down has not the ancestors it had before the insertion |
| AvlTree.AvlTable.BumpAll | avl-2.0/src/avl.c:128-132 | replaying the cached comparisons moves every balance from y to the new node by one towards it |
| AvlTree.AvlTable.Rebalance | avl-2.0/src/avl.c:134-190 | at most one rotation at y makes the whole tree AVL again |
| AvlShape.GrowBalanced | avl-2.0/src/avl.c:111-113 | below the last nonzero balance, one level more at the bottom is one level more at every node |
| AvlShape.GrownAtY | avl-2.0/src/avl.c:111-132 | at y either the new balance is in range and nothing above changes, or y is exactly two levels out |
| AvlShape.SingleGrow | avl-2.0/src/avl.c:137-143 | the single rotation after an insertion brings back the old height of the subtree |
| AvlShape.DoubleHeight | avl-2.0/src/avl.c:145-159 | the double rotation, with the three cases of the inner balance, gives an AVL subtree one level lower than before it |
| AvlTree.AvlTable.Delete | avl-2.0/src/avl.c:227-392 | the match comes back and the table is the old one minus exactly that key, AVL, one item and one record less; an absent key changes nothing; the number of stack entries is exact, and is at most 32 up to 5702885 items, or 9227463 if the key is present |
| AvlTree.AvlTable.Retrace | avl-2.0/src/avl.c:298-387 | from a subtree that is one level lower the loop makes the whole tree AVL again, in the same order |
| AvlTree.AvlTable.RetraceStep | avl-2.0/src/avl.c:301-386 | one round either ends with an AVL tree or passes the loss of one level to the parent |
| AvlShape.SingleLower | avl-2.0/src/avl.c:331-342 | after a deletion the single rotation restores the height just when the child was balanced, which is when the loop may stop |
| AvlShape.AvlSize | avl-2.0/include/avl.h:53-55 | an AVL tree of height h has at least the Fibonacci-like number of nodes |
| AvlStack.SmallestTrees | avl-2.0/include/avl.h:53-55 | height 32 takes 5702886 items and height 33 takes 9227464 |
| AvlStack.PushedThrough | avl-2.0/src/avl.c:242-253 | a search that goes through a path has stacked the nodes of the path |
| AvlStack.DeepTable | avl-2.0/src/avl.c:230-253 | for every height there is a valid table and an absent key for which avl_delete fills one entry more than the height |
| AvlStack.DeleteOverflows | avl-2.0/src/avl.c:230-253 | a valid table with 5702886 items and an absent key for which 33 entries of the 32 are filled |
| AvlStack.AbsentFitsIff | avl-2.0/src/avl.c:242-253 | an absent search fits the arrays exactly if at most 31 nodes are compared with |
| AvlStack.DeleteFitsIff | avl-2.0/src/avl.c:230-253 | all holes of a tree are within the arrays exactly if the tree has less than 32 levels |
| Powers.ClearLowBit | avl-2.0/src/bst.c:774-782 | x & (x - 1) is 0 exactly for a power of two and otherwise smaller, between the same powers of two |
| Bst.HighestPower | avl-2.0/src/bst.c:774-781 | the loop ends with the largest power of two not above its argument |
| Bst.BstTable.TreeToVine | avl-2.0/src/bst.c:723-744 | ends with a vine of the same nodes in the same order |
| Bst.BstTable.Compress | avl-2.0/src/bst.c:748-763 | rotates at every second node of the spine, as often as asked |
| Vine.CompressedInorder | avl-2.0/src/bst.c:753-762 | these rotations keep the in-order sequence |
| Vine.CompressSpine | avl-2.0/src/bst.c:788-793 | one round halves an odd spine and adds one level below it |
| Bst.BstTable.VineToTree | avl-2.0/src/bst.c:767-801 | the value of `height` is the height of the tree and the least possible one; the exit is taken exactly from 2^32 nodes on |
| Bst.BstTable.Balance | avl-2.0/src/bst.c:806-814 | same nodes, same order, height floor(log2 n) + 1 |
| Vine.SizeBelowPow2 | avl-2.0/src/bst.c:803-805 | no tree of height h has 2^h nodes, so that height is least |
| Pbst.UpdateParents | avl-2.0/src/pbst.c:671-700 | from arbitrary stale parent pointers, ends with every node pointing at the node that links to it and nothing else changed |
| Pbst.ParentField | avl-2.0/src/pbst.c:685-694 | a parent pointer is read only of nodes in the set of those repaired before |
| Pbst.Climb | avl-2.0/src/pbst.c:685-696 | from a node with repaired ancestors, climbs to the next node with an unvisited right child or out at the root |
| Pbst.FromLeft | avl-2.0/src/pbst.c:689-694 | the comparison with the parent's left link tells the side, and a NULL parent tells the root |
| Pbst.Balance | avl-2.0/src/pbst.c:705-713 | same nodes, same order, least height, every parent pointer exact |
| Threads.ThreadsExact | avl-2.0/include/tavl.h:67-81 | every link tagged as thread leads to the in-order predecessor or successor, NULL at the ends |
| Threads.TRotate | avl-2.0/src/tavl.c:477-501 | a rotation that turns the thread between the two nodes round keeps all threads exact |
| Tbst.TbstTable.TreeToVine | avl-2.0/src/tbst.c:633-665 | following successors builds a vine of the same nodes in the same order, all threads exact |
| Tbst.ToAncestor | avl-2.0/src/tbst.c:646-661 | the thread out of a finished subtree leads to the ancestor whose left link is stale, and that link is put right |
| Tbst.TbstTable.Compress | avl-2.0/src/tbst.c:670-698 | both loops rotate as asked and keep all threads, if the nodes moving up have right children in the first loop and none in the second |
| Tbst.TFold | avl-2.0/src/tbst.c:676-698 | the writes of the first loop are right exactly if `black` has a right child, those of the second exactly if it has none |
| Tbst.TbstTable.SecondRound | avl-2.0/src/tbst.c:723-738 | half the leaves are never more than half the vine, so the branch for that is dead, and the split between the two kinds of rotation is exact |
| Tbst.TbstTable.VineToTree | avl-2.0/src/tbst.c:702-745 | least height, same order, all threads exact |
| Tbst.TbstTable.Balance | avl-2.0/src/tbst.c:748-755 | the whole of it: same nodes, same order, exact threads, height floor(log2 n) + 1 |
| Tavl.TavlTable.FindParent | avl-2.0/src/tavl.c:286-319 | from child links and threads alone, the result is the record above the node |
| Tavl.ThreadUp | avl-2.0/src/tavl.c:300-305 | the thread out on one side leads to the parent exactly if that record has the node as child on the other side; otherwise the other thread does |
| Tavl.TavlTable.Delete | avl-2.0/src/tavl.c:323-576 | the match comes back and the table is the old one minus exactly that key, AVL, all threads exact, one item and one record less; an absent key changes nothing |
| Tavl.TavlTable.Locate | avl-2.0/src/tavl.c:336-347 | the descent ends at the key, or at the thread where it would hang |
| Tavl.TavlTable.Unlink | avl-2.0/src/tavl.c:349-425 | in every case just the node p leaves the sequence, the threads that led to it lead to its neighbours, and the subtree where dir and q point is one level lower |
| Tavl.MoveUp' | avl-2.0/src/tavl.c:366-425 | the successor takes p's place with both threads that led to p redirected to it |
| Tavl.TavlTable.Retrace | avl-2.0/src/tavl.c:429-573 | rebalancing by way of find_parent makes the whole tree AVL again and keeps order and threads |
| Tavl.TavlTable.SingleLowered | avl-2.0/src/tavl.c:477-501 | the single rotation, with a child or a thread between the two nodes |
| Tavl.TavlTable.DoubleLowered | avl-2.0/src/tavl.c:441-476 | the double rotation, with up to two of its links being threads |
| Timer.CsTimer.TimeSync | src/cs_timer.c:58-82 | from fewer than n arrivals in the round, clock * n + sync grows by one exactly if the call is let in, the clock advances exactly for the n-th, and sync stays below n |
| Timer.Arrivals | src/cs_timer.c:58-82 | in every reachable state total arrivals = clock * n + sync with sync < n, each actor has arrived clock or clock + 1 times, and the error branch is never taken |
| Timer.Barrier | src/cs_timer.c:68-76 | before a stop nobody returns from round k before all n have arrived in it, also when a fast actor is back before a slow one has woken |
| Timer.StopFreezes | src/cs_timer.c:84-89 | after the stop the clock stands, nobody is let in, and every waiting actor can go on |
| Timer.ClockAdvances | src/cs_timer.c:67-74 | before the stop the actors can always go on to the next tick of the clock |
| Timer.NeverAllWaiting | src/cs_timer.c:68-74 | the clock alone never has all its actors waiting |
| Engine.IterationStartsAfterHandlers | src/cs_engine.c:282-315 | when the engine starts an iteration all handlers of the current tick have ended and the controller is at or before the clock for the next tick |
| Engine.HandlersRunInTheirTick | src/cs_events.c:337-383 | neither side gets a tick ahead: a batch is handled in the tick its events are due, while the engine is still in that tick |
| Engine.FinalClock | src/cs_engine.c:294-317 | at the end the engine's time is the clock, and no later step moves the clock |
| Engine.EventFate | src/cs_events.c:509-525 | every scheduled event is pending, in the batch, or handled, at most once and at its own tick; it leaves the tree exactly when its tick is passed, unless it was late |
| Engine.LateFromTheStart | src/cs_events.c:622-656 | lateness is settled when the event is scheduled, by whether the controller has popped its tick or never will, and stays as it is |
| Engine.AheadIsInTime | src/cs_events.c:622-656 | an event due after the clock, and not before the first tick, is not late; one due before the clock is |
| Engine.LateByTheClock | src/cs_events.c:622-656 | before the run, in AFTER_STEP activities and in handlers an event is late exactly if it is due at the current time or earlier, or before the first tick |
| Engine.RaceInUserStep | src/cs_engine.c:304-307 | two runs that schedule an event for the current time from a USER activity: in one it is handled, in the other it is late |
| Engine.LateBeforeTheRun | src/cs_events.c:622-656 | a run with a late event |
| Engine.DrivenRunStopsEmpty | src/cs_engine.c:288-292 | an EVENT_DRIVEN run stops only with nothing pending and every scheduled event handled once |
| Engine.NeverStuck | src/cs_engine.c:245-319 | with first tick 1 some thread can always go on until both have ended |
| EngineProgress.StopsWhenTrue | src/cs_engine.c:284-317 | after a test that finds no event left in an EVENT_DRIVEN run, or the user's criterion true in another, no iteration begins any more, and the clock advances exactly once until the end |
| EngineProgress.CanEnd | src/cs_engine.c:287-317 | after such a test the end can be reached |
| EngineProgress.GoesOnWhenFalse | src/cs_engine.c:284-302 | after a test that came out false there is no end before another iteration |
| EngineProgress.TickBounded | src/cs_engine.c:282-315 | how long a tick can last: unless events are scheduled, no more steps than a measure of the state |
| EngineProgress.ReachesNextTick | src/cs_engine.c:282-315 | with first tick 1 every run can go on to the next tick or to its end, with nothing more being scheduled |
| EngineProgress.ActivitiesTakeTurns | src/cs_engine.c:284-314 | USER activities come in every iteration of a run that is not EVENT_DRIVEN and in no other, before the wait for the events; AFTER_STEP ones after it; the test after those |
| EngineProgress.PoppedOnce | src/cs_events.c:342-348 | the events of a tick are popped at most once: the tick has not been passed before, and has been after |
| Engine.BlocksIffLateStart | src/cs_events.c:342-346 | a run can block exactly if the controller's first tick is later than 1 |
| EngineClock.Refines | src/cs_engine.c:294-300 | every run of engine and controller is, on the clock, a run of two actors of the timer |
| Queue.CsQueue.Link | src/cs_queue.c:129-191 | the critical section of enqueue appends at the tail of the open queue, and only uses up a slot of a closed one |
| Queue.CsQueue.Unlink | src/cs_queue.c:211-258 | the critical section of dequeue yields the head, or NULL from an empty closed queue; tells exactly when its count assertion fails |
| Queue.CsQueue.Enqueue | src/cs_queue.c:112-192 | the code of QUEUE_FULL, 2, exactly without a free slot; 0 even when the queue is closed and takes nothing |
| Queue.CsQueue.Shut | src/cs_queue.c:17-39 | closes and posts once |
| Queue.ChainsMirror | src/cs_queue.c:152-162 | head to tail along prev is the reverse of tail to head along next |
| Queue.StepInv | src/cs_queue.c:112-259 | both semaphores account for contents and calls under way, the capacity holds, and popped followed by contents is what was accepted, in order |
| Queue.PopAsserts | src/cs_queue.c:215-242 | a pop never finds an open queue empty; the count assertion holds exactly for a lone consumer or a closed queue |
| Queue.TwoConsumers | src/cs_queue.c:240-242 | a run with two consumers that fails the count assertion |
| Queue.NothingAfterNull | src/cs_queue.c:215-219 | NULL comes only when everything ever accepted is out, and nothing is accepted after the close |
| Queue.DrainAll | src/cs_queue.c:194-259 | a lone consumer gets all that is left, in order and unblocked, and then NULL |
| Queue.DrainReachable | src/cs_queue.c:194-259 | so it does from every reachable closed state, and that is all that was accepted |
| Queue.ClosedInOrder | src/cs_queue.c:194-259 | whatever other calls come in between, after the close nothing is accepted and what is popped continues with what was inside, in order |
| Queue.NotBlocked | src/cs_queue.c:28-30 | in every such run the consumer that has not been told NULL is not blocked, and NULL means that all is out |
| PoolQueue.Refines | src/cs_workerpool.c:483-492 | every step of the pool is a step of this queue, with its history, or leaves it alone |
| WorkerPool.TakenInOrder | src/cs_workerpool.c:483-536 | the controller takes the tasks in the order in which they were appended, and all of them by its end |
| WorkerPool.Reachable | src/cs_workerpool.c:345-550 | in every interleaving the pool's invariant holds and no assert has failed |
| WorkerPool.ScanSucceeds | src/cs_workerpool.c:501-529 | WAITING workers = semaphore plus the token the controller holds; the scan finds one, and it has no task that could be overwritten |
| WorkerPool.TasksConserved | src/cs_workerpool.c:723-771 | an accepted task is in exactly one of queued, held, assigned, running, run, and is begun at most once; one offered after the close is nowhere |
| WorkerPool.ShutdownComplete | src/cs_workerpool.c:538-549 | when the controller has ended all workers have, none with a task, and exactly the accepted tasks have run, once each |
| WorkerPool.WaitReturnsAfterRun | src/cs_workerpool.c:661-665 | a wait for a task that is in the table returns only after the task has been run |
| WorkerPool.KnownStaysKnown | src/cs_workerpool.c:650-659 | a wait returns at once only for an id that is not in the table; an offered one is, from then on |
| PoolProgress.NeverStuck | src/cs_workerpool.c:474-550 | with at least one worker, in every reachable state some thread of the pool can take a step, unless the controller has ended or waits on the open empty queue |
| PoolProgress.RunBounded | src/cs_workerpool.c:345-550 | without new tasks the pool's threads take no more steps than a measure of the state, however they are scheduled |
| PoolProgress.ComesToRest | src/cs_workerpool.c:345-550 | from every reachable state the pool's own steps lead to one where none is possible |
| PoolProgress.RestMeansDone | src/cs_workerpool.c:345-550 | and there every task ever accepted has been run, once, and is marked as done |
| PoolProgress.ClosedPoolEnds | src/cs_workerpool.c:668-694 | a closed pool with at least one worker can end from every reachable state, with all accepted tasks run |
| PoolProgress.ProducersProceed | src/cs_queue.c:112-127 | a producer is turned away exactly when the queue has no slot left, lost ones included |
| PoolProgress.RanIsMarked | src/cs_workerpool.c:436-442 | a task that has been run is marked as done, or its worker can go on to mark it |
| PoolProgress.WaitCanReturn | src/cs_workerpool.c:645-666 | from every reachable state the pool by itself can go on until a wait for an accepted task comes back |
| PoolProgress.OneWaitIsWoken | src/cs_workerpool.c:645-666 | a task's semaphore has one post: at rest it is there or has woken one wait, and a second wait that found the task unfinished never comes back |
| WorkerPool.QueueBounded | src/cs_queue.c:117-126 | capacity = limit semaphore + contents + calls under way + slots lost to the close |
| Splits.EventList.UpdateGuards | src/cs_events.c:118-131 | guard i is item i * hops of the list, or the last item, and hops is count / tasks rounded down, or 1 |
| Splits.ShareEven | src/cs_events.c:119-131 | with enough events every share but the last is the even one rounded down, and the last has less than the number of tasks more |
| Splits.EventList.Worker | src/cs_events.c:201-215 | throws its share from its guard on and never reaches NULL |
| Splits.SharesTile | src/cs_events.c:355-359 | for any number of events and tasks the shares are not empty and follow each other up to the last event |
| Splits.EventList.Batch | src/cs_events.c:348-371 | the used tasks together throw every event of the list exactly once, in order, each its even share |
| Splits.Bind | src/cs_engine.c:57-83 | with at least as many items as workers the ranges start at 0, follow each other without gap or overlap and end with the last item; with fewer, every range is empty; each range but the last has the even share rounded down, the last the rest; the task at i is told its index and the number of tasks |
| Splits.RangesTile | src/cs_engine.c:76-79 | with at least as many items as workers the ranges tile the items |
| Splits.HandledOnce | src/cs_engine.c:76-79 | no item is in two ranges, and no range leaves the items |
| Splits.CoveredIff | src/cs_engine.c:57-83 | all items are covered exactly if there are as many items as workers, or none |

## Left out

- RedBlack.RbTable.Delete: beyond 2^24 - 2 items nothing is claimed about the 48 entries of `pa` and `da`; contents and shape hold for any number.
- AvlTree.AvlTable.Delete: what an access beyond the arrays does is not modelled; the entries are counted, and contents and shape hold as if there were room.
- Traverser.StillRight: after exactly 2^64 changes the generation number repeats, and nothing is claimed.
- Traverser.RbTraverser.Move: the caller must not have deleted the current node, as with the C traverser.
- Pbst.UpdateParents: `tree_to_vine` and `vine_to_tree` of `pbst.c` are those of `bst.c` and are taken from there.
- Tbst.TbstTable.SecondRound: the branch proved dead has no body.
- Splits.EventList.Batch: the tasks are run one after the other, as what each throws depends on its own guard and share alone.
- Splits.Bind: the number of items is not negative, and pointers to data and engine are left out.
- Engine.NeverStuck: says that some step is possible, not that the operating system takes it.
- WorkerPool.ShutdownComplete: restarting a pool after its shutdown, and calls made while `cs_wp_shutdown` holds the pool's mutex, are left out.
- Traverser.RbTraverser.Refresh: beyond 2^24 - 2 items nothing is claimed about the 48 entries of the stack.
- Queue.CsQueue.Link: the allocation of the element succeeds; the C code goes on with a null pointer if it does not.
- `tavl_probe`, `bst_delete`, `pbst_delete`, `tbst_probe`, `tbst_delete`: the same ideas as the operations above.
- `rb_t_insert`, `rb_t_copy`, `rb_t_replace`, `rb_copy`: small wrappers around what is modelled.
- `pavl.c`, `prb.c`, `trb.c`, `rtrb.c`, `rtavl.c`, `rtbst.c`, `bsts.c`: the same algorithms on other records.
- The engine without an event manager (one actor on the clock), and the network runtime, which is empty.
- `cs_evm_num_events` beyond its being zero exactly for an empty tree: its loop never advances.
- `cs_evm_install_handler` and `cs_evm_delete_events`: they pass the wrong pointer and free twice.
- What a handler or an activity does, besides scheduling events; handlers that are not installed.
- Logging, freeing and destroying, failures to create threads, locks or semaphores, spurious wake-ups.
- `slr.c`, the file generator and the samples.
