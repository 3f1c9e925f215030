# Blocking locks of a Xinu kernel, modelled in Dafny

This project models the three blocking locks of a small Xinu kernel. For each lock it models the metadata kept in the lock and in the process table:

- the **queue-lock** (`system/lock.c`): a flag and a FIFO wait queue. On release, ownership passes directly to the head waiter.
- the **active lock** (`system/active_lock.c`): a queue-lock with a lock id and a global table `locks[]` that maps each lock id to its holder. Each process records the lock it waits on in `pendingLockId`. Every contended acquisition runs a deadlock check, `check_deadlock`. The check walks the wait-for chain and reports the processes on a cycle in ascending order.
- the **priority-inheritance lock** (`system/pi_lock.c`): a queue-lock that records its current holder. A waiter with a higher priority raises the holder's priority (`update_priority`). On release, the holder's priority is recomputed (`restore_inheritance`) and the lock is handed to the next waiter (`pi_unpark`).

Each public operation is one atomic transition over immutable values. The guard spin, interrupt masking and `resched` are not modelled. In the kernel they serialise most of each operation, but not all of it: the fast paths of `al_lock`, `al_trylock` and `pi_lock` release the guard before they record the holder (see "Left out").

A contended acquire releases the guard before it parks, so it is modelled as two transitions:

1. enqueue the caller and set its park flag;
2. `Park`.

A release by another process can happen between the two. The park flag decides whether the late park blocks; the ready-list side of that race is under "Source behaviour kept as written".

Files:

- `kernel.dfy`: capacities, the process record, and `setpark`/`park`/`unpark`. The `al_` copies of these three in `active_lock.c` are identical, so one definition serves both.
- `queue_lock.dfy`: the queue-lock.
- `active_lock.dfy`: the active lock. It contains the chain walk, the theorem that characterises it, and the exchange sort.
- `priority_lock.dfy`: the priority-inheritance lock. Its locks live in an arena indexed by lock number, because `restore_inheritance` follows the `pendingLock` field of each process to the lock it refers to.

The process table is a `seq` indexed by pid, and its length (the kernel's `NPROC`) is left open. A wait queue is a `seq` of pids. Capacities are `NLOCKS = NALOCKS = NPILOCKS = 20`, from `include/lock.h`.

## Model

| member | source | states |
|---|---|---|
| Kernel.SetPark | system/lock.c:68-74 | Only the caller's park flag changes, and it becomes TRUE. |
| Kernel.Park | system/lock.c:76-88 | The caller becomes WAIT exactly when its park flag is still set. Otherwise nothing changes. |
| Kernel.Unpark | system/lock.c:90-99 | Only process `p` changes: it becomes READY and its park flag is cleared. |
| Kernel.UnparkWinsOverLatePark | system/lock.c:76-97 | Setpark then park leaves the process waiting. If unpark runs before or after park, the process ends ready. |
| QueueLock.InitLock | system/lock.c:13-24 | SYSERR exactly when `lock_count >= NLOCKS`. Otherwise the count rises by one and stays within NLOCKS, and the lock is free with an empty queue. |
| QueueLock.InitCapacity | system/lock.c:15-19 | From a count within capacity, the k-th of n successive calls succeeds exactly when `count + k < NLOCKS`. |
| QueueLock.Lock | system/lock.c:26-46 | A free lock is taken: flag 1, queue and processes unchanged. On a held lock the caller is appended to the tail and the flag is left alone. The caller's record differs only in its park flag, now set, and no other process changes. Both paths keep "waiters imply flag 1". |
| QueueLock.Unlock | system/lock.c:48-66 | With no waiter the lock becomes free, so releasing a free lock changes nothing. Otherwise exactly the head is removed, the rest of the queue is kept and the flag stays. The head's record differs only in being READY with its park flag cleared, and no other process changes. Keeps the invariant. |
| QueueLock.UnlockFreeIsNoOp | system/lock.c:55-65 | Releasing an unheld lock leaves it unheld with an empty queue and touches no process. |
| QueueLock.GrantsFollowQueue | system/lock.c:55-62 | n successive releases hand the lock to the first n waiters, in queue order. |
| QueueLock.LockAllAppends | system/lock.c:37-43 | On a held lock, processes that block one after another line up at the tail in that order, and the flag is unchanged. |
| QueueLock.FifoHandOff | system/lock.c:37-62 | Processes that block in order P1..Pn on a held lock are granted it in the same order over successive releases. |
| QueueLock.ParkAfterHandOffDoesNotBlock | system/lock.c:76-97 | If the lock is handed to a waiter between its enqueue and its park, the late park leaves it ready and the flag stays 1. Without the release, the park blocks it. |
| ActiveLock.WalkFrom | system/active_lock.c:29-78 | The walk only appends to `involved_processes` and never fills more than NALOCKS slots. |
| ActiveLock.WalkFollowsChain | system/active_lock.c:29-78 | The processes the walk visits form a wait-for chain. The verdict matches where the chain leads next: back to the caller (cycle), to a free lock or an unblocked holder (no cycle), or past the array bound. |
| ActiveLock.ChainWalkFacts | system/active_lock.c:20-34 | The complete walk starts at `curr_process`. On a cycle, its visited list is a closing wait-for chain. |
| ActiveLock.FitsForceCycle | system/active_lock.c:29-34 | Take a walk whose visited processes form a wait-for chain and whose verdict fits where that chain leads. If any closing chain exists, the walk reports a cycle: the closing chain cannot be shorter or longer than the visited one. |
| ActiveLock.ChainForcesCycle | system/active_lock.c:29-34 | Any wait-for chain from the caller that closes back on the caller, of any length, makes the walk report a cycle. |
| ActiveLock.CycleReportedExactly | system/active_lock.c:29-77 | The walk reports a cycle exactly when the chain lock -> holder -> pending lock ... reaches a holder equal to the caller before it meets a lock id or holder of -1. The chain length is not bounded. |
| ActiveLock.OverflowRevisitsALock | system/active_lock.c:22-31 | The walk overflows `involved_processes[NALOCKS]` only when no wait-for chain of any length closes back on the caller. The visited chain, extended by the next holder, is still a wait-for chain, and two of its members wait on the same lock. |
| ActiveLock.RepeatPropagates | system/active_lock.c:29-32 | Two chain members that wait on the same lock are followed, step for step, by the same holders, since each step depends only on the lock. |
| ActiveLock.ClosingChainLocksDistinct | system/active_lock.c:29-34 | The members of a closing wait-for chain wait on pairwise distinct locks. |
| ActiveLock.ClosingChainsFit | system/active_lock.c:22-31 | Every closing wait-for chain has at most NALOCKS members, so it fits `involved_processes`. |
| ActiveLock.SortChain | system/active_lock.c:40-61 | The exchange sort returns an ascending permutation of its input, with the same length. |
| ActiveLock.CheckDeadlock | system/active_lock.c:20-79 | A report exists exactly when a closing wait-for chain of any length exists. The report is the walk's visited processes sorted ascending, with the same length and multiset, and it includes the caller. It changes no table. |
| ActiveLock.FreshTableBlamesNullProcess | system/active_lock.c:18 | With the table as first initialised, only lock 0 has holder -1. A walk by the null process from any other lock reports a cycle on itself. |
| ActiveLock.ThreeProcessCycle | system/active_lock.c:29-77 | P1, P2, P3 wait on each other's locks. The walk from P3 visits P3, P1, P2 and reports a cycle. |
| ActiveLock.AlInitLock | system/active_lock.c:81-97 | SYSERR exactly when `al_count >= NALOCKS`. Otherwise the new lock is free with an empty queue, and its id is the previous count, a valid lock id. |
| ActiveLock.InitIdsDistinct | system/active_lock.c:83-91 | Ids handed out by successive initialisations strictly increase, so they are distinct. They lie in [0, NALOCKS), and at most NALOCKS of them are handed out from a fresh count. |
| ActiveLock.AlAcquire | system/active_lock.c:99-129 | Fast path: flag 1, caller recorded in `locks[lock_id]`, processes unchanged. Contended: the caller's pending id becomes the lock's id, the caller joins the tail with its park flag set, and the holder table is unchanged. Keeps the tables well formed. |
| ActiveLock.AlLock | system/active_lock.c:116-123 | A deadlock report comes only from a contended acquire, exactly when the caller's wait-for chain closes. The report holds the same processes as the walk visited (same multiset), sorted ascending. It includes the caller and has at most NALOCKS entries. |
| ActiveLock.AlUnlock | system/active_lock.c:131-159 | Empty queue: flag 0 and holder entry -1. Otherwise the head is dequeued and recorded as holder, and the flag stays; the head's record differs only in being READY with park flag cleared and pending id -1. In both cases the releaser's record differs only in pending id -1, and no other process changes. |
| ActiveLock.AlTryLock | system/active_lock.c:161-182 | It succeeds exactly on a free lock, recording the caller as holder and touching no other holder entry. On a held lock it returns FALSE with lock and tables unchanged. |
| ActiveLock.TryLockIsLockFastPath | system/active_lock.c:170-176 | A successful try-lock leaves exactly the state an uncontended acquire leaves. |
| ActiveLock.AcquirePreservesInv | system/active_lock.c:108-123 | Acquire keeps the lock invariant: waiters imply flag 1, a held lock has a real holder, and every waiter is pending on this lock. |
| ActiveLock.TryLockPreservesInv | system/active_lock.c:170-181 | Try-lock keeps the lock invariant. |
| ActiveLock.ReleasePreservesInv | system/active_lock.c:140-156 | Release keeps the lock invariant when the releaser is not queued and no pid is queued twice. |
| PriorityLock.PiInitLock | system/pi_lock.c:19-35 | SYSERR exactly when `pi_count == NPILOCKS`. Otherwise the lock becomes flag 0, holder 0, empty queue, the count rises by one, and nothing else changes. |
| PriorityLock.InitCapacity | system/pi_lock.c:21-31 | From a count within capacity, the k-th of n successive calls succeeds exactly when `count + k < NPILOCKS`. |
| PriorityLock.PiLock | system/pi_lock.c:38-65 | Fast path: flag 1 and the caller becomes `curr_holder`. Contended: the caller joins the tail with its park flag set. Keeps "waiters imply flag 1". |
| PriorityLock.UpdatePriority | system/pi_lock.c:93-120 | The holder is raised to the waiter's priority only when the waiter's is strictly greater; otherwise nothing changes. The base is saved only when none is saved yet, and no other process changes. |
| PriorityLock.PiPark | system/pi_lock.c:163-178 | Without the park flag nothing changes. With it, the caller becomes WAIT pending on `l`, and the holder ends with at least the caller's priority. |
| PriorityLock.InheritedFloor | system/pi_lock.c:128-139 | The scan returns the maximum of the saved base and the priorities of processes waiting on another lock held by the caller. |
| PriorityLock.RestoreInheritance | system/pi_lock.c:123-150 | If no base is saved, nothing changes. Otherwise the priority becomes that maximum, and the base is cleared exactly when the maximum equals the base. |
| PriorityLock.PiUnpark | system/pi_lock.c:181-207 | The head is dequeued and becomes `curr_holder`, and the flag stays. The head is READY with park flag cleared and no pending lock, keeps its `pendingLockId`, and takes the releaser's pre-restoration priority. When it is not the releaser, its whole record is stated: it also saves its own priority as base when the two differ. No process other than head and releaser changes. |
| PriorityLock.PiUnlock | system/pi_lock.c:68-90 | Empty queue: flag 0 and `curr_holder` left stale. Otherwise the head becomes the holder and the rest of the queue is kept. Keeps the invariant. |
| PriorityLock.RepeatedBoostsKeepBase | system/pi_lock.c:103-107 | After two boosts the holder keeps its original base, and its priority is the larger of the two waiters' priorities. |
| PriorityLock.BoostUndoneOnRelease | system/pi_lock.c:163-200 | A higher-priority waiter that parks raises the holder and saves the holder's own priority. If no one waits on another lock the holder holds, the release restores that priority, clears the base and hands the lock to the waiter at the waiter's own priority. |
| PriorityLock.HandOffRaisesLowerWaiter | system/pi_lock.c:188-196 | A lower-priority waiter handed the lock leaves at the releaser's higher priority, with its own priority saved as base. |
| PriorityLock.ZeroPriorityHolderStaysBoosted | system/pi_lock.c:103-106 | A holder whose own priority is 0 saves no base when boosted (0 means "none saved"). When it then hands the lock to the waiter that boosted it, `restore_inheritance` finds no base, so the former holder stays boosted. |

## Source behaviour kept as written

- The holder table `uint32 locks[NALOCKS] = {-1}` initialises only entry 0 to -1. Every other entry starts at 0, the null process (`ActiveLock.InitialHolders`, `ActiveLock.FreshTableBlamesNullProcess`).
- The chain walk has no step bound, and `involved_processes` has NALOCKS slots. The model uses that array size as fuel. A walk that needs another slot ends with the verdict `Overflow`, where the source writes out of bounds. `ActiveLock.OverflowRevisitsALock` shows this happens only when no chain closes back on the caller, and the chain then revisits a lock. `ActiveLock.ClosingChainsFit` shows that every closing chain fits the array, so the fuel never hides a cycle.
- `restore_inheritance` dereferences `pendingLock` even where `pi_unpark` has set it to NULL. The model keeps `pendingLock` as an `Option` and skips `None` entries.
- `pi_unpark` reads the releaser's priority before calling `restore_inheritance`. The new holder therefore receives the releaser's pre-restoration priority, which may be boosted (`PriorityLock.PiUnpark`, `PriorityLock.HandOffRaisesLowerWaiter`).
- `pi_initlock` fails only when the count is exactly `NPILOCKS`, where the other two locks test `>=`. The count only ever grows by one, so from 0 the outcome is the same.
- The `pi_unlock` path with no waiter leaves `curr_holder` naming the former holder.
- `ActiveLock.FreshTableBlamesNullProcess` describes a process blocking on a lock whose holder entry is still the initial 0. The modelled transitions never reach that table with a waiter. In the source only the fast-path window under "Left out" reaches it.
- On one CPU, `unpark` can run before `park` only if the waiter was preempted after clearing the guard. The waiter is then already READY in the ready list, and `unpark` inserts it a second time (system/lock.c:93-94, system/active_lock.c:215-216). The ready list is not modelled, so `Kernel.UnparkWinsOverLatePark` shows only the state and park-flag side of that race.

## Left out

- `system/spinlock.c`: its substance is the hardware test-and-set busy-wait, and there is no other state worth a model.
- `system/main-deadlock.c`: a demonstration driver that only calls the lock API, delays and prints. The hold-and-wait avoidance scenario it runs with `al_trylock` is not modelled.
- The guard spin (`test_and_set` with `sleepms`), `disable`/`restore` and `resched`: every operation is one atomic step, and no property is proved over interleavings. That includes mutual exclusion across all interleavings.
- The fast-path window. `al_lock` and `al_trylock` set the flag and clear the guard before writing `locks[lock_id]` (system/active_lock.c:110-112, 172-174). `pi_lock` does the same before writing `curr_holder` (system/pi_lock.c:49-51). Interrupts stay enabled. A contender that takes the guard in that window sees flag 1 with a stale holder: `check_deadlock` then walks a stale `locks[]` entry, or `update_priority` boosts a stale `curr_holder`. The model writes flag and holder in one step, so this window is not modelled.
- The ready list (`insert`, `getitem`, `firstid`) and the repositioning loop in `update_priority` (system/pi_lock.c:99-118): only the process state READY/WAIT is kept.
- `newqueue`/`enqueue`/`dequeue`/`isempty` internals: a wait queue is a `seq` of pids.
- The three-XOR exchange in the sort is modelled as a plain swap (`ActiveLock.Swap`). The two coincide because the loop only exchanges two distinct positions.
- `kprintf` output (`deadlock_detected=`, `priority_change=`): the deadlock report is a return value, and priority-change lines are not produced.
- Integer widths. Flags only take 0 and 1, and the lock counts stay within 20. Priorities (`pri16`) are compared and copied, never computed, so the model uses unbounded `int` with no wrap-around. The `uint32` holder entry -1 is read back as the `int` -1, as the source's comparison against -1 assumes.
- When the walk meets a holder of -1, the source reads `proctab[-1]` before its loop test stops. The model stops without that read.
- ActiveLock.CheckDeadlock: on an `Overflow` walk it reports nothing, whereas the source's behaviour there is undefined.
- ActiveLock.AlLock: the report is computed on the tables after the caller is enqueued. The source computes it just before. The holder table and the pending ids it reads are the same at both points.
- ActiveLock.ReleasePreservesInv: proved only when the releaser is not itself queued and no pid is queued twice. The source relies on both without checking them.
- PriorityLock.PiUnpark: when the new holder is the releaser itself, its priority is stated but its base is not, because `restore_inheritance` runs on the same record first.
- Invariants spanning several locks, such as "a process waits in at most one queue", are not stated.
