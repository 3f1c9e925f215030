/**
 The slice of the Xinu kernel that the three blocking locks read and write:
 the lock capacities, the per-process fields in the process table, and the
 park/unpark primitives that `lock.c` and `active_lock.c` share (the `al_`
 variants in `active_lock.c` are line-for-line copies of the `lock.c` ones).

 Every public operation is modelled as one atomic transition over immutable
 values; the guard spin, interrupt masking and `resched` are not modelled.
 In the kernel they serialise most of each operation, but not all of it: the
 fast paths of `al_lock`, `al_trylock` and `pi_lock` release the guard before
 they record the holder, and the model writes flag and holder in one step.
 */
module Kernel {

  /** Capacities from `include/lock.h`. */
  const NLOCKS: int := 20
  const NALOCKS: int := 20
  const NPILOCKS: int := 20

  datatype Option<+T> = None | Some(value: T)

  /** The two-valued outcome of an initialisation: OK with the new state, or SYSERR. */
  datatype Result<+T> = Ok(value: T) | SysErr

  /** The run states the locks write; every other Xinu state is `Other`. */
  datatype ProcState = Current | Ready | Waiting | Other

  /**
   One process-table entry, restricted to the fields the locks use:
   `prio` is `prprio`, `base` is the saved base `priority` (0 = not boosted),
   `parked` is `l_flag`, `pendingLockId` is the active lock waited for (-1 = none)
   and `pendingLock` is the priority-inheritance lock waited for (None = NULL),
   given as an index into the arena of priority-inheritance locks.
   */
  datatype Proc = Proc(
    state: ProcState,
    prio: int,
    base: int,
    parked: bool,
    pendingLockId: int,
    pendingLock: Option<int>)

  /** The process table, indexed by pid. */
  type ProcTable = seq<Proc>

  predicate ValidPid(procs: ProcTable, p: int) {
    0 <= p < |procs|
  }

  /** Every entry of a wait queue is a pid of the table. */
  predicate ValidQueue(procs: ProcTable, q: seq<int>) {
    forall k :: 0 <= k < |q| ==> ValidPid(procs, q[k])
  }

  /** The entries of `after` other than `p` are those of `before`. */
  predicate OthersUnchanged(before: ProcTable, after: ProcTable, p: int) {
    |after| == |before| && forall k :: 0 <= k < |before| && k != p ==> after[k] == before[k]
  }

  /** `setpark`: announce the intent to park before the guard is released. */
  function SetPark(procs: ProcTable, p: int): (r: ProcTable)
    requires ValidPid(procs, p)
    ensures OthersUnchanged(procs, r, p)
    ensures r[p].parked
    ensures r[p].(parked := procs[p].parked) == procs[p]
  {
    procs[p := procs[p].(parked := true)]
  }

  /**
   `park`: the caller stops running only if its park flag is still set; an
   `Unpark` that ran first has cleared the flag and the caller keeps running.
   */
  function Park(procs: ProcTable, p: int): (r: ProcTable)
    requires ValidPid(procs, p)
    ensures OthersUnchanged(procs, r, p)
    ensures procs[p].parked ==> r[p] == procs[p].(state := Waiting)
    ensures !procs[p].parked ==> r == procs
  {
    if procs[p].parked then procs[p := procs[p].(state := Waiting)] else procs
  }

  /** `unpark`: make `p` ready (it joins the ready list) and clear its park flag. */
  function Unpark(procs: ProcTable, p: int): (r: ProcTable)
    requires ValidPid(procs, p)
    ensures OthersUnchanged(procs, r, p)
    ensures r[p].state == Ready && !r[p].parked
    ensures r[p].(state := procs[p].state, parked := procs[p].parked) == procs[p]
  {
    procs[p := procs[p].(state := Ready, parked := false)]
  }

  /**
   Whichever of park and unpark runs last, the process ends up not waiting
   once unparked.  On one CPU unpark can precede park only when the waiter
   was preempted after releasing the guard, so it is already READY in the
   ready list; the kernel's unpark then inserts it a second time.  The ready
   list is not modelled, so that double insertion does not show here.
   */
  lemma UnparkWinsOverLatePark(procs: ProcTable, p: int)
    requires ValidPid(procs, p)
    ensures Park(Unpark(SetPark(procs, p), p), p)[p].state == Ready
    ensures Park(SetPark(procs, p), p)[p].state == Waiting
    ensures Unpark(Park(SetPark(procs, p), p), p)[p].state == Ready
  {
  }
}
