/**
 The blocking queue-lock of `system/lock.c`: a flag, a FIFO wait queue of
 pids, and direct hand-off of ownership to the head waiter on release.

 `lock` on a held lock is split into two transitions because the guard is
 released between them: `Lock` enqueues the caller and sets its park flag,
 and `Park` is the caller's later attempt to stop running.  An `Unlock` by
 another process may fall in between; the park flag decides the race.
 */
module QueueLock {
  import opened Kernel

  /** `lock_t` without the guard: `flag` is 1 while some process owns the lock. */
  datatype QLock = QLock(flag: int, queue: seq<int>)

  /** Result of `initlock`: the new value of `lock_count` and the initialised lock. */
  datatype Init = Init(count: int, lock: QLock)

  /** Result of `lock`: `blocked` tells whether the caller must go on to `Park`. */
  datatype Acquire = Acquire(lock: QLock, procs: ProcTable, blocked: bool)

  /** Result of `unlock`: `next` is the waiter the lock was handed to, if any. */
  datatype Release = Release(lock: QLock, procs: ProcTable, next: Option<int>)

  /** The flag is a bit, and a waiter exists only while the lock is owned. */
  predicate Inv(l: QLock) {
    (l.flag == 0 || l.flag == 1) && (|l.queue| > 0 ==> l.flag == 1)
  }

  /** `initlock`: fails once NLOCKS locks exist; otherwise a free lock with an empty queue. */
  function InitLock(count: int): (r: Result<Init>)
    ensures r.SysErr? <==> count >= NLOCKS
    ensures r.Ok? ==> r.value.count == count + 1 && r.value.count <= NLOCKS
    ensures r.Ok? ==> r.value.lock.flag == 0 && r.value.lock.queue == [] && Inv(r.value.lock)
  {
    if count >= NLOCKS then SysErr
    else Ok(Init(count + 1, QLock(0, [])))
  }

  /** Outcomes (true = OK) of `n` successive calls of `initlock`, starting from `count` locks. */
  function InitCalls(count: int, n: nat): seq<bool>
    decreases n
  {
    if n == 0 then []
    else match InitLock(count)
      case SysErr => [false] + InitCalls(count, n - 1)
      case Ok(i) => [true] + InitCalls(i.count, n - 1)
  }

  /** From a fresh kernel, the first NLOCKS initialisations succeed and every later one fails. */
  lemma {:induction false} InitCapacity(count: int, n: nat)
    requires 0 <= count <= NLOCKS
    ensures |InitCalls(count, n)| == n
    ensures forall k :: 0 <= k < n ==> (InitCalls(count, n)[k] <==> count + k < NLOCKS)
    decreases n
  {
    if n > 0 {
      match InitLock(count)
      case SysErr =>
        InitCapacity(count, n - 1);
      case Ok(i) =>
        InitCapacity(i.count, n - 1);
    }
  }

  /**
   `lock` up to the point where the guard is released: a free lock is taken
   at once; on a held lock the caller joins the tail of the queue with its
   park flag set, and the flag of the lock is left as it was.
   */
  function Lock(l: QLock, procs: ProcTable, curr: int): (r: Acquire)
    requires ValidPid(procs, curr)
    ensures r.blocked <==> l.flag != 0
    ensures !r.blocked ==> r.lock.flag == 1 && r.lock.queue == l.queue && r.procs == procs
    ensures r.blocked ==> r.lock.flag == l.flag && r.lock.queue == l.queue + [curr]
    ensures r.blocked ==> OthersUnchanged(procs, r.procs, curr) && r.procs[curr] == procs[curr].(parked := true)
    ensures Inv(l) ==> Inv(r.lock)
  {
    if l.flag == 0 then Acquire(QLock(1, l.queue), procs, false)
    else Acquire(QLock(l.flag, l.queue + [curr]), SetPark(procs, curr), true)
  }

  /**
   `unlock`: with no waiter the lock becomes free (a no-op on a free lock);
   otherwise exactly the head waiter is removed and made ready, and the lock
   stays owned, now by that waiter.
   */
  function Unlock(l: QLock, procs: ProcTable): (r: Release)
    requires ValidQueue(procs, l.queue)
    ensures |l.queue| == 0 ==> r.lock == QLock(0, []) && r.procs == procs && r.next == None
    ensures |l.queue| > 0 ==> r.next == Some(l.queue[0]) && r.lock.flag == l.flag
    ensures |l.queue| > 0 ==> l.queue == [l.queue[0]] + r.lock.queue
    ensures |l.queue| > 0 ==> OthersUnchanged(procs, r.procs, l.queue[0])
    ensures |l.queue| > 0 ==> r.procs[l.queue[0]] == procs[l.queue[0]].(state := Ready, parked := false)
    ensures ValidQueue(r.procs, r.lock.queue)
    ensures Inv(l) ==> Inv(r.lock)
  {
    if |l.queue| == 0 then Release(QLock(0, l.queue), procs, None)
    else Release(QLock(l.flag, l.queue[1..]), Unpark(procs, l.queue[0]), Some(l.queue[0]))
  }

  /** Releasing a free lock leaves it free with an empty queue and touches no process. */
  lemma UnlockFreeIsNoOp(procs: ProcTable)
    ensures Unlock(QLock(0, []), procs) == Release(QLock(0, []), procs, None)
  {
  }

  /** The processes handed the lock by `n` successive calls of `Unlock`, in order. */
  function Grants(l: QLock, procs: ProcTable, n: nat): seq<int>
    requires ValidQueue(procs, l.queue)
    decreases n
  {
    if n == 0 then []
    else
      var r := Unlock(l, procs);
      (if r.next.Some? then [r.next.value] else []) + Grants(r.lock, r.procs, n - 1)
  }

  /** Successive releases serve the waiters in queue order. */
  lemma {:induction false} GrantsFollowQueue(l: QLock, procs: ProcTable, n: nat)
    requires ValidQueue(procs, l.queue)
    requires n <= |l.queue|
    ensures Grants(l, procs, n) == l.queue[..n]
    decreases n
  {
    if n > 0 {
      var r := Unlock(l, procs);
      GrantsFollowQueue(r.lock, r.procs, n - 1);
      assert r.lock.queue[..n - 1] == l.queue[1..n];
    }
  }

  /** The state after the processes `ps` call `Lock` one after the other. */
  function LockAll(l: QLock, procs: ProcTable, ps: seq<int>): Acquire
    requires ValidQueue(procs, ps)
    decreases |ps|
  {
    if |ps| == 0 then Acquire(l, procs, false)
    else
      var a := Lock(l, procs, ps[0]);
      LockAll(a.lock, a.procs, ps[1..])
  }

  /** On a held lock, processes that block one after the other line up at the tail in that order. */
  lemma {:induction false} LockAllAppends(l: QLock, procs: ProcTable, ps: seq<int>)
    requires ValidQueue(procs, ps)
    requires l.flag != 0
    ensures LockAll(l, procs, ps).lock.queue == l.queue + ps
    ensures LockAll(l, procs, ps).lock.flag == l.flag
    ensures |LockAll(l, procs, ps).procs| == |procs|
    decreases |ps|
  {
    if |ps| > 0 {
      var a := Lock(l, procs, ps[0]);
      LockAllAppends(a.lock, a.procs, ps[1..]);
      assert l.queue + [ps[0]] + ps[1..] == l.queue + ps;
    }
  }

  /**
   FIFO hand-off: processes that block in order on a held lock with no
   waiters are granted it in that same order by successive releases.
   */
  lemma FifoHandOff(l: QLock, procs: ProcTable, ps: seq<int>)
    requires ValidQueue(procs, ps)
    requires l.flag == 1 && l.queue == []
    ensures var a := LockAll(l, procs, ps);
            ValidQueue(a.procs, a.lock.queue) && Grants(a.lock, a.procs, |ps|) == ps
  {
    var a := LockAll(l, procs, ps);
    LockAllAppends(l, procs, ps);
    assert a.lock.queue == ps;
    GrantsFollowQueue(a.lock, a.procs, |ps|);
    assert ps[..|ps|] == ps;
  }

  /**
   The race the park flag closes: when the holder releases between a
   waiter's `Lock` and its `Park`, the waiter is handed the lock and its
   late `Park` leaves it ready; without the release it stops running.
   */
  lemma ParkAfterHandOffDoesNotBlock(l: QLock, procs: ProcTable, p: int)
    requires ValidPid(procs, p)
    requires l.flag == 1 && l.queue == []
    ensures var a := Lock(l, procs, p);
            var u := Unlock(a.lock, a.procs);
            u.next == Some(p) && u.lock.flag == 1 && Park(u.procs, p)[p].state == Ready
    ensures var a := Lock(l, procs, p);
            Park(a.procs, p)[p].state == Waiting
  {
  }
}
