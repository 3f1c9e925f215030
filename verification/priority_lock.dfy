/**
 The priority-inheritance lock of `system/pi_lock.c`.

 A queue-lock that also records its current holder.  A waiter that parks
 with a higher priority than the holder boosts the holder to its own
 priority, saving the holder's base priority the first time.  On release
 the outgoing holder's priority is recomputed from its base and from the
 processes still waiting on the other locks it holds, and the incoming
 holder is given the outgoing holder's priority as it was before that
 recomputation.

 `restore_inheritance` follows `pendingLock` from every process to the lock
 it waits on, so the locks live in an arena indexed by lock number, and
 `pendingLock` holds such an index.
 */
module PriorityLock {
  import opened Kernel

  /** `pi_lock_t` without the guard. */
  datatype PLock = PLock(flag: int, queue: seq<int>, currHolder: int)

  /** `pi_count`, every priority-inheritance lock, and the process table. */
  datatype PiSystem = PiSystem(count: int, locks: seq<PLock>, procs: ProcTable)

  /** Result of `pi_lock`: `blocked` tells whether the caller must go on to `PiPark`. */
  datatype Acquire = Acquire(sys: PiSystem, blocked: bool)

  predicate ValidLock(s: PiSystem, lid: int) {
    0 <= lid < |s.locks|
  }

  /** Per-lock invariant: the flag is a bit and a waiter exists only while the lock is held. */
  predicate LockInv(l: PLock) {
    (l.flag == 0 || l.flag == 1) && (|l.queue| > 0 ==> l.flag == 1)
  }

  /** The arena's locks other than `lid` are unchanged. */
  predicate OtherLocksUnchanged(before: seq<PLock>, after: seq<PLock>, lid: int) {
    |after| == |before| && forall m :: 0 <= m < |before| && m != lid ==> after[m] == before[m]
  }

  // ---------------------------------------------------------------------
  // pi_initlock

  /** `pi_initlock`: fails when exactly NPILOCKS locks exist; otherwise lock `lid` becomes free, held by pid 0. */
  function PiInitLock(s: PiSystem, lid: int): (r: Result<PiSystem>)
    requires ValidLock(s, lid)
    ensures r.SysErr? <==> s.count == NPILOCKS
    ensures r.Ok? ==>
              && r.value.count == s.count + 1
              && OtherLocksUnchanged(s.locks, r.value.locks, lid)
              && r.value.locks[lid] == PLock(0, [], 0)
              && r.value.procs == s.procs
  {
    if s.count == NPILOCKS then SysErr
    else Ok(s.(count := s.count + 1, locks := s.locks[lid := PLock(0, [], 0)]))
  }

  /** Outcomes (true = OK) of `n` successive calls of `pi_initlock` on lock `lid`. */
  function InitCalls(s: PiSystem, lid: int, n: nat): seq<bool>
    requires ValidLock(s, lid)
    decreases n
  {
    if n == 0 then []
    else match PiInitLock(s, lid)
      case SysErr => [false] + InitCalls(s, lid, n - 1)
      case Ok(s') => [true] + InitCalls(s', lid, n - 1)
  }

  /** From a count within capacity, the calls succeed until NPILOCKS locks exist and fail from then on. */
  lemma {:induction false} InitCapacity(s: PiSystem, lid: int, n: nat)
    requires ValidLock(s, lid) && 0 <= s.count <= NPILOCKS
    ensures |InitCalls(s, lid, n)| == n
    ensures forall k :: 0 <= k < n ==> (InitCalls(s, lid, n)[k] <==> s.count + k < NPILOCKS)
    decreases n
  {
    if n > 0 {
      match PiInitLock(s, lid)
      case SysErr =>
        InitCapacity(s, lid, n - 1);
      case Ok(s') =>
        InitCapacity(s', lid, n - 1);
    }
  }

  // ---------------------------------------------------------------------
  // pi_lock and pi_park

  /**
   `pi_lock` up to the point where the guard is released: a free lock is
   taken and the caller becomes its holder; on a held lock the caller joins
   the tail of the queue with its park flag set.
   */
  function PiLock(s: PiSystem, lid: int, curr: int): (r: Acquire)
    requires ValidLock(s, lid) && ValidPid(s.procs, curr)
    ensures r.blocked <==> s.locks[lid].flag != 0
    ensures r.sys.count == s.count && OtherLocksUnchanged(s.locks, r.sys.locks, lid)
    ensures !r.blocked ==>
              && r.sys.locks[lid] == s.locks[lid].(flag := 1, currHolder := curr)
              && r.sys.procs == s.procs
    ensures r.blocked ==>
              && r.sys.locks[lid] == s.locks[lid].(queue := s.locks[lid].queue + [curr])
              && OthersUnchanged(s.procs, r.sys.procs, curr)
              && r.sys.procs[curr] == s.procs[curr].(parked := true)
    ensures LockInv(s.locks[lid]) ==> LockInv(r.sys.locks[lid])
  {
    var l := s.locks[lid];
    if l.flag == 0 then
      Acquire(s.(locks := s.locks[lid := l.(flag := 1, currHolder := curr)]), false)
    else
      Acquire(s.(locks := s.locks[lid := l.(queue := l.queue + [curr])],
                 procs := SetPark(s.procs, curr)), true)
  }

  /**
   `update_priority`: a waiter with strictly higher priority than the holder
   raises the holder to its own priority; the holder's base priority is saved
   only if none is saved yet, so repeated boosts keep the original base.
   Moving the holder within the ready list is not modelled.
   */
  function UpdatePriority(procs: ProcTable, holder: int, waiter: int): (r: ProcTable)
    requires ValidPid(procs, holder) && ValidPid(procs, waiter)
    ensures procs[waiter].prio <= procs[holder].prio ==> r == procs
    ensures procs[waiter].prio > procs[holder].prio ==>
              && OthersUnchanged(procs, r, holder)
              && r[holder].prio == procs[waiter].prio
              && r[holder].base == (if procs[holder].base == 0 then procs[holder].prio else procs[holder].base)
              && r[holder].(prio := procs[holder].prio, base := procs[holder].base) == procs[holder]
    ensures r[holder].prio >= procs[holder].prio && r[holder].prio >= procs[waiter].prio
  {
    if procs[waiter].prio > procs[holder].prio then
      var h := procs[holder];
      var h' := if h.base == 0 then h.(base := h.prio) else h;
      procs[holder := h'.(prio := procs[waiter].prio)]
    else procs
  }

  /**
   `pi_park`: only if the caller's park flag is still set does it stop
   running, record the lock as the one it waits on and boost the holder.
   */
  function PiPark(s: PiSystem, lid: int, curr: int): (r: PiSystem)
    requires ValidLock(s, lid) && ValidPid(s.procs, curr) && ValidPid(s.procs, s.locks[lid].currHolder)
    ensures r.count == s.count && r.locks == s.locks && |r.procs| == |s.procs|
    ensures !s.procs[curr].parked ==> r == s
    ensures s.procs[curr].parked ==>
              var parked := s.procs[curr := s.procs[curr].(state := Waiting, pendingLock := Some(lid))];
              r.procs == UpdatePriority(parked, s.locks[lid].currHolder, curr)
    ensures s.procs[curr].parked && s.locks[lid].currHolder != curr ==>
              && r.procs[curr] == s.procs[curr].(state := Waiting, pendingLock := Some(lid))
              && r.procs[s.locks[lid].currHolder].prio >= s.procs[curr].prio
  {
    if s.procs[curr].parked then
      var procs := s.procs[curr := s.procs[curr].(state := Waiting, pendingLock := Some(lid))];
      s.(procs := UpdatePriority(procs, s.locks[lid].currHolder, curr))
    else s
  }

  // ---------------------------------------------------------------------
  // restore_inheritance

  /**
   Process `k` donates priority to `curr`: it waits on a lock other than
   `lid` whose holder is `curr`.  A NULL `pendingLock` (None) is skipped,
   where the source dereferences it.
   */
  predicate Donates(locks: seq<PLock>, procs: ProcTable, lid: int, curr: int, k: int)
    requires ValidPid(procs, k)
  {
    match procs[k].pendingLock
    case None => false
    case Some(m) => 0 <= m < |locks| && locks[m].currHolder == curr && m != lid
  }

  /**
   The scan of `restore_inheritance` from process `i` on, with running
   maximum `acc`: the largest of `acc` and the priorities of the donors.
   */
  function InheritedFloor(locks: seq<PLock>, procs: ProcTable, lid: int, curr: int, i: nat, acc: int): (r: int)
    requires i <= |procs|
    ensures acc <= r
    ensures forall k :: i <= k < |procs| && Donates(locks, procs, lid, curr, k) ==> procs[k].prio <= r
    ensures r == acc || exists k :: i <= k < |procs| && Donates(locks, procs, lid, curr, k) && procs[k].prio == r
    decreases |procs| - i
  {
    if i == |procs| then acc
    else
      var acc' := if Donates(locks, procs, lid, curr, i) && procs[i].prio > acc then procs[i].prio else acc;
      InheritedFloor(locks, procs, lid, curr, i + 1, acc')
  }

  /**
   `restore_inheritance`: a caller with no saved base priority is left as it
   is.  Otherwise its priority becomes the largest of its base and the
   priorities of its donors, and the saved base is cleared exactly when that
   largest value is the base itself.
   */
  function RestoreInheritance(locks: seq<PLock>, procs: ProcTable, lid: int, curr: int): (r: ProcTable)
    requires ValidPid(procs, curr)
    ensures |r| == |procs|
    ensures procs[curr].base <= 0 ==> r == procs
    ensures procs[curr].base > 0 ==>
              var b := procs[curr].base;
              var p := r[curr].prio;
              && OthersUnchanged(procs, r, curr)
              && b <= p
              && (forall k :: 0 <= k < |procs| && Donates(locks, procs, lid, curr, k) ==> procs[k].prio <= p)
              && (p == b || exists k :: 0 <= k < |procs| && Donates(locks, procs, lid, curr, k) && procs[k].prio == p)
              && r[curr].base == (if p == b then 0 else b)
              && r[curr].(prio := procs[curr].prio, base := b) == procs[curr]
  {
    var b := procs[curr].base;
    if b > 0 then
      var p := InheritedFloor(locks, procs, lid, curr, 0, b);
      procs[curr := procs[curr].(prio := p, base := if p == b then 0 else b)]
    else procs
  }

  // ---------------------------------------------------------------------
  // pi_unlock and pi_unpark

  /**
   `pi_unpark`: the head waiter is dequeued and becomes the holder with its
   pending lock cleared; the releaser's priority is read, then the releaser
   is restored; the new holder is given that priority read before the
   restoration (saving its own priority as base when they differ) and is
   made ready with its park flag cleared.  The flag stays 1.
   */
  function PiUnpark(s: PiSystem, lid: int, curr: int): (r: PiSystem)
    requires ValidLock(s, lid) && ValidPid(s.procs, curr)
    requires |s.locks[lid].queue| > 0 && ValidQueue(s.procs, s.locks[lid].queue)
    ensures r.count == s.count && OtherLocksUnchanged(s.locks, r.locks, lid)
    ensures var l := s.locks[lid];
            r.locks[lid] == PLock(l.flag, l.queue[1..], l.queue[0])
    ensures |r.procs| == |s.procs|
    ensures var next := s.locks[lid].queue[0];
            && r.procs[next].state == Ready && !r.procs[next].parked && r.procs[next].pendingLock == None
            && r.procs[next].prio == s.procs[curr].prio
            && r.procs[next].pendingLockId == s.procs[next].pendingLockId
    ensures var next := s.locks[lid].queue[0];
            next != curr ==>
              && r.procs[next] == s.procs[next].(
                   state := Ready, parked := false, pendingLock := None, prio := s.procs[curr].prio,
                   base := if s.procs[next].prio != s.procs[curr].prio then s.procs[next].prio else s.procs[next].base)
              && r.procs[curr] ==
                   RestoreInheritance(r.locks, s.procs[next := s.procs[next].(pendingLock := None)], lid, curr)[curr]
    ensures forall k :: 0 <= k < |s.procs| && k != curr && k != s.locks[lid].queue[0] ==> r.procs[k] == s.procs[k]
  {
    var l := s.locks[lid];
    var next := l.queue[0];
    var locks := s.locks[lid := PLock(l.flag, l.queue[1..], next)];
    var procs1 := s.procs[next := s.procs[next].(pendingLock := None)];
    var current := procs1[curr].prio;
    var procs2 := RestoreInheritance(locks, procs1, lid, curr);
    var procs3 :=
      if procs2[next].prio != current then procs2[next := procs2[next].(base := procs2[next].prio, prio := current)]
      else procs2;
    var procs4 := procs3[next := procs3[next].(parked := false, state := Ready)];
    PiSystem(s.count, locks, procs4)
  }

  /** `pi_unlock`: with no waiter only the flag is cleared (the holder field goes stale); otherwise `PiUnpark`. */
  function PiUnlock(s: PiSystem, lid: int, curr: int): (r: PiSystem)
    requires ValidLock(s, lid) && ValidPid(s.procs, curr) && ValidQueue(s.procs, s.locks[lid].queue)
    ensures r.count == s.count && OtherLocksUnchanged(s.locks, r.locks, lid) && |r.procs| == |s.procs|
    ensures |s.locks[lid].queue| == 0 ==> r.locks[lid] == s.locks[lid].(flag := 0) && r.procs == s.procs
    ensures |s.locks[lid].queue| > 0 ==>
              && r.locks[lid].flag == s.locks[lid].flag
              && r.locks[lid].currHolder == s.locks[lid].queue[0]
              && s.locks[lid].queue == [s.locks[lid].queue[0]] + r.locks[lid].queue
    ensures ValidQueue(r.procs, r.locks[lid].queue)
    ensures LockInv(s.locks[lid]) ==> LockInv(r.locks[lid])
  {
    var l := s.locks[lid];
    if |l.queue| == 0 then s.(locks := s.locks[lid := l.(flag := 0)])
    else PiUnpark(s, lid, curr)
  }

  // ---------------------------------------------------------------------
  // Properties across operations

  /** Two boosts in a row: the holder ends at the larger waiter priority and keeps its original base. */
  lemma RepeatedBoostsKeepBase(procs: ProcTable, holder: int, w1: int, w2: int)
    requires ValidPid(procs, holder) && ValidPid(procs, w1) && ValidPid(procs, w2)
    requires holder != w1 && holder != w2
    requires procs[holder].base == 0 && procs[holder].prio != 0 && procs[w1].prio > procs[holder].prio
    ensures var r := UpdatePriority(UpdatePriority(procs, holder, w1), holder, w2);
            && r[holder].base == procs[holder].prio
            && r[holder].prio == (if procs[w2].prio > procs[w1].prio then procs[w2].prio else procs[w1].prio)
  {
  }

  /**
   Round trip of priority inheritance: a higher-priority waiter that blocks
   and parks raises the holder to its priority, with the holder's own
   priority saved; when the holder releases and no process waits on another
   lock it holds, it drops back to its own priority with nothing saved,
   and the waiter becomes the holder at its own priority.
   */
  lemma BoostUndoneOnRelease(s: PiSystem, lid: int, h: int, w: int)
    requires ValidLock(s, lid) && ValidPid(s.procs, h) && ValidPid(s.procs, w) && h != w
    requires s.locks[lid] == PLock(1, [], h)
    requires s.procs[h].base == 0 && 0 < s.procs[h].prio < s.procs[w].prio
    requires forall k :: 0 <= k < |s.procs| && k != w ==> !Donates(s.locks, s.procs, lid, h, k)
    ensures var a := PiLock(s, lid, w);
            var p := PiPark(a.sys, lid, w);
            && a.blocked
            && p.procs[h].prio == s.procs[w].prio && p.procs[h].base == s.procs[h].prio
            && p.procs[w].state == Waiting
    ensures var a := PiLock(s, lid, w);
            var p := PiPark(a.sys, lid, w);
            var u := PiUnlock(p, lid, h);
            && u.locks[lid] == PLock(1, [], w)
            && u.procs[h].prio == s.procs[h].prio && u.procs[h].base == 0
            && u.procs[w].prio == s.procs[w].prio && u.procs[w].state == Ready
  {
    var a := PiLock(s, lid, w);
    var p := PiPark(a.sys, lid, w);
    assert a.sys.locks[lid] == PLock(1, [w], h);
    var procs1 := p.procs[w := p.procs[w].(pendingLock := None)];
    var locks := p.locks[lid := PLock(1, [], w)];
    forall k | 0 <= k < |procs1|
      ensures !Donates(locks, procs1, lid, h, k)
    {
      if k != w {
        assert procs1[k] == s.procs[k].(prio := procs1[k].prio, base := procs1[k].base, parked := procs1[k].parked);
        if procs1[k].pendingLock.Some? {
          var m := procs1[k].pendingLock.value;
          assert !Donates(s.locks, s.procs, lid, h, k);
          assert m != lid ==> 0 <= m < |locks| ==> locks[m] == s.locks[m];
        }
      }
    }
  }

  /**
   The hand-off passes on the releaser's priority as it was before
   restoration: a lower-priority waiter with nothing queued behind it leaves
   the queue running at the releaser's higher priority, with its own saved.
   */
  lemma HandOffRaisesLowerWaiter(s: PiSystem, lid: int, h: int, w: int)
    requires ValidLock(s, lid) && ValidPid(s.procs, h) && ValidPid(s.procs, w) && h != w
    requires s.locks[lid] == PLock(1, [w], h)
    requires s.procs[h].base == 0 && s.procs[w].prio < s.procs[h].prio
    ensures var u := PiUnlock(s, lid, h);
            && u.locks[lid] == PLock(1, [], w)
            && u.procs[w].prio == s.procs[h].prio > s.procs[w].prio
            && u.procs[w].base == s.procs[w].prio
  {
  }

  /**
   A holder whose own priority is 0 cannot record a saved base (0 means
   "none saved"), so a boost it receives is not undone when it hands the
   lock to the waiter that boosted it: `restore_inheritance` sees no base.
   */
  lemma ZeroPriorityHolderStaysBoosted(s: PiSystem, lid: int, h: int, w: int)
    requires ValidLock(s, lid) && ValidPid(s.procs, h) && ValidPid(s.procs, w) && h != w
    requires s.locks[lid] == PLock(1, [w], h) && s.procs[w].parked
    requires s.procs[h].base == 0 && s.procs[h].prio == 0 && s.procs[w].prio > 0
    ensures var p := PiPark(s, lid, w);
            var u := PiUnlock(p, lid, h);
            && p.procs[h].prio == s.procs[w].prio && p.procs[h].base == 0
            && u.locks[lid].currHolder == w
            && u.procs[h].prio == s.procs[w].prio && u.procs[h].base == 0
  {
  }
}
