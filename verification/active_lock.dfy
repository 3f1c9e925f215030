/**
 The deadlock-detecting blocking lock of `system/active_lock.c`.

 Besides the queue-lock fields every lock carries an identity `lockId`
 handed out by `al_initlock`; a global table `holders` (the source's
 `locks[]`) records the pid holding each lock id (-1 = none), and each
 process records in `pendingLockId` the lock it is blocked on (-1 = none).
 On a contended `al_lock` the caller walks the single wait-for chain
 lock -> holder -> that holder's pending lock -> ... and reports, sorted
 ascending, the processes on it when the chain comes back to the caller.
 */
module ActiveLock {
  import opened Kernel

  /** `al_lock_t` without the guard. */
  datatype ALock = ALock(flag: int, lockId: int, queue: seq<int>)

  /** The global state the active locks share: `al_count`, `locks[]` and the process table. */
  datatype AlSystem = AlSystem(count: int, holders: seq<int>, procs: ProcTable)

  /** Result of `al_initlock`: the new `al_count` and the initialised lock. */
  datatype Init = Init(count: int, lock: ALock)

  /** Result of `al_lock`: `blocked` tells whether the caller must go on to `Park`. */
  datatype Acquire = Acquire(lock: ALock, sys: AlSystem, blocked: bool)

  /** Result of `al_unlock`: `next` is the waiter the lock was handed to, if any. */
  datatype Release = Release(lock: ALock, sys: AlSystem, next: Option<int>)

  /** Result of `al_trylock`. */
  datatype Try = Try(lock: ALock, sys: AlSystem, acquired: bool)

  predicate ValidLockId(id: int) {
    0 <= id < NALOCKS
  }

  /**
   The holder table as `uint32 locks[NALOCKS] = {-1}` initialises it: only
   entry 0 is -1, every other entry is 0, the pid of the null process.
   */
  const InitialHolders: seq<int> := [-1] + seq(NALOCKS - 1, _ => 0)

  /** Shapes of the two tables: holders are pids or -1, pending ids are lock ids or -1. */
  predicate TablesOk(holders: seq<int>, procs: ProcTable) {
    && |holders| == NALOCKS
    && |procs| > 0
    && (forall id :: 0 <= id < |holders| ==> holders[id] == -1 || ValidPid(procs, holders[id]))
    && (forall p :: 0 <= p < |procs| ==> procs[p].pendingLockId == -1 || ValidLockId(procs[p].pendingLockId))
  }

  predicate SystemOk(s: AlSystem) {
    TablesOk(s.holders, s.procs)
  }

  // ---------------------------------------------------------------------
  // Wait-for chains

  /** The lock the `i`-th process of chain `c` waits on: `start` for the caller, its `pendingLockId` for the rest. */
  function WaitsOn(procs: ProcTable, start: int, c: seq<int>, i: int): int {
    if i == 0 then start
    else if 0 <= i < |c| && ValidPid(procs, c[i]) then procs[c[i]].pendingLockId
    else -1
  }

  /** The holder recorded for lock `id`, or -1. */
  function HolderOf(holders: seq<int>, id: int): int {
    if 0 <= id < |holders| then holders[id] else -1
  }

  /** The process the chain leads to after its `i`-th process: the holder of the lock that process waits on. */
  function Successor(holders: seq<int>, procs: ProcTable, start: int, c: seq<int>, i: int): int {
    HolderOf(holders, WaitsOn(procs, start, c, i))
  }

  /**
   `c` is a wait-for chain of `curr` blocking on lock `start`: it begins with
   `curr`, every member waits on some lock, each later member holds the lock
   its predecessor waits on, and none of the later members is `curr`.
   */
  ghost predicate IsWaitChain(holders: seq<int>, procs: ProcTable, curr: int, start: int, c: seq<int>) {
    && |c| > 0
    && c[0] == curr
    && (forall i :: 0 <= i < |c| ==> ValidPid(procs, c[i]) && ValidLockId(WaitsOn(procs, start, c, i)))
    && (forall i :: 0 <= i < |c| - 1 ==> c[i + 1] != curr && c[i + 1] == Successor(holders, procs, start, c, i))
  }

  /**
   A wait-for chain that closes back on `curr`: the lock its last member
   waits on is held by `curr`.  No length bound is part of the definition;
   `ClosingChainsFit` shows that every such chain fits the report array.
   */
  ghost predicate DeadlockChain(holders: seq<int>, procs: ProcTable, curr: int, start: int, c: seq<int>) {
    && IsWaitChain(holders, procs, curr, start, c)
    && Successor(holders, procs, start, c, |c| - 1) == curr
  }

  lemma WaitsOnPrefix(procs: ProcTable, start: int, c: seq<int>, d: seq<int>, i: int)
    requires 0 <= i < |c| <= |d| && c == d[..|c|]
    ensures WaitsOn(procs, start, c, i) == WaitsOn(procs, start, d, i)
  {
    if i > 0 {
      assert c[i] == d[i];
    }
  }

  lemma ExtendChain(holders: seq<int>, procs: ProcTable, curr: int, start: int, c: seq<int>, x: int)
    requires IsWaitChain(holders, procs, curr, start, c)
    requires x != curr && x == Successor(holders, procs, start, c, |c| - 1)
    requires ValidPid(procs, x) && ValidLockId(procs[x].pendingLockId)
    ensures IsWaitChain(holders, procs, curr, start, c + [x])
  {
    var d := c + [x];
    assert d[0] == curr;
    forall i | 0 <= i < |d|
      ensures ValidPid(procs, d[i]) && ValidLockId(WaitsOn(procs, start, d, i))
    {
      if i < |c| {
        WaitsOnPrefix(procs, start, c, d, i);
      }
    }
    forall i | 0 <= i < |d| - 1
      ensures d[i + 1] != curr && d[i + 1] == Successor(holders, procs, start, d, i)
    {
      WaitsOnPrefix(procs, start, c, d, i);
      if i < |c| - 1 {
        assert c[i + 1] == Successor(holders, procs, start, c, i);
      }
    }
    assert IsWaitChain(holders, procs, curr, start, d);
  }

  /** Two wait-for chains of the same caller and lock agree on their common length. */
  lemma ChainsAgree(holders: seq<int>, procs: ProcTable, curr: int, start: int, c: seq<int>, d: seq<int>)
    requires IsWaitChain(holders, procs, curr, start, c)
    requires IsWaitChain(holders, procs, curr, start, d)
    requires |c| <= |d|
    ensures c == d[..|c|]
  {
    var k := 1;
    while k < |c|
      invariant 1 <= k <= |c|
      invariant forall j :: 0 <= j < k ==> c[j] == d[j]
    {
      assert c[k - 1] == d[k - 1];
      assert c[k] == Successor(holders, procs, start, c, k - 1);
      assert d[k] == Successor(holders, procs, start, d, k - 1);
      k := k + 1;
    }
    assert c == d[..|c|];
  }

  // ---------------------------------------------------------------------
  // check_deadlock: the chain walk

  /**
   Why the walk stopped: the chain came back to the caller, it ended at a
   free lock or at a holder that is not blocked, or it needed a slot past the
   NALOCKS entries of `involved_processes`, where the source writes out of
   bounds (the bound plays the part of fuel).
   */
  datatype Verdict = Cycle | NoCycle | Overflow

  /** The verdict and the processes appended to `involved_processes`, in order. */
  datatype Walk = Walk(verdict: Verdict, visited: seq<int>)

  /**
   One turn of the `while` loop of `check_deadlock` per call: `lockId` is
   `curr_lock_id`, `it` is `iterator` and `visited` the filled prefix of
   `involved_processes`.  When the holder is -1 the source goes on to read
   `proctab[-1]`, but the loop test then stops on `iterator == -1`; the walk
   stops there directly.
   */
  function WalkFrom(holders: seq<int>, procs: ProcTable, lockId: int, it: int, visited: seq<int>): (w: Walk)
    requires TablesOk(holders, procs)
    requires lockId == -1 || ValidLockId(lockId)
    requires it == -1 || ValidPid(procs, it)
    requires |visited| <= NALOCKS
    ensures |visited| <= |w.visited| <= NALOCKS && w.visited[..|visited|] == visited
    decreases NALOCKS - |visited|
  {
    if lockId == -1 || it == -1 then Walk(NoCycle, visited)
    else if |visited| == NALOCKS then Walk(Overflow, visited)
    else
      var v := visited + [it];
      var h := holders[lockId];
      if h == v[0] then Walk(Cycle, v)
      else if h == -1 then Walk(NoCycle, v)
      else WalkFrom(holders, procs, procs[h].pendingLockId, h, v)
  }

  /** The verdict of walk `w` agrees with where its chain of visited processes leads next. */
  ghost predicate VerdictFits(holders: seq<int>, procs: ProcTable, curr: int, start: int, w: Walk) {
    && |w.visited| > 0
    && var h := Successor(holders, procs, start, w.visited, |w.visited| - 1);
       match w.verdict
       case Cycle => h == curr
       case NoCycle => h == -1 || (h != curr && ValidPid(procs, h) && procs[h].pendingLockId == -1)
       case Overflow =>
         |w.visited| == NALOCKS && h != curr && ValidPid(procs, h) && procs[h].pendingLockId != -1
  }

  /**
   What the walk establishes when it is entered with a wait-for chain of
   `curr` as visited prefix: the processes it appends extend that chain, and
   its verdict matches the holder the chain leads to next.
   */
  lemma {:induction false} WalkFollowsChain(holders: seq<int>, procs: ProcTable, curr: int, start: int,
                                           lockId: int, it: int, visited: seq<int>)
    requires TablesOk(holders, procs) && ValidPid(procs, curr) && ValidLockId(start)
    requires lockId == -1 || ValidLockId(lockId)
    requires it == -1 || ValidPid(procs, it)
    requires |visited| <= NALOCKS
    requires |visited| == 0 ==> it == curr && lockId == start
    requires |visited| > 0 ==>
               && IsWaitChain(holders, procs, curr, start, visited)
               && it == Successor(holders, procs, start, visited, |visited| - 1)
               && it != curr
               && (it != -1 ==> lockId == procs[it].pendingLockId)
    ensures IsWaitChain(holders, procs, curr, start, WalkFrom(holders, procs, lockId, it, visited).visited)
    ensures VerdictFits(holders, procs, curr, start, WalkFrom(holders, procs, lockId, it, visited))
    decreases NALOCKS - |visited|
  {
    var w := WalkFrom(holders, procs, lockId, it, visited);
    if lockId == -1 || it == -1 {
      assert |visited| > 0;
      assert w == Walk(NoCycle, visited);
    } else if |visited| == NALOCKS {
      assert w == Walk(Overflow, visited);
    } else {
      var v := visited + [it];
      ExtendOrStart(holders, procs, curr, start, visited, it, lockId);
      var h := holders[lockId];
      assert v[0] == curr;
      assert Successor(holders, procs, start, v, |v| - 1) == h;
      if h == v[0] {
        assert w == Walk(Cycle, v);
      } else if h == -1 {
        assert w == Walk(NoCycle, v);
      } else {
        assert w == WalkFrom(holders, procs, procs[h].pendingLockId, h, v);
        WalkFollowsChain(holders, procs, curr, start, procs[h].pendingLockId, h, v);
      }
    }
  }

  /** Appending the current process keeps the visited prefix a wait-for chain whose last lock is `lockId`. */
  lemma ExtendOrStart(holders: seq<int>, procs: ProcTable, curr: int, start: int,
                      visited: seq<int>, it: int, lockId: int)
    requires TablesOk(holders, procs) && ValidPid(procs, curr) && ValidLockId(start)
    requires lockId != -1 && it != -1
    requires |visited| == 0 ==> it == curr && lockId == start
    requires |visited| > 0 ==>
               && IsWaitChain(holders, procs, curr, start, visited)
               && it == Successor(holders, procs, start, visited, |visited| - 1)
               && it != curr
               && lockId == procs[it].pendingLockId
    ensures ValidLockId(lockId)
    ensures IsWaitChain(holders, procs, curr, start, visited + [it])
    ensures WaitsOn(procs, start, visited + [it], |visited|) == lockId
  {
    if |visited| > 0 {
      ExtendChain(holders, procs, curr, start, visited, it);
    }
  }

  /** The whole walk of `check_deadlock(curr, l)` for a lock whose id is `start`. */
  function ChainWalk(holders: seq<int>, procs: ProcTable, curr: int, start: int): Walk
    requires TablesOk(holders, procs) && ValidPid(procs, curr) && ValidLockId(start)
  {
    WalkFrom(holders, procs, start, curr, [])
  }

  /** A longer wait-for chain continues a shorter one with the holder the shorter one leads to. */
  lemma ChainLeadsOn(holders: seq<int>, procs: ProcTable, curr: int, start: int, c: seq<int>, d: seq<int>)
    requires IsWaitChain(holders, procs, curr, start, c)
    requires IsWaitChain(holders, procs, curr, start, d)
    requires |c| < |d|
    ensures d[|c|] == Successor(holders, procs, start, c, |c| - 1)
  {
    ChainsAgree(holders, procs, curr, start, c, d);
    WaitsOnPrefix(procs, start, c, d, |c| - 1);
    assert d[|c|] == Successor(holders, procs, start, d, |c| - 1);
  }

  /** The facts about the complete walk from the caller. */
  lemma ChainWalkFacts(holders: seq<int>, procs: ProcTable, curr: int, start: int)
    requires TablesOk(holders, procs) && ValidPid(procs, curr) && ValidLockId(start)
    ensures IsWaitChain(holders, procs, curr, start, ChainWalk(holders, procs, curr, start).visited)
    ensures VerdictFits(holders, procs, curr, start, ChainWalk(holders, procs, curr, start))
    ensures ChainWalk(holders, procs, curr, start).visited[0] == curr
    ensures ChainWalk(holders, procs, curr, start).verdict == Cycle ==>
              DeadlockChain(holders, procs, curr, start, ChainWalk(holders, procs, curr, start).visited)
  {
    WalkFollowsChain(holders, procs, curr, start, start, curr, []);
  }

  /**
   A walk whose visited processes form a wait-for chain and whose verdict
   fits where that chain leads cannot miss a closing chain: the closing
   chain is either a prefix of the visited one, equal to it, or continues it.
   */
  lemma FitsForceCycle(holders: seq<int>, procs: ProcTable, curr: int, start: int, w: Walk, c: seq<int>)
    requires IsWaitChain(holders, procs, curr, start, w.visited)
    requires VerdictFits(holders, procs, curr, start, w)
    requires DeadlockChain(holders, procs, curr, start, c)
    ensures w.verdict == Cycle
  {
    ClosingChainsFit(holders, procs, curr, start, c);
    var v := w.visited;
    var h := Successor(holders, procs, start, v, |v| - 1);
    if |c| < |v| {
      assert v[|c|] == Successor(holders, procs, start, v, |c| - 1) && v[|c|] != curr;
      ChainLeadsOn(holders, procs, curr, start, c, v);
    } else if |c| == |v| {
      ChainsAgree(holders, procs, curr, start, c, v);
      assert v == c[..|c|];
      assert h == curr;
    } else {
      assert c[|v|] == Successor(holders, procs, start, c, |v| - 1) && c[|v|] != curr;
      assert ValidPid(procs, c[|v|]) && ValidLockId(WaitsOn(procs, start, c, |v|));
      ChainLeadsOn(holders, procs, curr, start, v, c);
    }
  }

  /** Any closing wait-for chain of the caller makes the walk report a cycle. */
  lemma ChainForcesCycle(holders: seq<int>, procs: ProcTable, curr: int, start: int, c: seq<int>)
    requires TablesOk(holders, procs) && ValidPid(procs, curr) && ValidLockId(start)
    requires DeadlockChain(holders, procs, curr, start, c)
    ensures ChainWalk(holders, procs, curr, start).verdict == Cycle
  {
    ChainWalkFacts(holders, procs, curr, start);
    FitsForceCycle(holders, procs, curr, start, ChainWalk(holders, procs, curr, start), c);
  }

  /**
   The walk reports a cycle exactly when there is a wait-for chain from the
   caller whose last lock is held by the caller.
   */
  lemma CycleReportedExactly(holders: seq<int>, procs: ProcTable, curr: int, start: int)
    requires TablesOk(holders, procs) && ValidPid(procs, curr) && ValidLockId(start)
    ensures ChainWalk(holders, procs, curr, start).verdict == Cycle
            <==> exists c :: DeadlockChain(holders, procs, curr, start, c)
  {
    ChainWalkFacts(holders, procs, curr, start);
    if c :| DeadlockChain(holders, procs, curr, start, c) {
      ChainForcesCycle(holders, procs, curr, start, c);
    }
  }

  /** `s` without its entry at `a`. */
  function RemoveAt(s: seq<int>, a: int): (t: seq<int>)
    requires 0 <= a < |s|
    ensures |t| == |s| - 1
    ensures forall k :: 0 <= k < a ==> t[k] == s[k]
    ensures forall k :: a <= k < |t| ==> t[k] == s[k + 1]
  {
    s[..a] + s[a + 1..]
  }

  /** Any `n + 1` values drawn from `[0, n)` contain a repeat. */
  lemma {:induction false} Pigeonhole(s: seq<int>, n: nat)
    requires n >= 1 && |s| > n
    requires forall k :: 0 <= k < |s| ==> 0 <= s[k] < n
    ensures exists a, b :: 0 <= a < b < |s| && s[a] == s[b]
    decreases n
  {
    if n == 1 {
      assert s[0] == s[1];
    } else if a :| 0 <= a < |s| && s[a] == n - 1 {
      if b :| 0 <= b < |s| && b != a && s[b] == n - 1 {
        if a < b {
          assert s[a] == s[b];
        } else {
          assert s[b] == s[a];
        }
      } else {
        var t := RemoveAt(s, a);
        Pigeonhole(t, n - 1);
        var x, y :| 0 <= x < y < |t| && t[x] == t[y];
        var x' := if x < a then x else x + 1;
        var y' := if y < a then y else y + 1;
        assert s[x'] == s[y'];
      }
    } else {
      Pigeonhole(s, n - 1);
    }
  }

  /**
   The array bound is only reached when no wait-for chain of any length
   closes back on the caller.  The visited chain, extended by the holder the
   walk would append next, is still a wait-for chain, and two of its
   members wait on the same lock.
   */
  lemma OverflowRevisitsALock(holders: seq<int>, procs: ProcTable, curr: int, start: int)
    requires TablesOk(holders, procs) && ValidPid(procs, curr) && ValidLockId(start)
    requires ChainWalk(holders, procs, curr, start).verdict == Overflow
    ensures !exists c :: DeadlockChain(holders, procs, curr, start, c)
    ensures var v := ChainWalk(holders, procs, curr, start).visited;
            var e := v + [Successor(holders, procs, start, v, |v| - 1)];
            && IsWaitChain(holders, procs, curr, start, e)
            && exists a, b :: 0 <= a < b < |e| && WaitsOn(procs, start, e, a) == WaitsOn(procs, start, e, b)
  {
    var v := ChainWalk(holders, procs, curr, start).visited;
    CycleReportedExactly(holders, procs, curr, start);
    ChainWalkFacts(holders, procs, curr, start);
    var h := Successor(holders, procs, start, v, |v| - 1);
    var e := v + [h];
    ExtendChain(holders, procs, curr, start, v, h);
    var ids := seq(|e|, k requires 0 <= k < |e| => WaitsOn(procs, start, e, k));
    forall k | 0 <= k < |ids|
      ensures 0 <= ids[k] < NALOCKS
    {
      if k < |v| {
        WaitsOnPrefix(procs, start, v, e, k);
      }
    }
    Pigeonhole(ids, NALOCKS);
    var a, b :| 0 <= a < b < |ids| && ids[a] == ids[b];
    assert WaitsOn(procs, start, e, a) == WaitsOn(procs, start, e, b);
  }

  /**
   The chain is determined by the locks its members wait on: two members
   waiting on the same lock are followed, step for step, by the same
   holders.
   */
  lemma {:induction false} RepeatPropagates(holders: seq<int>, procs: ProcTable, curr: int, start: int,
                                            c: seq<int>, a: int, b: int, k: nat)
    requires IsWaitChain(holders, procs, curr, start, c)
    requires 0 <= a < b && b + k < |c|
    requires WaitsOn(procs, start, c, a) == WaitsOn(procs, start, c, b)
    ensures Successor(holders, procs, start, c, a + k) == Successor(holders, procs, start, c, b + k)
    decreases k
  {
    if k > 0 {
      RepeatPropagates(holders, procs, curr, start, c, a, b, k - 1);
      assert c[a + k] == Successor(holders, procs, start, c, a + k - 1);
      assert c[b + k] == Successor(holders, procs, start, c, b + k - 1);
    }
  }

  /**
   The members of a closing chain wait on pairwise distinct locks: a repeat
   would make the chain lead back to `curr` before its end, which a wait-for
   chain rules out.
   */
  lemma ClosingChainLocksDistinct(holders: seq<int>, procs: ProcTable, curr: int, start: int, c: seq<int>)
    requires DeadlockChain(holders, procs, curr, start, c)
    ensures forall a, b :: 0 <= a < b < |c| ==> WaitsOn(procs, start, c, a) != WaitsOn(procs, start, c, b)
  {
    forall a, b | 0 <= a < b < |c|
      ensures WaitsOn(procs, start, c, a) != WaitsOn(procs, start, c, b)
    {
      if WaitsOn(procs, start, c, a) == WaitsOn(procs, start, c, b) {
        var k := |c| - 1 - b;
        assert c[a + k + 1] == Successor(holders, procs, start, c, a + k) && c[a + k + 1] != curr;
        RepeatPropagates(holders, procs, curr, start, c, a, b, k);
      }
    }
  }

  /** Every closing wait-for chain has at most NALOCKS members, so it fits `involved_processes`. */
  lemma ClosingChainsFit(holders: seq<int>, procs: ProcTable, curr: int, start: int, c: seq<int>)
    requires DeadlockChain(holders, procs, curr, start, c)
    ensures |c| <= NALOCKS
  {
    if |c| > NALOCKS {
      ClosingChainLocksDistinct(holders, procs, curr, start, c);
      var ids := seq(|c|, k requires 0 <= k < |c| => WaitsOn(procs, start, c, k));
      assert forall k :: 0 <= k < |ids| ==> ids[k] == WaitsOn(procs, start, c, k) && 0 <= ids[k] < NALOCKS;
      Pigeonhole(ids, NALOCKS);
    }
  }

  // ---------------------------------------------------------------------
  // check_deadlock: sorting and reporting

  predicate SortedAscending(s: seq<int>) {
    forall i, j :: 0 <= i < j < |s| ==> s[i] <= s[j]
  }

  /** The entries at `i` and `j` exchanged; the source does it with three XORs. */
  function Swap(s: seq<int>, i: int, j: int): (t: seq<int>)
    requires 0 <= i < j < |s|
    ensures |t| == |s| && t[i] == s[j] && t[j] == s[i]
    ensures forall k :: 0 <= k < |s| && k != i && k != j ==> t[k] == s[k]
    ensures multiset(t) == multiset(s)
  {
    s[i := s[j]][j := s[i]]
  }

  /**
   The exchange sort of `check_deadlock`: for each position `i`, every later
   entry smaller than the one at `i` is swapped into it.  (The source swaps
   with three XORs, which for two distinct positions is a plain swap.)
   */
  method SortChain(a: seq<int>) returns (s: seq<int>)
    ensures |s| == |a|
    ensures multiset(s) == multiset(a)
    ensures SortedAscending(s)
  {
    s := a;
    var i := 0;
    while i < |s|
      invariant |s| == |a| && 0 <= i <= |s|
      invariant multiset(s) == multiset(a)
      invariant forall x, y :: 0 <= x < y < i ==> s[x] <= s[y]
      invariant forall x, y :: 0 <= x < i <= y < |s| ==> s[x] <= s[y]
    {
      var j := i + 1;
      while j < |s|
        invariant |s| == |a| && i < j <= |s|
        invariant multiset(s) == multiset(a)
        invariant forall x, y :: 0 <= x < y < i ==> s[x] <= s[y]
        invariant forall x, y :: 0 <= x < i <= y < |s| ==> s[x] <= s[y]
        invariant forall y :: i < y < j ==> s[i] <= s[y]
      {
        if s[i] > s[j] {
          s := Swap(s, i, j);
        }
        j := j + 1;
      }
      i := i + 1;
    }
  }

  /**
   `check_deadlock`: observation only, it reads the two tables and returns
   the report it prints; a report exists exactly when the caller's wait-for
   chain closes, and lists the processes of that chain in ascending order.
   */
  method CheckDeadlock(holders: seq<int>, procs: ProcTable, curr: int, start: int)
    returns (report: Option<seq<int>>)
    requires TablesOk(holders, procs) && ValidPid(procs, curr) && ValidLockId(start)
    ensures report.Some? <==> exists c :: DeadlockChain(holders, procs, curr, start, c)
    ensures report.Some? ==> DeadlockChain(holders, procs, curr, start, ChainWalk(holders, procs, curr, start).visited)
    ensures report.Some? ==> multiset(report.value) == multiset(ChainWalk(holders, procs, curr, start).visited)
    ensures report.Some? ==> |report.value| == |ChainWalk(holders, procs, curr, start).visited|
    ensures report.Some? ==> SortedAscending(report.value) && curr in report.value
  {
    CycleReportedExactly(holders, procs, curr, start);
    ChainWalkFacts(holders, procs, curr, start);
    var w := ChainWalk(holders, procs, curr, start);
    if w.verdict == Cycle {
      var sorted := SortChain(w.visited);
      assert w.visited[0] == curr;
      assert curr in multiset(w.visited);
      report := Some(sorted);
    } else {
      report := None;
    }
  }

  /**
   With the holder table as first initialised, every never-used lock other
   than lock 0 appears to be held by the null process, so the null process
   blocking on any of them would be reported as deadlocked with itself.
   Through `AlInitLock`, `AlAcquire`, `AlTryLock` and `AlUnlock` this table
   is not reachable with a waiter, because a process blocks only on a lock
   whose fast path has already written its holder.  In the source it is
   reachable in the window where the fast paths of `al_lock` and
   `al_trylock` have set the flag and released the guard but not yet
   written `locks[lock_id]` (system/active_lock.c:110-112, 172-174).
   */
  lemma FreshTableBlamesNullProcess(procs: ProcTable)
    requires TablesOk(InitialHolders, procs)
    ensures InitialHolders[0] == -1
    ensures forall start :: 1 <= start < NALOCKS ==>
              ChainWalk(InitialHolders, procs, 0, start) == Walk(Cycle, [0])
  {
    forall start | 1 <= start < NALOCKS
      ensures ChainWalk(InitialHolders, procs, 0, start) == Walk(Cycle, [0])
    {
      assert InitialHolders[start] == 0;
    }
  }

  /**
   The three-process scenario: P1 holds lock 0 and waits on lock 1, P2 holds
   lock 1 and waits on lock 2, and P3, holding lock 2, blocks on lock 0; the
   walk from P3 visits P3, P1, P2 and closes the cycle.
   */
  lemma ThreeProcessCycle(procs: ProcTable)
    requires |procs| == 4
    requires procs[0].pendingLockId == -1 && procs[1].pendingLockId == 1
    requires procs[2].pendingLockId == 2 && procs[3].pendingLockId == 0
    ensures var holders := [1, 2, 3] + seq(NALOCKS - 3, _ => -1);
            TablesOk(holders, procs) && ChainWalk(holders, procs, 3, 0) == Walk(Cycle, [3, 1, 2])
  {
    var holders := [1, 2, 3] + seq(NALOCKS - 3, _ => -1);
    assert holders[0] == 1 && holders[1] == 2 && holders[2] == 3;
    assert TablesOk(holders, procs);
    calc {
      ChainWalk(holders, procs, 3, 0);
      WalkFrom(holders, procs, 0, 3, []);
      WalkFrom(holders, procs, 1, 1, [3]);
      WalkFrom(holders, procs, 2, 2, [3, 1]);
      Walk(Cycle, [3, 1, 2]);
    }
  }

  // ---------------------------------------------------------------------
  // The public operations

  /** `al_initlock`: fails once NALOCKS active locks exist; otherwise the new lock takes id `al_count`. */
  function AlInitLock(count: int): (r: Result<Init>)
    ensures r.SysErr? <==> count >= NALOCKS
    ensures r.Ok? ==> r.value.count == count + 1
    ensures r.Ok? ==> r.value.lock == ALock(0, count, []) && (0 <= count ==> ValidLockId(count))
  {
    if count >= NALOCKS then SysErr
    else Ok(Init(count + 1, ALock(0, count, [])))
  }

  /** The ids handed out by `n` successive calls of `al_initlock` starting at `count` (failures hand out none). */
  function InitIds(count: int, n: nat): seq<int>
    decreases n
  {
    if n == 0 then []
    else match AlInitLock(count)
      case SysErr => InitIds(count, n - 1)
      case Ok(i) => [i.lock.lockId] + InitIds(i.count, n - 1)
  }

  /** Ids handed out are strictly increasing (hence distinct) lock ids, at most NALOCKS of them from a fresh kernel. */
  lemma {:induction false} InitIdsDistinct(count: int, n: nat)
    requires 0 <= count
    ensures forall i :: 0 <= i < |InitIds(count, n)| ==>
              ValidLockId(InitIds(count, n)[i]) && count <= InitIds(count, n)[i]
    ensures forall i, j :: 0 <= i < j < |InitIds(count, n)| ==> InitIds(count, n)[i] < InitIds(count, n)[j]
    ensures |InitIds(count, n)| <= if count <= NALOCKS then NALOCKS - count else 0
    decreases n
  {
    if n > 0 {
      match AlInitLock(count)
      case SysErr =>
        InitIdsDistinct(count, n - 1);
      case Ok(i) =>
        InitIdsDistinct(i.count, n - 1);
    }
  }

  /**
   `al_lock` up to the point where the guard is released.  Free lock: it is
   taken and the caller is recorded as holder.  Held lock: the caller records
   the lock as pending (the deadlock check runs at this point, see `AlLock`),
   joins the tail of the queue and sets its park flag.
   */
  function AlAcquire(l: ALock, s: AlSystem, curr: int): (r: Acquire)
    requires ValidLockId(l.lockId) && |s.holders| == NALOCKS && ValidPid(s.procs, curr)
    ensures r.blocked <==> l.flag != 0
    ensures r.sys.count == s.count && r.lock.lockId == l.lockId
    ensures !r.blocked ==>
              && r.lock == l.(flag := 1)
              && r.sys.holders == s.holders[l.lockId := curr]
              && r.sys.procs == s.procs
    ensures r.blocked ==>
              && r.lock == l.(queue := l.queue + [curr])
              && r.sys.holders == s.holders
              && OthersUnchanged(s.procs, r.sys.procs, curr)
              && r.sys.procs[curr] == s.procs[curr].(pendingLockId := l.lockId, parked := true)
    ensures SystemOk(s) ==> SystemOk(r.sys)
  {
    if l.flag == 0 then
      Acquire(l.(flag := 1), s.(holders := s.holders[l.lockId := curr]), false)
    else
      var pending := s.procs[curr := s.procs[curr].(pendingLockId := l.lockId)];
      Acquire(l.(queue := l.queue + [curr]), s.(procs := SetPark(pending, curr)), true)
  }

  /**
   `al_lock`: the transition of `AlAcquire` plus the report of
   `check_deadlock`, which on the contended path is computed over the
   holder table and the pending ids with the caller's pending id recorded.
   */
  method AlLock(l: ALock, s: AlSystem, curr: int) returns (r: Acquire, report: Option<seq<int>>)
    requires ValidLockId(l.lockId) && SystemOk(s) && ValidPid(s.procs, curr)
    ensures r == AlAcquire(l, s, curr)
    ensures report.Some? <==>
              r.blocked && exists c :: DeadlockChain(r.sys.holders, r.sys.procs, curr, l.lockId, c)
    ensures report.Some? ==>
              multiset(report.value) == multiset(ChainWalk(r.sys.holders, r.sys.procs, curr, l.lockId).visited)
    ensures report.Some? ==> SortedAscending(report.value) && curr in report.value
    ensures report.Some? ==> |report.value| <= NALOCKS
  {
    r := AlAcquire(l, s, curr);
    if r.blocked {
      // The walk reads only `locks[]` and `pendingLockId`; enqueueing the
      // caller and setting its park flag leave both as they were.
      report := CheckDeadlock(r.sys.holders, r.sys.procs, curr, l.lockId);
    } else {
      report := None;
    }
  }

  /**
   `al_unlock`.  No waiter: the lock becomes free and its holder entry -1.
   Otherwise the head waiter is dequeued, its pending id cleared, recorded as
   holder and made ready, and the flag stays 1.  Either way the caller's own
   pending id is then reset to -1.
   */
  function AlUnlock(l: ALock, s: AlSystem, curr: int): (r: Release)
    requires ValidLockId(l.lockId) && |s.holders| == NALOCKS
    requires ValidPid(s.procs, curr) && ValidQueue(s.procs, l.queue)
    ensures r.sys.count == s.count && r.lock.lockId == l.lockId && |r.sys.procs| == |s.procs|
    ensures r.sys.procs[curr].pendingLockId == -1
    ensures |l.queue| == 0 ==>
              && r.next == None
              && r.lock == l.(flag := 0)
              && r.sys.holders == s.holders[l.lockId := -1]
              && r.sys.procs == s.procs[curr := s.procs[curr].(pendingLockId := -1)]
    ensures |l.queue| > 0 ==>
              var h := l.queue[0];
              && r.next == Some(h)
              && r.lock == l.(queue := l.queue[1..])
              && r.sys.holders == s.holders[l.lockId := h]
              && r.sys.procs[h] == s.procs[h].(state := Ready, parked := false, pendingLockId := -1)
              && (h != curr ==> r.sys.procs[curr] == s.procs[curr].(pendingLockId := -1))
              && (forall p :: 0 <= p < |s.procs| && p != h && p != curr ==> r.sys.procs[p] == s.procs[p])
    ensures SystemOk(s) ==> SystemOk(r.sys)
  {
    var handed :=
      if |l.queue| == 0 then Release(l.(flag := 0), s.(holders := s.holders[l.lockId := -1]), None)
      else
        var h := l.queue[0];
        var procs := s.procs[h := s.procs[h].(pendingLockId := -1)];
        Release(l.(queue := l.queue[1..]),
                s.(holders := s.holders[l.lockId := h], procs := Unpark(procs, h)),
                Some(h));
    var procs := handed.sys.procs;
    handed.(sys := handed.sys.(procs := procs[curr := procs[curr].(pendingLockId := -1)]))
  }

  /** `al_trylock`: the fast path of `al_lock` or, on a held lock, FALSE with nothing changed. */
  function AlTryLock(l: ALock, s: AlSystem, curr: int): (r: Try)
    requires ValidLockId(l.lockId) && |s.holders| == NALOCKS && ValidPid(s.procs, curr)
    ensures r.acquired <==> l.flag == 0
    ensures |r.sys.holders| == NALOCKS
    ensures !r.acquired ==> r.lock == l && r.sys == s
    ensures r.acquired ==>
              && r.lock.flag == 1 && r.lock.queue == l.queue && r.lock.lockId == l.lockId
              && r.sys.holders[l.lockId] == curr && r.sys.procs == s.procs
    ensures r.acquired ==> forall id :: 0 <= id < NALOCKS && id != l.lockId ==> r.sys.holders[id] == s.holders[id]
  {
    if l.flag == 0 then Try(l.(flag := 1), s.(holders := s.holders[l.lockId := curr]), true)
    else Try(l, s, false)
  }

  /** A successful `al_trylock` leaves exactly the state an uncontended `al_lock` leaves. */
  lemma TryLockIsLockFastPath(l: ALock, s: AlSystem, curr: int)
    requires ValidLockId(l.lockId) && |s.holders| == NALOCKS && ValidPid(s.procs, curr)
    ensures AlTryLock(l, s, curr).acquired == !AlAcquire(l, s, curr).blocked
    ensures AlTryLock(l, s, curr).acquired ==>
              AlTryLock(l, s, curr).lock == AlAcquire(l, s, curr).lock
              && AlTryLock(l, s, curr).sys == AlAcquire(l, s, curr).sys
  {
  }

  // ---------------------------------------------------------------------
  // The per-lock invariant

  predicate NoDuplicates(q: seq<int>) {
    forall i, j :: 0 <= i < j < |q| ==> q[i] != q[j]
  }

  /**
   Per-lock invariant: the flag is a bit, waiters exist only while the lock is
   held, a held lock has a real holder in the table, and every waiter records
   this lock as the one it is pending on.
   */
  predicate LockInv(l: ALock, s: AlSystem) {
    && SystemOk(s)
    && ValidLockId(l.lockId)
    && (l.flag == 0 || l.flag == 1)
    && (|l.queue| > 0 ==> l.flag == 1)
    && (l.flag == 1 ==> ValidPid(s.procs, s.holders[l.lockId]))
    && ValidQueue(s.procs, l.queue)
    && (forall k :: 0 <= k < |l.queue| ==> s.procs[l.queue[k]].pendingLockId == l.lockId)
  }

  lemma AcquirePreservesInv(l: ALock, s: AlSystem, curr: int)
    requires LockInv(l, s) && ValidPid(s.procs, curr)
    ensures LockInv(AlAcquire(l, s, curr).lock, AlAcquire(l, s, curr).sys)
  {
  }

  lemma TryLockPreservesInv(l: ALock, s: AlSystem, curr: int)
    requires LockInv(l, s) && ValidPid(s.procs, curr)
    ensures LockInv(AlTryLock(l, s, curr).lock, AlTryLock(l, s, curr).sys)
  {
  }

  /** Release keeps the invariant when the releaser is not itself queued and no pid is queued twice. */
  lemma ReleasePreservesInv(l: ALock, s: AlSystem, curr: int)
    requires LockInv(l, s) && ValidPid(s.procs, curr)
    requires curr !in l.queue && NoDuplicates(l.queue)
    ensures LockInv(AlUnlock(l, s, curr).lock, AlUnlock(l, s, curr).sys)
  {
    var r := AlUnlock(l, s, curr);
    if |l.queue| > 0 {
      forall k | 0 <= k < |r.lock.queue|
        ensures r.sys.procs[r.lock.queue[k]].pendingLockId == l.lockId
      {
        assert r.lock.queue[k] == l.queue[k + 1];
        assert l.queue[k + 1] != l.queue[0];
      }
    }
  }
}
