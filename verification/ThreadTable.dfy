/**
 The thread records of a process. Slots are handed out first-fit and never cleared, and the lookup
 by pid ignores whether a slot is in use.
 */
module ThreadTable {
  import opened Kernel
  import opened PrivateMemory
  import Scheduler

  datatype Op = Clone(pid: Word32) | Exit(pid: Word32)

  /** The first unused slot, or the length of the table. */
  function FirstFree(slots: seq<Thread>): (i: nat)
    ensures i <= |slots|
    ensures i < |slots| ==> !slots[i].used
    ensures forall j :: 0 <= j < i ==> slots[j].used
  {
    if slots == [] || !slots[0].used then 0 else 1 + FirstFree(slots[1..])
  }

  /** The first slot that carries `pid`, in use or not, or the length of the table. */
  function FirstWithPid(slots: seq<Thread>, pid: Word32): (i: nat)
    ensures i <= |slots|
    ensures i < |slots| ==> slots[i].pid == pid
    ensures forall j :: 0 <= j < i ==> slots[j].pid != pid
  {
    if slots == [] || slots[0].pid == pid then 0 else 1 + FirstWithPid(slots[1..], pid)
  }

  predicate IsLive(slots: seq<Thread>, pid: Word32) {
    exists i :: 0 <= i < |slots| && slots[i].used && slots[i].pid == pid
  }

  /** A clone fails when all slots are in use. */
  function AfterClone(slots: seq<Thread>, pid: Word32): seq<Thread> {
    var i := FirstFree(slots);
    if i < |slots| then slots[i := slots[i].(pid := pid, used := true)] else slots
  }

  /** An exit releases the slot that the lookup finds. */
  function AfterExit(slots: seq<Thread>, pid: Word32): seq<Thread> {
    var i := FirstWithPid(slots, pid);
    if i < |slots| then slots[i := slots[i].(used := false)] else slots
  }

  /** A new context never gets the pid of a live thread; only live threads exit. */
  predicate Allowed(slots: seq<Thread>, op: Op) {
    match op
    case Clone(pid) => !IsLive(slots, pid)
    case Exit(pid) => IsLive(slots, pid)
  }

  function Step(slots: seq<Thread>, op: Op): seq<Thread> {
    match op
    case Clone(pid) => AfterClone(slots, pid)
    case Exit(pid) => AfterExit(slots, pid)
  }

  predicate RunAllowed(slots: seq<Thread>, ops: seq<Op>)
    decreases |ops|
  {
    ops == [] || (Allowed(slots, ops[0]) && RunAllowed(Step(slots, ops[0]), ops[1..]))
  }

  function Run(slots: seq<Thread>, ops: seq<Op>): seq<Thread>
    decreases |ops|
  {
    if ops == [] then slots else Run(Step(slots, ops[0]), ops[1..])
  }

  /** No slot in front of a used one carries its pid, not even a stale one. */
  ghost predicate FirstIsLive(slots: seq<Thread>) {
    forall i, j :: 0 <= i < j < |slots| && slots[j].used ==> slots[i].pid != slots[j].pid
  }

  lemma {:induction false} StepKeepsFirstIsLive(slots: seq<Thread>, op: Op)
    requires FirstIsLive(slots) && Allowed(slots, op)
    ensures FirstIsLive(Step(slots, op)) && |Step(slots, op)| == |slots|
  {
    var after := Step(slots, op);
    forall i, j | 0 <= i < j < |after| && after[j].used ensures after[i].pid != after[j].pid {
      assert slots[j].used || after[j] != slots[j];
      if op.Clone? && i != FirstFree(slots) && j == FirstFree(slots) {
        assert slots[i].used && slots[i].pid != op.pid;
      }
      if op.Clone? && i == FirstFree(slots) {
        assert slots[j].used && slots[j].pid != op.pid;
      }
    }
  }

  /**
   In every reachable table, looking up the pid of a live thread finds its live slot, although the lookup
   does not look at the status and stale records are never erased.
   */
  lemma {:induction false} LookupFindsLiveSlot(slots: seq<Thread>, ops: seq<Op>, pid: Word32)
    requires FirstIsLive(slots) && RunAllowed(slots, ops) && IsLive(Run(slots, ops), pid)
    ensures var t, i := Run(slots, ops), FirstWithPid(Run(slots, ops), pid);
            i < |t| && t[i].used && t[i].pid == pid
    decreases |ops|
  {
    if ops == [] {
      var k :| 0 <= k < |slots| && slots[k].used && slots[k].pid == pid;
      assert FirstWithPid(slots, pid) == k;
    } else {
      StepKeepsFirstIsLive(slots, ops[0]);
      LookupFindsLiveSlot(Step(slots, ops[0]), ops[1..], pid);
    }
  }

  /** An exit therefore ends exactly the thread that exits. */
  lemma {:induction false} ExitEndsThatThread(slots: seq<Thread>, pid: Word32)
    requires FirstIsLive(slots) && IsLive(slots, pid)
    ensures var t := AfterExit(slots, pid);
            && !IsLive(t, pid)
            && forall q :: q != pid ==> (IsLive(t, q) <==> IsLive(slots, q))
  {
    LookupFindsLiveSlot(slots, [], pid);
    var t, i := AfterExit(slots, pid), FirstWithPid(slots, pid);
    forall q | q != pid ensures IsLive(t, q) <==> IsLive(slots, q) {
      if k :| 0 <= k < |slots| && slots[k].used && slots[k].pid == q { assert t[k] == slots[k]; }
      if k :| 0 <= k < |t| && t[k].used && t[k].pid == q { assert t[k] == slots[k]; }
    }
    forall k | 0 <= k < |t| ensures !(t[k].used && t[k].pid == pid) {
      if k > i && t[k].used { assert slots[i].pid != slots[k].pid; }
    }
  }

  /** A clone makes its pid live, in the first unused slot and with that slot's areas, unless all are in use. */
  lemma {:induction false} CloneStartsThatThread(slots: seq<Thread>, pid: Word32)
    ensures var t := AfterClone(slots, pid);
            if forall i :: 0 <= i < |slots| ==> slots[i].used then t == slots
            else
              && IsLive(t, pid) && (forall q :: q != pid ==> (IsLive(t, q) <==> IsLive(slots, q)))
              && exists i :: 0 <= i < |slots| && !slots[i].used && (forall j :: 0 <= j < i ==> slots[j].used)
                   && t == slots[i := Thread(pid, true, slots[i].areas)]
  {
    var t, i := AfterClone(slots, pid), FirstFree(slots);
    if i < |slots| {
      assert t[i].used && t[i].pid == pid;
      forall q | q != pid ensures IsLive(t, q) <==> IsLive(slots, q) {
        if k :| 0 <= k < |slots| && slots[k].used && slots[k].pid == q { assert t[k] == slots[k]; }
        if k :| 0 <= k < |t| && t[k].used && t[k].pid == q { assert t[k] == slots[k]; }
      }
    }
  }

  /** What an exit leaves of the record: its pid and its areas. */
  lemma {:induction false} ExitKeepsPidAndAreas(slots: seq<Thread>, pid: Word32)
    ensures var t := AfterExit(slots, pid);
            if forall i :: 0 <= i < |slots| ==> slots[i].pid != pid then t == slots
            else exists i :: 0 <= i < |slots| && slots[i].pid == pid && (forall j :: 0 <= j < i ==> slots[j].pid != pid)
                   && t == slots[i := Thread(pid, false, slots[i].areas)]
  {
    var i := FirstWithPid(slots, pid);
    if i < |slots| { assert slots[i].pid == pid; }
  }

  // ----- the lookup of the context switch -----

  /** The last slot that carries `pid`, in use or not. */
  function LastWithPid(slots: seq<Thread>, pid: Word32): (slot: Option<nat>)
    ensures slot.Some? ==> slot.value < |slots| && slots[slot.value].pid == pid
    decreases |slots|
  {
    if slots == [] then None
    else
      var n := |slots| - 1;
      if slots[n].pid == pid then Some(n) else LastWithPid(slots[..n], pid)
  }

  lemma {:induction false} LastWithPidIs(slots: seq<Thread>, pid: Word32, i: nat)
    requires i < |slots| && slots[i].pid == pid
    ensures LastWithPid(slots, pid) == Some(i) <==> forall j :: i < j < |slots| ==> slots[j].pid != pid
    decreases |slots|
  {
    var n := |slots| - 1;
    if i < n && slots[n].pid != pid { LastWithPidIs(slots[..n], pid, i); }
  }

  /** Unused slots may agree in their pids, but none carries the pid of a live thread. */
  ghost predicate LiveAreUnique(slots: seq<Thread>) {
    forall s, t :: 0 <= s < |slots| && 0 <= t < |slots| && s != t && slots[t].used ==> slots[s].pid != slots[t].pid
  }

  predicate FreshBehind(slots: seq<Thread>, i: nat, pid: Word32) {
    forall j :: i < j < |slots| ==> slots[j].pid != pid
  }

  /**
   The context switch, which takes the last slot with the pid, finds a new thread exactly if no stale record
   behind the slot that the clone takes carries its pid.
   */
  lemma {:induction false} LastFindsCloneIff(slots: seq<Thread>, pid: Word32)
    requires FirstFree(slots) < |slots|
    ensures LastWithPid(AfterClone(slots, pid), pid) == Some(FirstFree(slots)) <==>
        FreshBehind(slots, FirstFree(slots), pid)
  {
    var i, after := FirstFree(slots), AfterClone(slots, pid);
    LastWithPidIs(after, pid, i);
    assert FreshBehind(after, i, pid) <==> FreshBehind(slots, i, pid) by {
      assert forall j :: i < j < |slots| ==> after[j] == slots[j];
    }
  }

  /** The same condition decides whether a clone keeps the pids of live threads unique. */
  lemma {:induction false} CloneKeepsUniqueIff(slots: seq<Thread>, pid: Word32)
    requires LiveAreUnique(slots) && !IsLive(slots, pid) && FirstFree(slots) < |slots|
    ensures LiveAreUnique(AfterClone(slots, pid)) <==> FreshBehind(slots, FirstFree(slots), pid)
  {
    var i, after := FirstFree(slots), AfterClone(slots, pid);
    assert after[i].used && after[i].pid == pid;
    if !FreshBehind(slots, i, pid) {
      var j :| i < j < |slots| && slots[j].pid == pid;
      assert after[j].pid == after[i].pid;
    }
  }

  /** While the pids of live threads are unique, both lookups find every live thread's own slot. */
  lemma {:induction false} LookupsAgree(slots: seq<Thread>, t: nat)
    requires LiveAreUnique(slots) && t < |slots| && slots[t].used
    ensures FirstWithPid(slots, slots[t].pid) == t && LastWithPid(slots, slots[t].pid) == Some(t)
  {
    LastWithPidIs(slots, slots[t].pid, t);
  }

  const NO_AREA := Area(false, 0, 0, 0)

  /** A record of the zeroed table, and what it becomes in a run without private areas. */
  function Record(pid: Word32, used: bool): Thread { Thread(pid, used, [NO_AREA, NO_AREA, NO_AREA, NO_AREA]) }

  const FREE := Record(0, false)
  const STAGE0 := [FREE, FREE, FREE, FREE]
  const STAGE1 := [Record(1, true), FREE, FREE, FREE]
  const STAGE2 := [Record(1, true), Record(2, true), FREE, FREE]
  const STAGE3 := [Record(1, false), Record(2, true), FREE, FREE]
  const STAGE4 := [Record(1, false), Record(2, false), FREE, FREE]
  const STAGE5 := [Record(2, true), Record(2, false), FREE, FREE]

  lemma {:induction false} StagesFollow()
    ensures Allowed(STAGE0, Clone(1)) && Step(STAGE0, Clone(1)) == STAGE1
    ensures Allowed(STAGE1, Clone(2)) && Step(STAGE1, Clone(2)) == STAGE2
    ensures Allowed(STAGE2, Exit(1)) && Step(STAGE2, Exit(1)) == STAGE3
    ensures Allowed(STAGE3, Exit(2)) && Step(STAGE3, Exit(2)) == STAGE4
    ensures Allowed(STAGE4, Clone(2)) && Step(STAGE4, Clone(2)) == STAGE5
  {
    assert FirstFree(STAGE0) == 0 && FirstFree(STAGE1) == 1 && FirstFree(STAGE4) == 0;
    assert STAGE2[0].used && STAGE2[0].pid == 1 && FirstWithPid(STAGE2, 1) == 0;
    assert STAGE3[1].used && STAGE3[1].pid == 2 && FirstWithPid(STAGE3, 2) == 1;
  }

  /**
   The condition can fail: threads 1 and 2 start, both end, and a new context gets pid 2 again. It is live in
   slot 0, where the lookup of thread exit finds it, but the lookup of the context switch finds the stale slot 1.
   */
  lemma {:induction false} LastWithPidCanBeStale()
    ensures var ops := [Clone(1), Clone(2), Exit(1), Exit(2), Clone(2)];
            && FirstIsLive(STAGE0) && RunAllowed(STAGE0, ops)
            && var slots := Run(STAGE0, ops);
            && IsLive(slots, 2) && FirstWithPid(slots, 2) == 0
            && LastWithPid(slots, 2) == Some(1) && |slots| == MAX_THREADS && !slots[1].used
  {
    StagesFollow();
    hide Allowed, Step;
    RunsOne(STAGE4, [], Clone(2));
    RunsOne(STAGE3, [Clone(2)], Exit(2));
    RunsOne(STAGE2, [Exit(2), Clone(2)], Exit(1));
    RunsOne(STAGE1, [Exit(1), Exit(2), Clone(2)], Clone(2));
    RunsOne(STAGE0, [Clone(2), Exit(1), Exit(2), Clone(2)], Clone(1));
    assert [Clone(1), Clone(2), Exit(1), Exit(2), Clone(2)] == [Clone(1)] + [Clone(2), Exit(1), Exit(2), Clone(2)];
    assert [Clone(2), Exit(1), Exit(2), Clone(2)] == [Clone(2)] + [Exit(1), Exit(2), Clone(2)];
    assert [Exit(1), Exit(2), Clone(2)] == [Exit(1)] + [Exit(2), Clone(2)];
    assert [Exit(2), Clone(2)] == [Exit(2)] + [Clone(2)];
    assert [Clone(2)] == [Clone(2)] + [];
    assert STAGE5[0].used && STAGE5[0].pid == 2;
    LastWithPidIs(STAGE5, 2, 1);
  }

  lemma {:induction false} RunsOne(slots: seq<Thread>, rest: seq<Op>, op: Op)
    requires Allowed(slots, op)
    ensures Run(slots, [op] + rest) == Run(Step(slots, op), rest)
    ensures RunAllowed(slots, [op] + rest) <==> RunAllowed(Step(slots, op), rest)
  {
    assert ([op] + rest)[1..] == rest;
  }

  /** find_thread_from_pid */
  method FindThread(slots: array<Thread>, pid: Word32) returns (i: nat)
    requires slots.Length == MAX_THREADS
    ensures i == FirstWithPid(slots[..], pid)
  {
    i := 0;
    while i < MAX_THREADS && slots[i].pid != pid
      invariant i <= MAX_THREADS && forall j :: 0 <= j < i ==> slots[j].pid != pid
    {
      i := i + 1;
    }
    assert FirstWithPid(slots[..], pid) == i;
  }

  class ThreadInfo {
    const slots: array<Thread>

    constructor ()
      ensures fresh(slots) && slots.Length == MAX_THREADS && slots[..] == STAGE0 && FirstIsLive(slots[..])
    {
      slots := new Thread[MAX_THREADS](_ => FREE);
    }

    /** The slot loop of do_clone; `pid` is the new context's. */
    method Clone(pid: Word32) returns (ok: bool)
      requires slots.Length == MAX_THREADS
      modifies slots
      ensures slots[..] == AfterClone(old(slots[..]), pid)
      ensures ok <==> exists s :: s in old(slots[..]) && !s.used
    {
      ghost var was := slots[..];
      for i := 0 to MAX_THREADS
        invariant slots[..] == was && forall j :: 0 <= j < i ==> was[j].used
      {
        if !slots[i].used {
          assert FirstFree(was) == i && was[i] in was;
          slots[i] := slots[i].(pid := pid, used := true);
          return true;
        }
      }
      return false;
    }

    /**
     handle_thread_exit: the kernel is asked to unmap the thread's areas, its slot is given up, its context ends,
     and its parent becomes READY. A context without a slot is reported and left alone.
     */
    method Exit(pid: Word32, normal: bool) returns (end: ThreadEnd)
      requires slots.Length == MAX_THREADS
      modifies slots
      ensures slots[..] == AfterExit(old(slots[..]), pid)
      ensures var i := FirstWithPid(old(slots[..]), pid);
              end == if i == MAX_THREADS then Unaccounted
                     else Ended(OwnedAreas(old(slots[..])[i].areas),
                                if normal then Scheduler.UNUSED else Scheduler.EXITING, Scheduler.READY)
    {
      var i := FindThread(slots, pid);
      if i == MAX_THREADS {
        return Unaccounted;
      }
      var areas, unmapped, ctr := slots[i].areas, [], 0;
      while ctr < |areas|
        invariant ctr <= |areas| && unmapped == OwnedAreas(areas[..ctr])
      {
        assert areas[..ctr + 1][..ctr] == areas[..ctr];
        if areas[ctr].owned {
          unmapped := unmapped + [areas[ctr]];
        }
        ctr := ctr + 1;
      }
      assert areas[..ctr] == areas;
      slots[i] := slots[i].(used := false);
      return Ended(unmapped, if normal then Scheduler.UNUSED else Scheduler.EXITING, Scheduler.READY);
    }
  }

  /** What an exit asks of the kernel, and the states it leaves the thread's context and its parent in. */
  datatype ThreadEnd = Unaccounted | Ended(unmapped: seq<Area>, context: Scheduler.State, parent: Scheduler.State)

  function OwnedAreas(areas: seq<Area>): seq<Area>
    decreases |areas|
  {
    if areas == [] then []
    else
      var n := |areas| - 1;
      OwnedAreas(areas[..n]) + (if areas[n].owned then [areas[n]] else [])
  }

  /** Exactly the areas that the thread owns are unmapped. */
  lemma {:induction false} OwnedAreasAre(areas: seq<Area>, a: Area)
    ensures a in OwnedAreas(areas) <==> a in areas && a.owned
    decreases |areas|
  {
    if areas != [] {
      var n := |areas| - 1;
      assert areas == areas[..n] + [areas[n]];
      OwnedAreasAre(areas[..n], a);
    }
  }
}
