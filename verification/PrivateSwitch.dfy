/**
 Context switches and page faults. While a thread runs, its own private pages are fully accessible and
 those of every other thread have the permissions that their owner allows siblings.
 */
module PrivateSwitch {
  import opened Kernel
  import opened PageTables
  import opened PrivateMemory
  import ThreadTable

  /** `running` is the slot of the running thread; None is the process itself, which has the pid `process`. */
  datatype Space = Space(
    mem: Frames, root: int, level: map<int, int>, threads: seq<Thread>, running: Option<nat>, process: Word32)

  /** Only the page tables differ. */
  predicate Alike(s: Space, after: Space) {
    after.root == s.root && after.threads == s.threads && after.running == s.running && after.process == s.process
  }

  /** The areas that a switch looks at: those of used threads with an owner recorded. */
  predicate Active(threads: seq<Thread>, t: int, i: int) {
    0 <= t < |threads| && threads[t].used && 0 <= i < |threads[t].areas| && threads[t].areas[i].owned
  }

  /** Nobody carries the pid of a live thread, only live threads own areas, and areas are disjoint runs of pages. */
  ghost predicate Laid(threads: seq<Thread>) {
    && WellShaped(threads)
    && ThreadTable.LiveAreUnique(threads)
    && (forall t, i :: 0 <= t < |threads| && 0 <= i < |threads[t].areas| && threads[t].areas[i].owned ==>
        threads[t].used)
    && (forall t, i :: Active(threads, t, i) ==> InRange(threads[t].areas[i]))
    && forall s, i, t, j :: Active(threads, s, i) && Active(threads, t, j) && (s != t || i != j) ==>
         Disjoint(threads[s].areas[i], threads[t].areas[j])
  }

  ghost predicate Sound(mem: Frames, root: int, level: map<int, int>, threads: seq<Thread>) {
    Laid(threads) && Tree(mem, root, level) && Bounded(mem, root)
  }

  ghost predicate Ordered(mem: Frames, root: int, threads: seq<Thread>) {
    forall t, i :: Active(threads, t, i) ==> PopulatedInOrder(mem, root, threads[t].areas[i])
  }

  /** The bits that the pages of thread `t`'s area should have while `runner` runs. */
  function Due(threads: seq<Thread>, runner: int, t: int, i: int): int
    requires Active(threads, t, i)
  {
    if t == runner then 7 else SharingCode(threads[t].areas[i].flags)
  }

  /** No other slot carries the pid of slot `t`. */
  predicate OnlyHere(threads: seq<Thread>, t: nat)
    requires t < |threads|
  {
    forall s :: 0 <= s < |threads| && s != t ==> threads[s].pid != threads[t].pid
  }

  /** The isolation that the switch handler maintains. The running thread may have given up its slot already. */
  ghost predicate Isolated(s: Space) {
    && Sound(s.mem, s.root, s.level, s.threads)
    && Ordered(s.mem, s.root, s.threads)
    && (forall t :: 0 <= t < |s.threads| ==> s.threads[t].pid != s.process)
    && match s.running
       case None => true
       case Some(runner) =>
         && runner < |s.threads| && OnlyHere(s.threads, runner)
         && forall t, i :: Active(s.threads, t, i) ==>
             HasCode(s.mem, s.root, s.threads[t].areas[i], Due(s.threads, runner, t, i))
  }

  // ----- one area -----

  /** do_page_walk on area `i` of thread `t`, if it has an owner recorded. */
  ghost function WalkArea(mem: Frames, root: int, level: map<int, int>, threads: seq<Thread>, t: nat, i: nat,
      code: int): Frames
    requires Sound(mem, root, level, threads) && t < |threads| && i < MAX_PRIVATE_AREAS && code in {1, 5, 7}
  {
    if threads[t].areas[i].owned then WalkFrom(mem, root, level, threads[t].areas[i], 0, code) else mem
  }

  ghost predicate Kept(mem: Frames, after: Frames, root: int, a: Area) {
    forall k :: 0 <= k < PageCount(a) ==> Translate(after, root, PagePath(a, k)) == Translate(mem, root, PagePath(a, k))
  }

  lemma {:induction false} KeptCode(mem: Frames, after: Frames, root: int, a: Area, code: int)
    requires Kept(mem, after, root, a) && HasCode(mem, root, a, code)
    ensures HasCode(after, root, a, code)
  {
    hide Translate, PagePath, PageCount, Flags;
  }

  lemma {:induction false} OrderSurvives(mem: Frames, after: Frames, root: int, a: Area)
    requires SameFrames(mem, after, root) && PopulatedInOrder(mem, root, a)
    ensures PopulatedInOrder(after, root, a)
  {
    hide Translate, PagePath, PageCount, Pfn;
  }

  /** Walking one area sets its bits if it is populated in order, and touches no other area. */
  lemma {:induction false} WalkAreaEffect(
      mem: Frames, root: int, level: map<int, int>, threads: seq<Thread>, t: nat, i: nat, code: int)
    requires Sound(mem, root, level, threads) && t < |threads| && i < MAX_PRIVATE_AREAS && code in {1, 5, 7}
    ensures var after := WalkArea(mem, root, level, threads, t, i, code);
            && Sound(after, root, level, threads) && SameFrames(mem, after, root)
            && (Active(threads, t, i) && PopulatedInOrder(mem, root, threads[t].areas[i]) ==>
                  HasCode(after, root, threads[t].areas[i], code))
            && forall u, j :: Active(threads, u, j) && (u != t || j != i) ==>
                Kept(mem, after, root, threads[u].areas[j])
  {
    hide Tree, Translate, PagePath, PageCount, Pfn, WalkFrom, HasCode, PopulatedInOrder, InRange;
    var after := WalkArea(mem, root, level, threads, t, i, code);
    if threads[t].areas[i].owned {
      assert Active(threads, t, i);
      var a := threads[t].areas[i];
      WalkKeepsFrames(mem, root, level, a, 0, code);
      if PopulatedInOrder(mem, root, a) {
        WalkSetsCode(mem, root, level, a, code);
      }
      forall u, j | Active(threads, u, j) && (u != t || j != i) ensures Kept(mem, after, root, threads[u].areas[j]) {
        WalkSparesArea(mem, root, level, a, code, threads[u].areas[j]);
      }
    }
  }

  lemma {:induction false} WalkSparesArea(mem: Frames, root: int, level: map<int, int>, a: Area, code: int, b: Area)
    requires Walkable(mem, root, level, a, code) && InRange(b) && Disjoint(a, b)
    ensures Kept(mem, WalkFrom(mem, root, level, a, 0, code), root, b)
  {
    hide Tree, Translate, PagePath, PageCount, WalkFrom, Disjoint;
    forall k | 0 <= k < PageCount(b)
      ensures Translate(WalkFrom(mem, root, level, a, 0, code), root, PagePath(b, k)) ==
          Translate(mem, root, PagePath(b, k))
    {
      forall j | 0 <= j < PageCount(a) ensures PagePath(a, j) != PagePath(b, k) {
        PagePathsDistinct(a, j, b, k);
      }
      WalkSparesOthers(mem, root, level, a, 0, code, PagePath(b, k));
    }
  }

  lemma {:induction false} SameFramesTwice(a: Frames, b: Frames, c: Frames, root: int)
    requires SameFrames(a, b, root) && SameFrames(b, c, root)
    ensures SameFrames(a, c, root)
  {
    hide Translate, Pfn;
  }

  // ----- thread to thread -----

  /** Areas `i` and up: first the outgoing thread's area is closed, then the incoming one's granted. */
  ghost function SwitchThreads(mem: Frames, root: int, level: map<int, int>, threads: seq<Thread>, cur: nat,
      next: nat, i: nat): Frames
    requires Sound(mem, root, level, threads)
    requires cur < |threads| && next < |threads| && i <= MAX_PRIVATE_AREAS
    decreases MAX_PRIVATE_AREAS - i
  {
    if i == MAX_PRIVATE_AREAS then mem
    else
      var code := SharingCode(threads[cur].areas[i].flags);
      WalkAreaEffect(mem, root, level, threads, cur, i, code);
      var closed := WalkArea(mem, root, level, threads, cur, i, code);
      WalkAreaEffect(closed, root, level, threads, next, i, 7);
      SwitchThreads(WalkArea(closed, root, level, threads, next, i, 7), root, level, threads, cur, next, i + 1)
  }

  lemma {:induction false} KeptTwice(a: Frames, b: Frames, c: Frames, root: int, area: Area)
    requires Kept(a, b, root, area) && Kept(b, c, root, area)
    ensures Kept(a, c, root, area)
  {
    hide Translate, PagePath, PageCount;
  }

  /** What the switch makes of area `j` of thread `t`. */
  lemma {:induction false} SwitchThreadsEffect(
      mem: Frames, root: int, level: map<int, int>, threads: seq<Thread>, cur: nat, next: nat, i: nat, t: nat,
      j: nat)
    requires Sound(mem, root, level, threads)
    requires cur < |threads| && next < |threads| && i <= MAX_PRIVATE_AREAS
    ensures var after := SwitchThreads(mem, root, level, threads, cur, next, i);
            && Sound(after, root, level, threads) && SameFrames(mem, after, root)
            && (Active(threads, t, j) && PopulatedInOrder(mem, root, threads[t].areas[j]) ==>
                  if j >= i && t == next then HasCode(after, root, threads[t].areas[j], 7)
                  else if j >= i && t == cur then HasCode(after, root, threads[t].areas[j],
                      SharingCode(threads[t].areas[j].flags))
                  else Kept(mem, after, root, threads[t].areas[j]))
    decreases MAX_PRIVATE_AREAS - i
  {
    hide Sound, WalkArea, HasCode, Kept, SameFrames, SharingCode, PopulatedInOrder;
    if i == MAX_PRIVATE_AREAS {
      ShapeOf(mem, root, level, threads);
      NothingChanged(mem, root, if Active(threads, t, j) then threads[t].areas[j] else Area(false, 0, 0, 0));
    } else {
      ShapeOf(mem, root, level, threads);
      var code := SharingCode(threads[cur].areas[i].flags);
      SharingCodeIsOneOf(threads[cur].areas[i].flags);
      WalkAreaEffect(mem, root, level, threads, cur, i, code);
      var closed := WalkArea(mem, root, level, threads, cur, i, code);
      WalkAreaEffect(closed, root, level, threads, next, i, 7);
      var granted := WalkArea(closed, root, level, threads, next, i, 7);
      if Active(threads, t, j) && PopulatedInOrder(mem, root, threads[t].areas[j]) {
        OrderSurvives(mem, closed, root, threads[t].areas[j]);
        OrderSurvives(closed, granted, root, threads[t].areas[j]);
      }
      SwitchThreadsEffect(granted, root, level, threads, cur, next, i + 1, t, j);
      var after := SwitchThreads(granted, root, level, threads, cur, next, i + 1);
      SameFramesTwice(mem, closed, granted, root);
      SameFramesTwice(mem, granted, after, root);
      if Active(threads, t, j) && PopulatedInOrder(mem, root, threads[t].areas[j]) {
        var a := threads[t].areas[j];
        if j == i && t == next {
          KeptCode(granted, after, root, a, 7);
        } else if j == i && t == cur {
          KeptCode(closed, granted, root, a, code);
          KeptCode(granted, after, root, a, code);
        } else if j > i && (t == next || t == cur) {
        } else {
          KeptTwice(mem, closed, granted, root, a);
          KeptTwice(mem, granted, after, root, a);
        }
      }
    }
  }

  lemma {:induction false} ShapeOf(mem: Frames, root: int, level: map<int, int>, threads: seq<Thread>)
    requires Sound(mem, root, level, threads)
    ensures |threads| == MAX_THREADS && forall t :: 0 <= t < |threads| ==> |threads[t].areas| == MAX_PRIVATE_AREAS
  {
  }

  lemma {:induction false} SharingCodeIsOneOf(flags: int)
    ensures SharingCode(flags) in {1, 5, 7}
  {
  }

  lemma {:induction false} NothingChanged(mem: Frames, root: int, a: Area)
    ensures SameFrames(mem, mem, root) && Kept(mem, mem, root, a)
  {
    hide Translate, PagePath, PageCount, Pfn;
  }

  // ----- process to thread -----

  /** Area `i` of threads `j` and up is closed, except the incoming thread's. */
  ghost function CloseOthers(mem: Frames, root: int, level: map<int, int>, threads: seq<Thread>, next: nat, i: nat,
      j: nat): Frames
    requires Sound(mem, root, level, threads) && next < |threads| && i < MAX_PRIVATE_AREAS && j <= MAX_THREADS
    decreases MAX_THREADS - j
  {
    if j == MAX_THREADS then mem
    else if threads[j].pid != threads[next].pid && threads[j].used then
      var code := SharingCode(threads[j].areas[i].flags);
      WalkAreaEffect(mem, root, level, threads, j, i, code);
      CloseOthers(WalkArea(mem, root, level, threads, j, i, code), root, level, threads, next, i, j + 1)
    else CloseOthers(mem, root, level, threads, next, i, j + 1)
  }

  lemma {:induction false} CloseOthersEffect(
      mem: Frames, root: int, level: map<int, int>, threads: seq<Thread>, next: nat, i: nat, j: nat, t: nat,
      k: nat)
    requires Sound(mem, root, level, threads) && next < |threads| && i < MAX_PRIVATE_AREAS && j <= MAX_THREADS
    ensures var after := CloseOthers(mem, root, level, threads, next, i, j);
            && Sound(after, root, level, threads) && SameFrames(mem, after, root)
            && (Active(threads, t, k) && PopulatedInOrder(mem, root, threads[t].areas[k]) ==>
                  if k == i && t >= j && t != next
                      then HasCode(after, root, threads[t].areas[k], SharingCode(threads[t].areas[k].flags))
                  else Kept(mem, after, root, threads[t].areas[k]))
    decreases MAX_THREADS - j
  {
    hide Sound, WalkArea, HasCode, Kept, SameFrames, SharingCode, PopulatedInOrder;
    ShapeOf(mem, root, level, threads);
    DistinctPids(mem, root, level, threads);
    var a := if Active(threads, t, k) then threads[t].areas[k] else Area(false, 0, 0, 0);
    if j == MAX_THREADS {
      NothingChanged(mem, root, a);
    } else if threads[j].pid != threads[next].pid && threads[j].used {
      var code := SharingCode(threads[j].areas[i].flags);
      SharingCodeIsOneOf(threads[j].areas[i].flags);
      WalkAreaEffect(mem, root, level, threads, j, i, code);
      var closed := WalkArea(mem, root, level, threads, j, i, code);
      if Active(threads, t, k) && PopulatedInOrder(mem, root, a) { OrderSurvives(mem, closed, root, a); }
      CloseOthersEffect(closed, root, level, threads, next, i, j + 1, t, k);
      var after := CloseOthers(closed, root, level, threads, next, i, j + 1);
      SameFramesTwice(mem, closed, after, root);
      if Active(threads, t, k) && PopulatedInOrder(mem, root, a) {
        if k == i && t == j {
          KeptCode(closed, after, root, a, code);
        } else if !(k == i && t > j && t != next) {
          KeptTwice(mem, closed, after, root, a);
        }
      }
    } else {
      CloseOthersEffect(mem, root, level, threads, next, i, j + 1, t, k);
    }
  }

  lemma {:induction false} DistinctPids(mem: Frames, root: int, level: map<int, int>, threads: seq<Thread>)
    requires Sound(mem, root, level, threads)
    ensures forall s, t :: 0 <= s < |threads| && 0 <= t < |threads| && threads[t].used ==>
              (threads[s].pid == threads[t].pid <==> s == t)
  {
  }

  /** Areas `i` and up: every other thread's area is closed, then the incoming one's opened. */
  ghost function SwitchFromProcess(mem: Frames, root: int, level: map<int, int>, threads: seq<Thread>, next: nat,
      i: nat): Frames
    requires Sound(mem, root, level, threads) && next < |threads| && i <= MAX_PRIVATE_AREAS
    decreases MAX_PRIVATE_AREAS - i
  {
    if i == MAX_PRIVATE_AREAS then mem
    else
      CloseOthersEffect(mem, root, level, threads, next, i, 0, 0, 0);
      var closed := CloseOthers(mem, root, level, threads, next, i, 0);
      WalkAreaEffect(closed, root, level, threads, next, i, 7);
      SwitchFromProcess(WalkArea(closed, root, level, threads, next, i, 7), root, level, threads, next, i + 1)
  }

  lemma {:induction false} SwitchFromProcessEffect(
      mem: Frames, root: int, level: map<int, int>, threads: seq<Thread>, next: nat, i: nat, t: nat, j: nat)
    requires Sound(mem, root, level, threads) && next < |threads| && i <= MAX_PRIVATE_AREAS
    ensures var after := SwitchFromProcess(mem, root, level, threads, next, i);
            && Sound(after, root, level, threads) && SameFrames(mem, after, root)
            && (Active(threads, t, j) && PopulatedInOrder(mem, root, threads[t].areas[j]) ==>
                  if j < i then Kept(mem, after, root, threads[t].areas[j])
                  else if t == next then HasCode(after, root, threads[t].areas[j], 7)
                  else HasCode(after, root, threads[t].areas[j], SharingCode(threads[t].areas[j].flags)))
    decreases MAX_PRIVATE_AREAS - i
  {
    hide Sound, WalkArea, HasCode, Kept, SameFrames, SharingCode, CloseOthers, PopulatedInOrder;
    ShapeOf(mem, root, level, threads);
    var a := if Active(threads, t, j) then threads[t].areas[j] else Area(false, 0, 0, 0);
    if i == MAX_PRIVATE_AREAS {
      NothingChanged(mem, root, a);
    } else {
      CloseOthersEffect(mem, root, level, threads, next, i, 0, t, j);
      var closed := CloseOthers(mem, root, level, threads, next, i, 0);
      WalkAreaEffect(closed, root, level, threads, next, i, 7);
      var granted := WalkArea(closed, root, level, threads, next, i, 7);
      if Active(threads, t, j) && PopulatedInOrder(mem, root, a) {
        OrderSurvives(mem, closed, root, a);
        OrderSurvives(closed, granted, root, a);
      }
      SwitchFromProcessEffect(granted, root, level, threads, next, i + 1, t, j);
      var after := SwitchFromProcess(granted, root, level, threads, next, i + 1);
      SameFramesTwice(mem, closed, granted, root);
      SameFramesTwice(mem, granted, after, root);
      if Active(threads, t, j) && PopulatedInOrder(mem, root, a) {
        if j == i && t == next {
          KeptCode(granted, after, root, a, 7);
        } else if j == i {
          KeptCode(closed, granted, root, a, SharingCode(a.flags));
          KeptCode(granted, after, root, a, SharingCode(a.flags));
        } else if j < i {
          KeptTwice(mem, closed, granted, root, a);
          KeptTwice(mem, granted, after, root, a);
        }
      }
    }
  }

  // ----- page faults -----

  /**
   What a fixed fault does to the page at `p`: it is mapped read-write if it was not mapped, and nothing else
   changes.
   */
  ghost predicate Fixed(mem: Frames, after: Frames, root: int, p: Path) {
    && (forall q :: q != p ==> Translate(after, root, q) == Translate(mem, root, q))
    && Translate(after, root, p).Some?
    && if Translate(mem, root, p).Some? then Translate(after, root, p) == Translate(mem, root, p)
       else exists pfn: Word32 :: pfn < MAX_PFN && Translate(after, root, p) == Some(MakeEntry(pfn, 7))
  }

  /** A fault on the first unmapped page of an area whose pages may currently be read and written. */
  ghost predicate InOrderFault(s: Space, t: int, i: int, k: int) {
    && Active(s.threads, t, i) && 0 <= k < PageCount(s.threads[t].areas[i])
    && (forall l :: 0 <= l < k ==> Translate(s.mem, s.root, PagePath(s.threads[t].areas[i], l)).Some?)
    && (s.running.Some? ==> Due(s.threads, s.running.value, t, i) == 7)
  }

  lemma {:induction false} SwitchKeepsIsolated(s: Space, next: nat, after: Space)
    requires Isolated(s) && next < |s.threads| && s.threads[next].used
    requires after == s.(running := Some(next), mem :=
               match s.running
               case Some(cur) => SwitchThreads(s.mem, s.root, s.level, s.threads, cur, next, 0)
               case None => SwitchFromProcess(s.mem, s.root, s.level, s.threads, next, 0))
    ensures Isolated(after) && SameFrames(s.mem, after.mem, s.root)
  {
    DistinctPids(s.mem, s.root, s.level, s.threads);
    hide Sound, HasCode, Kept, SameFrames, SwitchThreads, SwitchFromProcess, PopulatedInOrder;
    if s.running.None? {
      SwitchFromProcessEffect(s.mem, s.root, s.level, s.threads, next, 0, 0, 0);
    } else {
      SwitchThreadsEffect(s.mem, s.root, s.level, s.threads, s.running.value, next, 0, 0, 0);
    }
    forall t, i | Active(s.threads, t, i)
      ensures HasCode(after.mem, s.root, s.threads[t].areas[i], Due(s.threads, next, t, i))
      ensures PopulatedInOrder(after.mem, s.root, s.threads[t].areas[i])
    {
      OrderSurvives(s.mem, after.mem, s.root, s.threads[t].areas[i]);
      if s.running.None? {
        SwitchFromProcessEffect(s.mem, s.root, s.level, s.threads, next, 0, t, i);
      } else {
        SwitchThreadsEffect(s.mem, s.root, s.level, s.threads, s.running.value, next, 0, t, i);
        if t != next && t != s.running.value {
          KeptCode(s.mem, after.mem, s.root, s.threads[t].areas[i], Due(s.threads, next, t, i));
        }
      }
    }
  }

  /** A fault in one area is not felt in another. */
  lemma {:induction false} FaultSparesArea(mem: Frames, after: Frames, root: int, a: Area, k: int, b: Area)
    requires InRange(a) && InRange(b) && Disjoint(a, b) && 0 <= k < PageCount(a)
    requires Fixed(mem, after, root, PagePath(a, k))
    ensures Kept(mem, after, root, b)
  {
    hide Translate, PagePath, InRange, Disjoint, PageCount, MakeEntry;
    forall l | 0 <= l < PageCount(b)
      ensures Translate(after, root, PagePath(b, l)) == Translate(mem, root, PagePath(b, l))
    {
      PagePathsDistinct(a, k, b, l);
    }
  }

  /** In its own area, an in-order fault keeps the order and adds at most one page, with bits 7. */
  lemma {:induction false} FaultInArea(mem: Frames, after: Frames, root: int, a: Area, k: int)
    requires InRange(a) && 0 <= k < PageCount(a) && Fixed(mem, after, root, PagePath(a, k))
        && PopulatedInOrder(mem, root, a)
    requires forall l :: 0 <= l < k ==> Translate(mem, root, PagePath(a, l)).Some?
    ensures PopulatedInOrder(after, root, a)
    ensures HasCode(mem, root, a, 7) ==> HasCode(after, root, a, 7)
  {
    hide Translate, PagePath, InRange, PageCount, MakeEntry, Permissions;
    forall l | 0 <= l < PageCount(a) && l != k ensures PagePath(a, l) != PagePath(a, k) {
      PagePathsDistinct(a, l, a, k);
    }
    if Translate(mem, root, PagePath(a, k)).None? {
      FixedPermits(mem, after, root, PagePath(a, k));
    }
  }

  /** A page that a fault has mapped has permissions 7. */
  lemma {:induction false} FixedPermits(mem: Frames, after: Frames, root: int, p: Path)
    requires Fixed(mem, after, root, p) && Translate(mem, root, p).None?
    ensures Translate(after, root, p).Some? && Permissions(Translate(after, root, p).value) == 7
  {
    hide Translate, MakeEntry;
    var pfn: Word32 :| pfn < MAX_PFN && Translate(after, root, p) == Some(MakeEntry(pfn, 7));
    EntryDecodes(pfn, 7);
    PermissionsOfFlags(MakeEntry(pfn, 7));
  }

  lemma {:induction false} FaultKeepsBounded(mem: Frames, after: Frames, root: int, p: Path)
    requires Bounded(mem, root) && Fixed(mem, after, root, p)
    ensures Bounded(after, root)
  {
    if Translate(mem, root, p).None? {
      var pfn: Word32 :| pfn < MAX_PFN && Translate(after, root, p) == Some(MakeEntry(pfn, 7));
      EntryDecodes(pfn, 7);
      assert MakeEntry(pfn, 7) / PAGE_SIZE == pfn;
    }
  }

  lemma {:induction false} FaultKeepsOrder(s: Space, t: int, i: int, k: int, after: Space, u: int, j: int)
    requires Isolated(s) && InOrderFault(s, t, i, k) && Active(s.threads, u, j)
    requires Fixed(s.mem, after.mem, s.root, PagePath(s.threads[t].areas[i], k))
    ensures PopulatedInOrder(after.mem, s.root, s.threads[u].areas[j])
    ensures s.running.Some? ==> HasCode(after.mem, s.root, s.threads[u].areas[j], Due(s.threads, s.running.value, u, j))
  {
    hide Tree, Bounded, Fixed, PopulatedInOrder, HasCode, Kept, Translate, PagePath, PageCount, InRange, Disjoint,
        SharingCode;
    var a, b := s.threads[t].areas[i], s.threads[u].areas[j];
    if u == t && j == i {
      FaultInArea(s.mem, after.mem, s.root, a, k);
    } else {
      FaultSparesArea(s.mem, after.mem, s.root, a, k, b);
      KeptOrder(s.mem, after.mem, s.root, b);
      if s.running.Some? {
        KeptCode(s.mem, after.mem, s.root, b, Due(s.threads, s.running.value, u, j));
      }
    }
  }

  lemma {:induction false} KeptOrder(mem: Frames, after: Frames, root: int, a: Area)
    requires Kept(mem, after, root, a) && PopulatedInOrder(mem, root, a)
    ensures PopulatedInOrder(after, root, a)
  {
    hide Translate, PagePath, PageCount;
  }

  lemma {:induction false} FaultKeepsIsolated(s: Space, t: int, i: int, k: int, after: Space)
    requires Isolated(s) && InOrderFault(s, t, i, k)
    requires Alike(s, after)
    requires Tree(after.mem, s.root, after.level)
    requires Fixed(s.mem, after.mem, s.root, PagePath(s.threads[t].areas[i], k))
    ensures Isolated(after)
  {
    hide Tree, Bounded, Fixed, PopulatedInOrder, HasCode, Translate, PagePath, PageCount, InRange, Disjoint;
    FaultKeepsBounded(s.mem, after.mem, s.root, PagePath(s.threads[t].areas[i], k));
    forall u, j | Active(s.threads, u, j)
      ensures PopulatedInOrder(after.mem, s.root, s.threads[u].areas[j])
      ensures s.running.Some? ==> HasCode(after.mem, s.root, s.threads[u].areas[j],
          Due(s.threads, s.running.value, u, j))
    {
      FaultKeepsOrder(s, t, i, k, after, u, j);
    }
  }

  // ----- faults by address -----

  lemma {:induction false} FoundOwnerIsActive(threads: seq<Thread>, addr: int)
    ensures match FindOwner(threads, addr)
            case None => true
            case Some(x) => Active(threads, x.0, x.1) && Covers(threads[x.0].areas[x.1], addr)
    decreases |threads|
  {
    if threads != [] && threads[0].used { FoundOwnerIsActive(threads[1..], addr); }
  }

  /** An address of an area lies on exactly the page with its number. */
  lemma {:induction false} AddressIsOnPage(a: Area, addr: int)
    requires InRange(a) && a.start <= addr < a.start + a.length
    ensures var k := (addr - a.start) / PAGE_SIZE; 0 <= k < PageCount(a) && PathOf(addr) == PagePath(a, k)
  {
    hide PathOf;
    var k := (addr - a.start) / PAGE_SIZE;
    var s := a.start / PAGE_SIZE;
    assert a.start == s * PAGE_SIZE && a.length == PageCount(a) * PAGE_SIZE;
    assert k < PageCount(a);
    PageNumber(a, k);
    assert addr / PAGE_SIZE == s + k;
    assert s + k < 0x10_0000_0000;
    SamePathIffSamePage(addr, a.start + k * PAGE_SIZE);
  }

  lemma {:induction false} NewPageHasAllBits(s: Space, t: int, i: int, k: int, after: Space, runner: nat)
    requires Isolated(s) && Active(s.threads, t, i) && 0 <= k < PageCount(s.threads[t].areas[i])
    requires Translate(s.mem, s.root, PagePath(s.threads[t].areas[i], k)).None?
    requires Fixed(s.mem, after.mem, s.root, PagePath(s.threads[t].areas[i], k))
    ensures HasCode(after.mem, s.root, s.threads[t].areas[i], Due(s.threads, runner, t, i)) ==>
        Due(s.threads, runner, t, i) == 7
  {
    hide Isolated, Translate, PagePath, PageCount, Permissions, SharingCode;
    FixedPermits(s.mem, after.mem, s.root, PagePath(s.threads[t].areas[i], k));
  }

  lemma {:induction false} UnchangedKeepsIsolated(s: Space, after: Space)
    requires Isolated(s) && Alike(s, after)
    requires Tree(after.mem, s.root, after.level)
    requires forall p :: Translate(after.mem, s.root, p) == Translate(s.mem, s.root, p)
    ensures Isolated(after)
  {
    hide Tree, Translate, PagePath, PageCount, Flags, InRange, Disjoint, SharingCode;
  }

  /** The pages of the area in front of the one that holds the address are mapped. */
  ghost predicate EarlierMapped(s: Space, a: Area, addr: int) {
    forall l :: 0 <= l < (addr - a.start) / PAGE_SIZE ==> Translate(s.mem, s.root, PagePath(a, l)).Some?
  }

  lemma {:induction false} HoleBreaksOrder(mem: Frames, after: Frames, root: int, a: Area, l: int, k: int)
    requires InRange(a) && 0 <= l < k < PageCount(a) && Fixed(mem, after, root, PagePath(a, k))
    requires Translate(mem, root, PagePath(a, l)).None?
    ensures !PopulatedInOrder(after, root, a)
  {
    hide Translate, PagePath, InRange, PageCount, MakeEntry;
    PagePathsDistinct(a, l, a, k);
    assert Translate(after, root, PagePath(a, l)).None? && Translate(after, root, PagePath(a, k)).Some?;
  }

  /**
   A fault that the handler fixes, given by its address alone: the isolation survives exactly if the page was
   mapped already, or the earlier pages of the area are mapped and its permissions may be 7 at the moment,
   that is, no thread runs, or the owner does, or siblings may write the area.
   */
  lemma {:induction false} FixedFaultIsolatedIff(s: Space, addr: int, after: Space)
    requires Isolated(s) && FindOwner(s.threads, addr).Some?
    requires Alike(s, after)
    requires Tree(after.mem, s.root, after.level) && Fixed(s.mem, after.mem, s.root, PathOf(addr))
    ensures var (t, i) := FindOwner(s.threads, addr).value;
            Active(s.threads, t, i)
            && (Isolated(after) <==>
                Translate(s.mem, s.root, PathOf(addr)).Some?
                || (EarlierMapped(s, s.threads[t].areas[i], addr)
                    && (s.running.None? || Due(s.threads, s.running.value, t, i) == 7)))
  {
    FoundOwnerIsActive(s.threads, addr);
    var (t, i) := FindOwner(s.threads, addr).value;
    var a := s.threads[t].areas[i];
    var k := (addr - a.start) / PAGE_SIZE;
    hide FindOwner, Tree, Translate, PathOf, PagePath, PageCount, Bounded, PopulatedInOrder, HasCode, Disjoint,
        SharingCode, MakeEntry;
    AddressIsOnPage(a, addr);
    if Translate(s.mem, s.root, PathOf(addr)).Some? {
      UnchangedKeepsIsolated(s, after);
    } else if !EarlierMapped(s, a, addr) {
      var l :| 0 <= l < k && Translate(s.mem, s.root, PagePath(a, l)).None?;
      HoleBreaksOrder(s.mem, after.mem, s.root, a, l, k);
    } else if s.running.None? || Due(s.threads, s.running.value, t, i) == 7 {
      FaultKeepsIsolated(s, t, i, k, after);
    } else {
      NewPageHasAllBits(s, t, i, k, after, s.running.value);
    }
  }

  // ----- what the handler makes of a fault -----

  /** The pid of the running context. */
  function Current(s: Space): Word32
    requires s.running.Some? ==> s.running.value < |s.threads|
  {
    match s.running case None => s.process case Some(t) => s.threads[t].pid
  }

  /** The page tables that the fault handler leaves behind, see ThreadedSpace.HandleFault. */
  ghost predicate FaultHandled(s: Space, addr: int, errorCode: nat, unset: nat, after: Space) {
    && WellShaped(s.threads) && (s.threads[0].used || unset <= MAX_PRIVATE_AREAS)
    && (s.running.Some? ==> s.running.value < |s.threads|)
    && Alike(s, after) && Tree(after.mem, s.root, after.level)
    && if FaultVerdict(s.threads, Current(s), s.process, addr, errorCode, unset) == Granted
       then Fixed(s.mem, after.mem, s.root, PathOf(addr))
       else after.mem == s.mem && after.level == s.level
  }

  /** The page of path `p` belongs to an area that must not get this page with bits 7 now. */
  ghost predicate TooEarly(s: Space, p: Path) {
    Translate(s.mem, s.root, p).None? && exists t, i, k :: PageIs(s, t, i, k, p) && !InOrderFault(s, t, i, k)
  }

  ghost predicate PageIs(s: Space, t: int, i: int, k: int, p: Path) {
    Active(s.threads, t, i) && 0 <= k < PageCount(s.threads[t].areas[i]) && p == PagePath(s.threads[t].areas[i], k)
  }

  lemma {:induction false} TooEarlyBreaks(s: Space, t: int, i: int, k: int, p: Path, after: Space)
    requires Isolated(s) && Alike(s, after) && Fixed(s.mem, after.mem, s.root, p)
    requires Translate(s.mem, s.root, p).None? && PageIs(s, t, i, k, p) && !InOrderFault(s, t, i, k)
    ensures !Isolated(after)
  {
    hide Translate, PagePath, PageCount, Fixed, HasCode, PopulatedInOrder, SharingCode, Disjoint, InRange;
    var a := s.threads[t].areas[i];
    if s.running.Some? && Due(s.threads, s.running.value, t, i) != 7 {
      NewPageHasAllBits(s, t, i, k, after, s.running.value);
    } else {
      var l :| 0 <= l < k && Translate(s.mem, s.root, PagePath(a, l)).None?;
      HoleBreaksOrder(s.mem, after.mem, s.root, a, l, k);
    }
  }

  lemma {:induction false} FaultBesidesAreas(s: Space, p: Path, after: Space)
    requires Isolated(s) && Alike(s, after) && Tree(after.mem, s.root, after.level)
    requires Fixed(s.mem, after.mem, s.root, p) && forall t, i, k :: !PageIs(s, t, i, k, p)
    ensures Isolated(after)
  {
    hide Tree, Bounded, Fixed, PopulatedInOrder, HasCode, Translate, PagePath, PageCount, InRange, Disjoint;
    FaultKeepsBounded(s.mem, after.mem, s.root, p);
    forall u, j | Active(s.threads, u, j)
      ensures PopulatedInOrder(after.mem, s.root, s.threads[u].areas[j])
      ensures s.running.Some? ==>
                HasCode(after.mem, s.root, s.threads[u].areas[j], Due(s.threads, s.running.value, u, j))
    {
      FaultBesidesArea(s, p, after, u, j);
      KeptOrder(s.mem, after.mem, s.root, s.threads[u].areas[j]);
      if s.running.Some? {
        KeptCode(s.mem, after.mem, s.root, s.threads[u].areas[j], Due(s.threads, s.running.value, u, j));
      }
    }
  }

  lemma {:induction false} FaultBesidesArea(s: Space, p: Path, after: Space, u: int, j: int)
    requires Active(s.threads, u, j) && Fixed(s.mem, after.mem, s.root, p)
    requires forall t, i, k :: !PageIs(s, t, i, k, p)
    ensures Kept(s.mem, after.mem, s.root, s.threads[u].areas[j])
  {
    hide Translate, PagePath, PageCount, MakeEntry;
    forall k | 0 <= k < PageCount(s.threads[u].areas[j]) ensures PagePath(s.threads[u].areas[j], k) != p {
      assert !PageIs(s, u, j, k, p);
    }
  }

  /**
   After any fault, whatever index the handler's search runs into, the isolation survives exactly if no page is
   granted too early.
   */
  lemma {:induction false} AnyFaultIsolatedIff(s: Space, addr: int, errorCode: nat, unset: nat, after: Space)
    requires Isolated(s) && FaultHandled(s, addr, errorCode, unset, after)
    ensures Isolated(after) <==>
            (FaultVerdict(s.threads, Current(s), s.process, addr, errorCode, unset) == Granted ==>
             !TooEarly(s, PathOf(addr)))
  {
    hide FaultVerdict, Tree, Translate, PathOf, PagePath, PageCount, Bounded, PopulatedInOrder, HasCode, Disjoint,
        InRange, SharingCode, MakeEntry;
    if FaultVerdict(s.threads, Current(s), s.process, addr, errorCode, unset) == Granted {
      var p := PathOf(addr);
      if Translate(s.mem, s.root, p).Some? {
        UnchangedKeepsIsolated(s, after);
      } else if TooEarly(s, p) {
        var t, i, k :| PageIs(s, t, i, k, p) && !InOrderFault(s, t, i, k);
        TooEarlyBreaks(s, t, i, k, p, after);
      } else if t, i, k :| PageIs(s, t, i, k, p) {
        FaultKeepsIsolated(s, t, i, k, after);
      } else {
        FaultBesidesAreas(s, p, after);
      }
    } else {
      UnchangedKeepsIsolated(s, after);
    }
  }

  /** A thread other than `t` runs. */
  predicate SiblingRuns(s: Space, t: nat) { s.running.Some? && s.running.value != t }

  /** A page is mapped out of order, or for a sibling that may only read it but comes first. */
  ghost predicate OpensTooMuch(s: Space, addr: int, errorCode: nat) {
    match FindOwner(s.threads, addr)
    case None => false
    case Some(x) =>
      x.0 < |s.threads| && x.1 < |s.threads[x.0].areas|
      && var a := s.threads[x.0].areas[x.1];
      && Translate(s.mem, s.root, PathOf(addr)).None?
      && if SiblingRuns(s, x.0)
         then (Access(a.flags) == TP_SIBLINGS_RDONLY && errorCode % 2 == 0)
              || (Access(a.flags) !in {TP_SIBLINGS_RDONLY, TP_SIBLINGS_NOACCESS} && !EarlierMapped(s, a, addr))
         else !EarlierMapped(s, a, addr)
  }

  /**
   For a handler whose search does not run into its unset index: the isolation survives exactly if the handler
   did not map a page out of order and did not map a read-only page for a sibling, which it does when the
   present bit is 0.
   */
  lemma {:induction false} HandledFaultIsolatedIff(s: Space, addr: int, errorCode: nat, unset: nat, after: Space)
    requires Isolated(s) && FaultHandled(s, addr, errorCode, unset, after)
    requires s.threads[0].used || unset == MAX_PRIVATE_AREAS
    ensures Isolated(after) <==> !OpensTooMuch(s, addr, errorCode)
  {
    SearchIsOwnerIff(s.threads, addr, unset);
    FoundOwnerIsActive(s.threads, addr);
    hide FindOwner, Search, Tree, Translate, PathOf, PagePath, PageCount, Bounded, PopulatedInOrder, HasCode, Fixed,
        EarlierMapped, InRange, Disjoint;
    if FindOwner(s.threads, addr).Some? {
      var (t, i) := FindOwner(s.threads, addr).value;
      CurrentIsOwnerIff(s, t);
      if FaultVerdict(s.threads, Current(s), s.process, addr, errorCode, unset) == Granted {
        FixedFaultIsolatedIff(s, addr, after);
      }
    }
  }

  /** The handler's test by pids tells the owner and the process from the siblings. */
  lemma {:induction false} CurrentIsOwnerIff(s: Space, t: nat)
    requires Isolated(s) && t < |s.threads| && s.threads[t].used
    ensures s.threads[t].pid == Current(s) || s.process == Current(s) <==> !SiblingRuns(s, t)
  {
    DistinctPids(s.mem, s.root, s.level, s.threads);
    hide Sound, Ordered, HasCode;
  }
}
