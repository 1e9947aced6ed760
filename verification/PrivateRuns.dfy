/**
 Whole runs of a process with threads: clones and exits, private areas that are mapped and unmapped, page
 faults, and the context switches that rewrite the permissions.
 */
module PrivateRuns {
  import opened Kernel
  import opened PageTables
  import opened PrivateMemory
  import opened PrivateSwitch
  import opened PrivateMappings
  import ThreadTable

  /**
   The steps. Where page tables change by a fault, by the kernel's unmapping or by the processor, the event
   carries the tables that are left behind; FaultHandled, Dropped and Marked say what is known of them.
   */
  datatype Event =
    | ToThread(next: nat)
    | ToProcess
    | Fault(addr: int, errorCode: nat, unset: nat, mem: Frames, level: map<int, int>)
    | Accessed(mem: Frames)
    | Clone(pid: Word32)
    | Exit(mem: Frames, level: map<int, int>)
    | Map(area: Area)
    | Unmap(t: nat, i: nat, mem: Frames, level: map<int, int>)

  ghost predicate PageOf(a: Area, p: Path) { exists k :: 0 <= k < PageCount(a) && p == PagePath(a, k) }

  /** The pages of thread `t`'s areas, or of one of them. */
  ghost predicate IsGone(threads: seq<Thread>, t: nat, only: Option<nat>, p: Path) {
    exists i :: Active(threads, t, i) && (only == None || only == Some(i)) && PageOf(threads[t].areas[i], p)
  }

  /** The kernel has unmapped exactly those pages. */
  ghost predicate Dropped(mem: Frames, after: Frames, root: int, threads: seq<Thread>, t: nat, only: Option<nat>) {
    forall p :: Translate(after, root, p) == if IsGone(threads, t, only, p) then None else Translate(mem, root, p)
  }

  /** The processor has set accessed and dirty bits, which are bits 5 and 6, of some leaves. */
  ghost predicate Marked(mem: Frames, after: Frames, root: int) {
    forall p :: Translate(after, root, p).Some? == Translate(mem, root, p).Some?
                && (Translate(mem, root, p).Some? ==>
                    IsMarked(Translate(mem, root, p).value, Translate(after, root, p).value))
  }

  predicate IsMarked(e: int, after: int) { after / 0x80 == e / 0x80 && after % 0x20 == e % 0x20 }

  lemma {:induction false} MarkedEntry(e: int, after: int)
    requires IsMarked(e, after)
    ensures after / PAGE_SIZE == e / PAGE_SIZE && Pfn(after) == Pfn(e) && Permissions(after) == Permissions(e)
  {
    UpperPart(e);
    UpperPart(after);
    LowerPart(e);
    LowerPart(after);
  }

  lemma {:induction false} UpperPart(e: int)
    ensures e / 0x80 / 32 == e / PAGE_SIZE
  {
  }

  lemma {:induction false} LowerPart(e: int)
    ensures e % 0x20 % 8 == Permissions(e)
  {
    var q, r := e / 0x20, e % 0x20;
    assert e == 8 * (4 * q) + r;
    RemainderIs(e, 8, 4 * q + r / 8, r % 8);
  }

  /** The record of a thread that has ended: its areas have been released, its pid stays. */
  function Ended(th: Thread): Thread {
    Thread(th.pid, false, seq(|th.areas|, i requires 0 <= i < |th.areas| => Disowned(th.areas[i])))
  }

  ghost predicate Allowed(s: Space, ev: Event) {
    match ev
    case ToThread(next) => next < |s.threads| && s.threads[next].used
    case ToProcess => s.running.Some?
    case Fault(addr, errorCode, unset, mem, level) =>
      && FaultHandled(s, addr, errorCode, unset, s.(mem := mem, level := level))
      && (FaultVerdict(s.threads, Current(s), s.process, addr, errorCode, unset) == Granted ==>
          !TooEarly(s, PathOf(addr)))
    case Accessed(mem) => Tree(mem, s.root, s.level) && Marked(s.mem, mem, s.root)
    case Clone(pid) =>
      && pid != s.process && !ThreadTable.IsLive(s.threads, pid)
          && ThreadTable.FreshBehind(s.threads, ThreadTable.FirstFree(s.threads), pid)
      && (s.running.Some? ==> Runs(s, s.running.value))
    case Exit(mem, level) =>
      && s.running.Some? && Runs(s, s.running.value)
      && Tree(mem, s.root, level) && Dropped(s.mem, mem, s.root, s.threads, s.running.value, None)
    case Map(area) =>
      && s.running.Some? && Runs(s, s.running.value) && InRange(area) && Apart(s.threads, area)
      && (forall p :: PageOf(area, p) ==> Translate(s.mem, s.root, p) == None)
    case Unmap(t, i, mem, level) =>
      && Active(s.threads, t, i) && (s.running == None || s.running == Some(t))
      && Tree(mem, s.root, level) && Dropped(s.mem, mem, s.root, s.threads, t, Some(i))
  }

  predicate Runs(s: Space, t: nat) { t < |s.threads| && s.threads[t].used }

  ghost function After(s: Space, ev: Event): Space
    requires Isolated(s) && Allowed(s, ev)
  {
    match ev
    case ToThread(next) =>
      var mem := match s.running
        case Some(cur) => SwitchThreads(s.mem, s.root, s.level, s.threads, cur, next, 0)
        case None => SwitchFromProcess(s.mem, s.root, s.level, s.threads, next, 0);
      s.(mem := mem, running := Some(next))
    case ToProcess => s.(running := None)
    case Fault(_, _, _, mem, level) => s.(mem := mem, level := level)
    case Accessed(mem) => s.(mem := mem)
    case Clone(pid) => s.(threads := ThreadTable.AfterClone(s.threads, pid))
    case Exit(mem, level) =>
      var t := s.running.value;
      s.(mem := mem, level := level, threads := s.threads[t := Ended(s.threads[t])])
    case Map(area) =>
      (match AfterMap(s.threads, s.running.value, area)
       case None => s
       case Some(threads) => s.(threads := threads))
    case Unmap(t, i, mem, level) =>
      s.(mem := mem, level := level, threads := SetArea(s.threads, t, i, Disowned(s.threads[t].areas[i])))
  }

  // ----- what the steps keep -----

  /** Fewer areas and fewer mapped pages: nothing that is left has changed. */
  ghost predicate Shrunk(s: Space, after: Space) {
    && after.root == s.root && after.running == s.running && after.process == s.process
    && (forall p ::
          Translate(after.mem, s.root, p) == Translate(s.mem, s.root, p) || Translate(after.mem, s.root, p) == None)
    && forall u, j :: Active(after.threads, u, j) ==>
         && Active(s.threads, u, j) && after.threads[u].areas[j] == s.threads[u].areas[j]
         && Kept(s.mem, after.mem, s.root, s.threads[u].areas[j])
  }

  lemma {:induction false} ShrinkKeepsIsolated(s: Space, after: Space)
    requires Isolated(s) && Shrunk(s, after) && Laid(after.threads) && Tree(after.mem, s.root, after.level)
    requires forall t :: 0 <= t < |s.threads| && s.running == Some(t) ==>
        t < |after.threads| && OnlyHere(after.threads, t)
    requires forall t :: 0 <= t < |after.threads| ==> after.threads[t].pid != s.process
    ensures Isolated(after)
  {
    hide Laid, Tree, Kept, PopulatedInOrder, HasCode, Translate, SharingCode, OnlyHere;
    forall u, j | Active(after.threads, u, j)
      ensures PopulatedInOrder(after.mem, s.root, after.threads[u].areas[j])
      ensures s.running.Some? ==>
                HasCode(after.mem, s.root, after.threads[u].areas[j], Due(after.threads, s.running.value, u, j))
    {
      KeptOrder(s.mem, after.mem, s.root, s.threads[u].areas[j]);
      if s.running.Some? {
        KeptCode(s.mem, after.mem, s.root, s.threads[u].areas[j], Due(s.threads, s.running.value, u, j));
      }
    }
  }

  lemma {:induction false} NothingKept(mem: Frames, root: int, a: Area)
    ensures Kept(mem, mem, root, a)
  {
  }

  lemma {:induction false} IsolatedIsLaid(s: Space)
    requires Isolated(s)
    ensures Laid(s.threads) && |s.threads| == MAX_THREADS && Tree(s.mem, s.root, s.level)
    ensures s.running.Some? ==> s.running.value < MAX_THREADS && OnlyHere(s.threads, s.running.value)
    ensures forall t :: 0 <= t < |s.threads| ==> s.threads[t].pid != s.process
  {
  }

  lemma {:induction false} CloneKeepsIsolated(s: Space, pid: Word32)
    requires Isolated(s) && Allowed(s, Clone(pid))
    ensures Isolated(After(s, Clone(pid)))
  {
    var i, after := ThreadTable.FirstFree(s.threads), After(s, Clone(pid));
    IsolatedIsLaid(s);
    if i < |s.threads| {
      ThreadTable.CloneKeepsUniqueIff(s.threads, pid);
      hide Isolated, InRange, Disjoint, Tree, Translate, Kept;
      assert after.threads[i].areas == s.threads[i].areas && forall j :: 0 <= j < MAX_PRIVATE_AREAS ==>
          !s.threads[i].areas[j].owned;
      forall u, j | Active(after.threads, u, j)
        ensures Active(s.threads, u, j) && after.threads[u].areas[j] == s.threads[u].areas[j]
                && Kept(s.mem, after.mem, s.root, s.threads[u].areas[j])
      {
        NothingKept(s.mem, s.root, s.threads[u].areas[j]);
      }
      ShrinkKeepsIsolated(s, after);
    }
  }

  /** The pages of one area are not among the unmapped ones of others. */
  lemma {:induction false} DroppedSpares(s: Space, mem: Frames, t: nat, only: Option<nat>, u: nat, j: nat)
    requires Laid(s.threads) && Dropped(s.mem, mem, s.root, s.threads, t, only)
    requires Active(s.threads, u, j) && (u != t || (only.Some? && only.value != j))
    ensures Kept(s.mem, mem, s.root, s.threads[u].areas[j])
  {
    hide InRange, Disjoint, Translate, PagePath, PageCount;
    var b := s.threads[u].areas[j];
    forall k | 0 <= k < PageCount(b) ensures !IsGone(s.threads, t, only, PagePath(b, k)) {
      if i :| && Active(s.threads, t, i)
              && (only == None || only == Some(i))
              && PageOf(s.threads[t].areas[i], PagePath(b, k)) {
        var l :| 0 <= l < PageCount(s.threads[t].areas[i]) && PagePath(b, k) == PagePath(s.threads[t].areas[i], l);
        PagePathsDistinct(b, k, s.threads[t].areas[i], l);
      }
    }
  }

  lemma {:induction false} ExitKeepsIsolated(s: Space, mem: Frames, level: map<int, int>)
    requires Isolated(s) && Allowed(s, Exit(mem, level))
    ensures Isolated(After(s, Exit(mem, level)))
  {
    var t, after := s.running.value, After(s, Exit(mem, level));
    IsolatedIsLaid(s);
    hide Isolated, InRange, Disjoint, Tree, Translate, Kept, Dropped;
    forall u, j | Active(after.threads, u, j)
      ensures u != t && Active(s.threads, u, j) && after.threads[u].areas[j] == s.threads[u].areas[j]
              && Kept(s.mem, mem, s.root, s.threads[u].areas[j])
    {
      DroppedSpares(s, mem, t, None, u, j);
    }
    DroppedOnlyDrops(s, mem, t, None);
    ShrinkKeepsIsolated(s, after);
  }

  lemma {:induction false} DroppedOnlyDrops(s: Space, mem: Frames, t: nat, only: Option<nat>)
    requires Dropped(s.mem, mem, s.root, s.threads, t, only)
    ensures forall p :: Translate(mem, s.root, p) == Translate(s.mem, s.root, p) || Translate(mem, s.root, p) == None
  {
    hide Translate, IsGone;
  }

  lemma {:induction false} UnmapKeepsIsolated(s: Space, t: nat, i: nat, mem: Frames, level: map<int, int>)
    requires Isolated(s) && Allowed(s, Unmap(t, i, mem, level))
    ensures Isolated(After(s, Unmap(t, i, mem, level)))
  {
    var after := After(s, Unmap(t, i, mem, level));
    IsolatedIsLaid(s);
    DisownKeepsLaid(s.threads, t, i);
    hide Isolated, Laid, InRange, Disjoint, Tree, Translate, Kept, Dropped;
    forall u, j | Active(after.threads, u, j)
      ensures Active(s.threads, u, j) && after.threads[u].areas[j] == s.threads[u].areas[j]
              && Kept(s.mem, mem, s.root, s.threads[u].areas[j])
    {
      DroppedSpares(s, mem, t, Some(i), u, j);
    }
    DroppedOnlyDrops(s, mem, t, Some(i));
    ShrinkKeepsIsolated(s, after);
  }

  lemma {:induction false} UnmappedAreaIsFine(mem: Frames, root: int, a: Area, code: int)
    requires forall p :: PageOf(a, p) ==> Translate(mem, root, p) == None
    ensures PopulatedInOrder(mem, root, a) && HasCode(mem, root, a, code)
  {
    hide Translate;
    forall k | 0 <= k < PageCount(a) ensures Translate(mem, root, PagePath(a, k)) == None {
      assert PageOf(a, PagePath(a, k));
    }
  }

  lemma {:induction false} MapKeepsIsolated(s: Space, area: Area)
    requires Isolated(s) && Allowed(s, Map(area))
    ensures Isolated(After(s, Map(area)))
  {
    var t, after := s.running.value, After(s, Map(area));
    IsolatedIsLaid(s);
    MapKeepsLaid(s.threads, t, area);
    if AfterMap(s.threads, t, area).Some? {
      hide Laid, Tree, Translate, InRange, Disjoint, PopulatedInOrder, HasCode, SharingCode;
      var i, a := FirstUnused(s.threads[t].areas), area.(owned := true);
      SamePages(area, a);
      forall u, j | Active(after.threads, u, j)
        ensures PopulatedInOrder(s.mem, s.root, after.threads[u].areas[j])
        ensures HasCode(s.mem, s.root, after.threads[u].areas[j], Due(after.threads, t, u, j))
      {
        if u == t && j == i {
          UnmappedAreaIsFine(s.mem, s.root, a, Due(after.threads, t, u, j));
        } else {
          assert Active(s.threads, u, j) && after.threads[u].areas[j] == s.threads[u].areas[j];
        }
      }
    }
  }

  lemma {:induction false} SamePages(a: Area, b: Area)
    requires b == a.(owned := true)
    ensures forall p :: PageOf(a, p) <==> PageOf(b, p)
  {
    forall p ensures PageOf(a, p) <==> PageOf(b, p) {
      if k :| 0 <= k < PageCount(a) && p == PagePath(a, k) { assert p == PagePath(b, k); }
      if k :| 0 <= k < PageCount(b) && p == PagePath(b, k) { assert p == PagePath(a, k); }
    }
  }

  // ----- runs -----

  ghost predicate FramesStay(s: Space, after: Space) {
    forall p :: Translate(s.mem, s.root, p).Some? ==>
      Translate(after.mem, s.root, p).Some?
          && Pfn(Translate(after.mem, s.root, p).value) == Pfn(Translate(s.mem, s.root, p).value)
  }

  lemma {:induction false} FixedKeepsFrames(s: Space, after: Space, p: Path)
    requires Fixed(s.mem, after.mem, s.root, p)
    ensures FramesStay(s, after)
  {
    hide Translate, Pfn, MakeEntry;
  }

  lemma {:induction false} HandledKeepsFrames(s: Space, addr: int, errorCode: nat, unset: nat, after: Space)
    requires FaultHandled(s, addr, errorCode, unset, after)
    ensures FramesStay(s, after)
  {
    hide Translate, Pfn, Fixed, FaultVerdict, PathOf;
    if FaultVerdict(s.threads, Current(s), s.process, addr, errorCode, unset) == Granted {
      FixedKeepsFrames(s, after, PathOf(addr));
    }
  }

  /** The processor's marks change neither frames nor permissions. */
  lemma {:induction false} AccessKeepsIsolated(s: Space, mem: Frames)
    requires Isolated(s) && Tree(mem, s.root, s.level) && Marked(s.mem, mem, s.root)
    ensures Isolated(s.(mem := mem)) && FramesStay(s, s.(mem := mem))
  {
    hide Tree, Laid, Translate, PagePath, PageCount, Permissions, Pfn, SharingCode, OnlyHere, IsMarked;
    forall p | Translate(s.mem, s.root, p).Some?
      ensures Translate(mem, s.root, p).Some?
      ensures var e, after := Translate(s.mem, s.root, p).value, Translate(mem, s.root, p).value;
              after / PAGE_SIZE == e / PAGE_SIZE && Pfn(after) == Pfn(e) && Permissions(after) == Permissions(e)
    {
      MarkedEntry(Translate(s.mem, s.root, p).value, Translate(mem, s.root, p).value);
    }
  }

  predicate UnmapsPages(ev: Event) { ev.Exit? || ev.Unmap? }

  /** Every step keeps the isolation, and no mapped page changes its frame unless the step unmaps pages. */
  lemma {:induction false} StepKeepsIsolated(s: Space, ev: Event)
    requires Isolated(s) && Allowed(s, ev)
    ensures Isolated(After(s, ev)) && After(s, ev).root == s.root
    ensures !UnmapsPages(ev) ==> FramesStay(s, After(s, ev))
  {
    hide SwitchThreads, SwitchFromProcess, Tree, Translate, PagePath, Pfn, MakeEntry, Sound, HasCode, AfterMap, Dropped;
    match ev
    case ToThread(next) => SwitchKeepsIsolated(s, next, After(s, ev));
    case ToProcess =>
    case Fault(addr, errorCode, unset, mem, level) =>
      AnyFaultIsolatedIff(s, addr, errorCode, unset, After(s, ev));
      HandledKeepsFrames(s, addr, errorCode, unset, After(s, ev));
    case Accessed(mem) => AccessKeepsIsolated(s, mem);
    case Clone(pid) => CloneKeepsIsolated(s, pid);
    case Exit(mem, level) => ExitKeepsIsolated(s, mem, level);
    case Map(area) => MapKeepsIsolated(s, area);
    case Unmap(t, i, mem, level) => UnmapKeepsIsolated(s, t, i, mem, level);
  }

  ghost predicate RunsTo(s: Space, events: seq<Event>, t: Space)
    requires Isolated(s)
    decreases |events|
  {
    if events == [] then t == s
    else
      && Allowed(s, events[0])
      && (StepKeepsIsolated(s, events[0]); RunsTo(After(s, events[0]), events[1..], t))
  }

  /**
   The main result: over every run of clones, exits, mapping and unmapping of private areas, in-order faults
   and thread and process switches, while a thread runs its own mapped pages have bits 7 and those of the
   others their sharing code; and unless pages are unmapped in between, frames never change.
   */
  lemma {:induction false} RunStaysIsolated(s: Space, events: seq<Event>, t: Space)
    requires Isolated(s) && RunsTo(s, events, t)
    ensures Isolated(t) && t.root == s.root
    ensures (forall ev :: ev in events ==> !UnmapsPages(ev)) ==> FramesStay(s, t)
    decreases |events|
  {
    hide Isolated, Allowed, After, Translate, Pfn, UnmapsPages;
    if events != [] {
      StepKeepsIsolated(s, events[0]);
      RunStaysIsolated(After(s, events[0]), events[1..], t);
      assert events[0] in events && forall ev :: ev in events[1..] ==> ev in events;
    }
  }

  // ----- who may touch a page -----

  predicate Writable(e: int) { e / 2 % 2 == 1 }
  predicate UserMode(e: int) { e / 4 % 2 == 1 }

  lemma {:induction false} BitsOfPermissions(e: int)
    ensures Present(e) <==> Permissions(e) % 2 == 1
    ensures Writable(e) <==> Permissions(e) / 2 % 2 == 1
    ensures UserMode(e) <==> Permissions(e) / 4 % 2 == 1
  {
    var q, r := e / 8, e % 8;
    assert e == 8 * q + r;
    assert e / 2 == 4 * q + r / 2 && e / 4 == 2 * q + r / 4;
  }

  /**
   The isolation in the processor's terms, at the end of every run: the running thread may read and write the mapped
   pages of its own areas; those of another thread's area it may read if and only if the area is not closed to
   siblings, and write if and only if the area is neither closed nor read-only to them.
   */
  lemma {:induction false} RunProtectsPages(s: Space, events: seq<Event>, t: Space, u: int, i: int, k: int)
    requires Isolated(s) && RunsTo(s, events, t) && t.running.Some? && Active(t.threads, u, i)
    requires 0 <= k < PageCount(t.threads[u].areas[i])
    requires Translate(t.mem, t.root, PagePath(t.threads[u].areas[i], k)).Some?
    ensures var e, flags := Translate(t.mem, t.root, PagePath(t.threads[u].areas[i], k)).value,
                            t.threads[u].areas[i].flags;
            && Present(e)
            && (u == t.running.value ==> UserMode(e) && Writable(e))
            && (u != t.running.value ==>
                && (UserMode(e) <==> Access(flags) != TP_SIBLINGS_NOACCESS)
                && (UserMode(e) && Writable(e) <==>
                    Access(flags) != TP_SIBLINGS_NOACCESS && Access(flags) != TP_SIBLINGS_RDONLY))
  {
    hide Isolated, RunsTo, Translate, PagePath, PageCount, UserMode, Writable, Present, Permissions, Access;
    RunStaysIsolated(s, events, t);
    PermissionsAreDue(t, u, i, k);
    BitsOfPermissions(Translate(t.mem, t.root, PagePath(t.threads[u].areas[i], k)).value);
  }

  lemma {:induction false} PermissionsAreDue(s: Space, u: int, i: int, k: int)
    requires Isolated(s) && s.running.Some? && Active(s.threads, u, i) && 0 <= k < PageCount(s.threads[u].areas[i])
    requires Translate(s.mem, s.root, PagePath(s.threads[u].areas[i], k)).Some?
    ensures Permissions(Translate(s.mem, s.root, PagePath(s.threads[u].areas[i], k)).value)
            == Due(s.threads, s.running.value, u, i)
  {
    hide Sound, Ordered, Translate, PagePath, PageCount, OnlyHere, Permissions, SharingCode;
  }

  /** A process without threads, with the zeroed table and page tables that are a tree, is where a run may start. */
  lemma {:induction false} ProcessStartsIsolated(mem: Frames, root: int, level: map<int, int>, process: Word32)
    requires Tree(mem, root, level) && Bounded(mem, root) && process != 0
    ensures Isolated(Space(mem, root, level, ThreadTable.STAGE0, None, process))
  {
    hide Tree, Bounded;
  }

  /** The page tables may be empty. */
  lemma {:induction false} EmptyStartsIsolated(root: int, process: Word32)
    requires process != 0
    ensures Isolated(Space(map[root := ZeroFrame()], root, map[root := 1], ThreadTable.STAGE0, None, process))
  {
    var mem := map[root := ZeroFrame()];
    forall p ensures Translate(mem, root, p) == None {
    }
    ProcessStartsIsolated(mem, root, map[root := 1], process);
  }

  /** The switch handler's searches find the slots that a step of a run switches between, and none for the process. */
  lemma {:induction false} SwitchFindsSlots(s: Space, next: nat)
    requires Isolated(s) && next < |s.threads| && s.threads[next].used
    ensures ThreadTable.LastWithPid(s.threads, s.threads[next].pid) == Some(next)
    ensures ThreadTable.LastWithPid(s.threads, Current(s)) == s.running
    ensures ThreadTable.LastWithPid(s.threads, s.process) == None
  {
    IsolatedIsLaid(s);
    hide Isolated;
    ThreadTable.LookupsAgree(s.threads, next);
    if s.running.Some? {
      ThreadTable.LastWithPidIs(s.threads, s.threads[s.running.value].pid, s.running.value);
    }
    assert ThreadTable.LastWithPid(s.threads, s.process) == None;
  }

  // ----- a run after which a live owner is not found -----

  lemma {:induction false} OneStepFirst(s: Space, ev: Event, events: seq<Event>, t: Space)
    requires Isolated(s) && Allowed(s, ev) && Isolated(After(s, ev)) && RunsTo(After(s, ev), events, t)
    ensures RunsTo(s, [ev] + events, t)
  {
    hide Isolated, Allowed, After;
    assert ([ev] + events)[1..] == events;
  }

  lemma {:induction false} NoPagesAfterSwitch(s: Space, next: nat)
    requires Isolated(s) && next < |s.threads| && s.threads[next].used
    requires forall p :: Translate(s.mem, s.root, p) == None
    ensures forall p :: Translate(After(s, ToThread(next)).mem, s.root, p) == None
  {
    hide Sound, HasCode, Translate, SwitchThreads, SwitchFromProcess;
    SwitchKeepsIsolated(s, next, After(s, ToThread(next)));
  }

  /** Two clones, and the second thread runs. */
  lemma {:induction false} TwoThreads(s: Space)
    requires Isolated(s) && s.threads == ThreadTable.STAGE0 && s.running == None && s.process !in {1, 2}
    ensures Allowed(s, Clone(1))
    ensures var s1 := After(s, Clone(1));
            && Isolated(s1) && Allowed(s1, Clone(2)) && s1.threads == ThreadTable.STAGE1
            && var s2 := After(s1, Clone(2));
            && Isolated(s2) && Allowed(s2, ToThread(1)) && Allowed(s2, ToThread(0)) && s2.threads == ThreadTable.STAGE2
            && s2 == s.(threads := ThreadTable.STAGE2)
  {
    ThreadTable.StagesFollow();
    hide Isolated;
    StepKeepsIsolated(s, Clone(1));
    StepKeepsIsolated(After(s, Clone(1)), Clone(2));
  }

  /** The second thread of two maps an area. */
  lemma {:induction false} SecondThreadMaps(s: Space, area: Area)
    requires Isolated(s) && s.threads == ThreadTable.STAGE2 && s.running == Some(1) && InRange(area)
    requires forall p :: Translate(s.mem, s.root, p) == None
    ensures Allowed(s, Map(area))
    ensures var t := After(s, Map(area));
            && Isolated(t) && t.mem == s.mem && t.root == s.root && t.running == s.running && |t.threads| == MAX_THREADS
            && t.threads[0] == s.threads[0] && t.threads[1].used && |t.threads[1].areas| == MAX_PRIVATE_AREAS
            && t.threads[1].areas[0] == area.(owned := true)
  {
    hide Isolated, Translate, InRange, Disjoint;
    assert FirstUnused(s.threads[1].areas) == 0;
    StepKeepsIsolated(s, Map(area));
  }

  /** The first thread, which owns nothing, runs and ends. */
  lemma {:induction false} FirstThreadEnds(s: Space)
    requires Isolated(s) && |s.threads| == MAX_THREADS && s.threads[0] == ThreadTable.Record(1, true)
        && s.running == Some(0)
    ensures Allowed(s, Exit(s.mem, s.level))
    ensures var t := After(s, Exit(s.mem, s.level));
            Isolated(t) && t.threads == s.threads[0 := Ended(s.threads[0])]
  {
    IsolatedIsLaid(s);
    hide Isolated, Translate, Tree;
    StepKeepsIsolated(s, Exit(s.mem, s.level));
  }

  /**
   Two threads start, the second maps an area, the first ends: the owner of the area is alive and running can go
   back to it, but the handler's search stops at the first slot and does not find it.
   */
  lemma {:induction false} LiveOwnerIsNotFound(s: Space, area: Area, addr: int) returns (events: seq<Event>, t: Space)
    requires Isolated(s) && s.threads == ThreadTable.STAGE0 && s.running == None && s.process !in {1, 2}
    requires InRange(area) && area.start <= addr < area.start + area.length
    requires forall p :: Translate(s.mem, s.root, p) == None
    ensures RunsTo(s, events, t) && Isolated(t)
    ensures |t.threads| == MAX_THREADS && t.threads[1].used && OwnsAt(t.threads[1], addr)
    ensures FindOwner(t.threads, addr) == None
  {
    hide Isolated, Allowed, After, Translate, Search, FindOwner;
    TwoThreads(s);
    var s1 := After(s, Clone(1));
    var s2 := After(s1, Clone(2));
    var s3 := SwitchTo(s2, 1);
    SecondThreadMaps(s3, area);
    var s4 := After(s3, Map(area));
    var s5 := SwitchTo(s4, 0);
    FirstThreadEnds(s5);
    t := After(s5, Exit(s5.mem, s5.level));
    assert Covers(t.threads[1].areas[0], addr);
    FirstUnusedFindsNone(t.threads, addr);
    events := [];
    assert RunsTo(t, [], t);
    OneStepFirst(s5, Exit(s5.mem, s5.level), events, t);
    events := [Exit(s5.mem, s5.level)] + events;
    OneStepFirst(s4, ToThread(0), events, t);
    events := [ToThread(0)] + events;
    OneStepFirst(s3, Map(area), events, t);
    events := [Map(area)] + events;
    OneStepFirst(s2, ToThread(1), events, t);
    events := [ToThread(1)] + events;
    OneStepFirst(s1, Clone(2), events, t);
    events := [Clone(2)] + events;
    OneStepFirst(s, Clone(1), events, t);
    events := [Clone(1)] + events;
  }

  lemma {:induction false} SwitchTo(s: Space, next: nat) returns (t: Space)
    requires Isolated(s) && next < |s.threads| && s.threads[next].used
    requires forall p :: Translate(s.mem, s.root, p) == None
    ensures Allowed(s, ToThread(next)) && t == After(s, ToThread(next)) && Isolated(t)
    ensures t.root == s.root && t.threads == s.threads && t.process == s.process && t.running == Some(next)
    ensures forall p :: Translate(t.mem, t.root, p) == None
  {
    hide Isolated, Translate, SwitchThreads, SwitchFromProcess;
    t := After(s, ToThread(next));
    StepKeepsIsolated(s, ToThread(next));
    NoPagesAfterSwitch(s, next);
  }

  lemma {:induction false} FirstUnusedFindsNone(threads: seq<Thread>, addr: int)
    requires threads != [] && !threads[0].used
    ensures FindOwner(threads, addr) == None
  {
  }
}
