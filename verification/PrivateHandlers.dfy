/** The handlers of clone_threads.c, working in place on the page-table words. */
module PrivateHandlers {
  import opened Kernel
  import opened PageTables
  import opened PrivateMemory
  import opened PrivateSwitch
  import ThreadTable

  /** The frames that the allocator hands out, in the order of the levels: three zeroed tables and a data frame. */
  datatype Supply = Supply(table2: Word32, table3: Word32, table4: Word32, data: Word32)

  ghost predicate Usable(mem: Frames, supply: Supply) {
    && supply.table2 !in mem && supply.table3 !in mem && supply.table4 !in mem
    && supply.table2 != supply.table3 && supply.table2 != supply.table4 && supply.table3 != supply.table4
    && supply.table2 < MAX_PFN && supply.table3 < MAX_PFN && supply.table4 < MAX_PFN && supply.data < MAX_PFN
  }

  class ThreadedSpace {
    var frames: Frames
    const root: int
    const threads: array<Thread>
    ghost var level: map<int, int>

    constructor (root: int, threads: array<Thread>)
      ensures Tree(frames, this.root, level) && this.root == root && this.threads == threads
      ensures forall p :: Translate(frames, root, p) == None
    {
      this.root, this.threads := root, threads;
      frames := map[root := ZeroFrame()];
      level := map[root := 1];
    }

    // ----- page faults -----

    /** One level of the walk: follow the entry, or install a table there. */
    method EnsureTable(f: int, i: int, pfn: Word32) returns (next: int)
      requires Tree(frames, root, level) && f in level && level[f] < 4 && 0 <= i < ENTRIES
      requires pfn !in frames && pfn < MAX_PFN
      modifies this`frames, this`level
      ensures Tree(frames, root, level) && next in level && level[next] == old(level)[f] + 1
      ensures Child(frames, f, i) == Some(next)
      ensures forall g, j :: Child(old(frames), g, j).Some? ==> Child(frames, g, j) == Child(old(frames), g, j)
      ensures forall p :: Translate(frames, root, p) == Translate(old(frames), root, p)
      ensures frames.Keys <= old(frames).Keys + {pfn} && OnlyOpened(old(frames), frames)
    {
      hide Tree, Translate, LeafTable;
      TableShape(frames, root, level, f, i);
      if Present(frames[f][i]) {
        next := Pfn(frames[f][i]);
      } else {
        forall p ensures Translate(Hang(frames, f, i, pfn), root, p) == Translate(frames, root, p) {
          HangKeepsTranslations(frames, root, level, f, i, pfn, p);
        }
        HangKeepsTree(frames, root, level, f, i, pfn);
        HangEntries(frames, f, i, pfn);
        EntryDecodes(pfn, 7);
        FreshEntries(frames, pfn);
        next := pfn;
        frames := frames[f := frames[f][i := MakeEntry(pfn, 7)]];
        frames := frames[pfn := ZeroFrame()];
        level := level[pfn := level[f] + 1];
      }
    }

    /** The last level of the walk: a present leaf stays, a new one is read-write. */
    method EnsureLeaf(p: Path, l4: int, data: Word32)
      requires Tree(frames, root, level) && ValidPath(p) && data < MAX_PFN
      requires LeafTable(frames, root, p) == Some(l4) && l4 in frames && p.i4 < |frames[l4]|
      modifies this`frames
      ensures Tree(frames, root, level) && Fixed(old(frames), frames, root, p)
      ensures Translate(old(frames), root, p).None? ==> Translate(frames, root, p) == Some(MakeEntry(data, 7))
      ensures OnlyOpened(old(frames), frames)
    {
      hide Tree, Translate, LeafTable;
      LeafFound(frames, root, p, l4);
      if !Present(frames[l4][p.i4]) {
        var e := MakeEntry(data, 7);
        EntryDecodes(data, 7);
        forall q ensures Translate(SetEntry(frames, l4, p.i4, e), root, q) == if q == p
            then Some(e) else Translate(frames, root, q) {
          LeafWrite(frames, root, level, p, e, q);
        }
        LeafWrite(frames, root, level, p, e, p);
        frames := frames[l4 := frames[l4][p.i4 := e]];
      }
    }

    /**
     The second half of the fault handler: afterwards the page of `addr` is mapped, to the frame that was allocated
     for it if it is new, and no other translation has changed.
     */
    method MapPage(addr: int, supply: Supply)
      requires Tree(frames, root, level) && Usable(frames, supply)
      modifies this`frames, this`level
      ensures Tree(frames, root, level) && Fixed(old(frames), frames, root, PathOf(addr))
      ensures Translate(old(frames), root, PathOf(addr)).None? ==>
                Translate(frames, root, PathOf(addr)) == Some(MakeEntry(supply.data, 7))
      ensures OnlyOpened(old(frames), frames)
    {
      hide Tree, Translate, OnlyOpened, MakeEntry;
      RootIsTop(frames, root, level);
      PathIsValid(addr);
      var p := PathOf(addr);
      hide PathOf;
      ghost var f0 := frames;
      var l2 := EnsureTable(root, p.i1, supply.table2);
      ghost var f1 := frames;
      var l3 := EnsureTable(l2, p.i2, supply.table3);
      ghost var f2 := frames;
      var l4 := EnsureTable(l3, p.i3, supply.table4);
      ghost var f3 := frames;
      assert LeafTable(frames, root, p) == Some(l4);
      TableShape(frames, root, level, l4, p.i4);
      EnsureLeaf(p, l4, supply.data);
      OpenedTwice(f0, f1, f2);
      OpenedTwice(f0, f2, f3);
      OpenedTwice(f0, f3, frames);
    }

    /** The search loops of the fault handler; `unset` is what the area's index holds before the first of them. */
    method FindArea(addr: int, unset: nat) returns (t: nat, j: nat, found: bool)
      requires WellShaped(threads[..])
      ensures found <==> Search(threads[..], addr, unset).Some?
      ensures found ==> Search(threads[..], addr, unset) == Some((t, j))
    {
      t, j := 0, unset;
      ghost var goal := FindOwner(threads[..], addr);
      while t < MAX_THREADS && threads[t].used
        invariant t <= MAX_THREADS && (t == 0 ==> j == unset) && (t > 0 ==> threads[0].used && j == MAX_PRIVATE_AREAS)
        invariant goal == Shifted(FindOwner(threads[..][t..], addr), t)
        decreases MAX_THREADS - t
      {
        var areas := threads[t].areas;
        j := 0;
        while j < MAX_PRIVATE_AREAS && !Covers(areas[j], addr)
          invariant j <= MAX_PRIVATE_AREAS
          invariant FirstArea(areas, addr) == j + FirstArea(areas[j..], addr)
        {
          assert areas[j..][1..] == areas[j + 1..];
          j := j + 1;
        }
        assert threads[..][t..][0] == threads[t] && threads[..][t..][1..] == threads[..][t + 1..];
        if j != MAX_PRIVATE_AREAS {
          return t, j, true;
        }
        t := t + 1;
      }
      if t < MAX_THREADS { assert threads[..][t..][0] == threads[t]; }
      found := t != MAX_THREADS && j != MAX_PRIVATE_AREAS;
    }

    static function Shifted(r: Option<(nat, nat)>, n: nat): Option<(nat, nat)> {
      match r case None => None case Some(x) => Some((x.0 + n, x.1))
    }

    /**
     handle_thread_private_fault; a killed context does not return from segfault_exit. While the first slot is
     unused the code reads an index that it has not set, which must then lead to one of the slot's four areas.
     */
    method HandleFault(current: Word32, process: Word32, addr: int, errorCode: nat, unset: nat, supply: Supply)
      returns (v: Verdict)
      requires WellShaped(threads[..]) && (threads[0].used || unset <= MAX_PRIVATE_AREAS)
      requires Tree(frames, root, level) && Usable(frames, supply)
      modifies this`frames, this`level
      ensures Tree(frames, root, level)
      ensures v == FaultVerdict(threads[..], current, process, addr, errorCode, unset)
      ensures v == Granted && Translate(old(frames), root, PathOf(addr)).None? ==>
                Translate(frames, root, PathOf(addr)) == Some(MakeEntry(supply.data, 7))
      ensures if v == Granted then Fixed(old(frames), frames, root, PathOf(addr))
              else frames == old(frames) && level == old(level)
    {
      hide Tree, Fixed, PathOf;
      SearchInTable(threads[..], addr, unset);
      var t, j, found := FindArea(addr, unset);
      if !found {
        return NotPrivate;
      }
      var a := threads[t].areas[j];
      if threads[t].pid == current || process == current {
      } else {
        if Access(a.flags) == TP_SIBLINGS_NOACCESS {
          return Killed;
        }
        if Access(a.flags) == TP_SIBLINGS_RDONLY && errorCode % 2 == 1 {
          return Killed;
        }
      }
      MapPage(addr, supply);
      return Granted;
    }

    // ----- context switches -----

    /** One page of do_page_walk. */
    method RecodePage(a: Area, k: int, cur: bool) returns (mapped: bool)
      requires Tree(frames, root, level)
      modifies this`frames
      ensures Tree(frames, root, level)
      ensures mapped == Translate(old(frames), root, PagePath(a, k)).Some?
      ensures LeafPresent(old(frames), root, PagePath(a, k), mapped)
      ensures frames == if mapped then Recode(old(frames), root, PagePath(a, k), if cur
          then SharingCode(a.flags) else 7) else old(frames)
    {
      var p := PathOf(a.start + k * PAGE_SIZE);
      PathIsValid(a.start + k * PAGE_SIZE);
      hide Tree, PathOf;
      var l1 := Entry(frames, root, p.i1);
      if !Present(l1) { return false; }
      var l2 := Entry(frames, Pfn(l1), p.i2);
      if !Present(l2) { return false; }
      var l3 := Entry(frames, Pfn(l2), p.i3);
      if !Present(l3) { return false; }
      var l4 := Entry(frames, Pfn(l3), p.i4);
      if !Present(l4) { return false; }
      var access := Access(a.flags);
      var bits := if access == TP_SIBLINGS_NOACCESS && cur then 1
                  else if access == TP_SIBLINGS_RDONLY && cur then 5
                  else 7;
      RecodeOne(frames, root, level, p, bits, p);
      frames := SetEntry(frames, Pfn(l3), p.i4, MakeEntry(Pfn(l4), bits));
      return true;
    }

    /** do_page_walk; it gives up at the first page of the area that is not mapped. */
    method PageWalk(a: Area, cur: bool)
      requires Tree(frames, root, level) && 0 <= a.start
      modifies this`frames
      ensures Tree(frames, root, level)
      ensures frames == WalkFrom(old(frames), root, level, a, 0, if cur then SharingCode(a.flags) else 7)
    {
      hide Tree, Recode, Translate, PagePath, SharingCode;
      SharingCodeIsOneOf(a.flags);
      ghost var code := if cur then SharingCode(a.flags) else 7;
      ghost var goal := WalkFrom(frames, root, level, a, 0, code);
      var n := a.length / PAGE_SIZE;
      var i := 0;
      while i < n
        invariant 0 <= i && Tree(frames, root, level)
        invariant WalkFrom(frames, root, level, a, i, code) == goal
      {
        var mapped := RecodePage(a, i, cur);
        if !mapped {
          return;
        }
        i := i + 1;
      }
    }

    /** The slot of the last thread record that carries `pid`. */
    method SlotOf(pid: Word32) returns (slot: Option<nat>)
      requires threads.Length == MAX_THREADS
      ensures slot == ThreadTable.LastWithPid(threads[..], pid)
    {
      slot := None;
      for i := 0 to MAX_THREADS
        invariant slot == ThreadTable.LastWithPid(threads[..i], pid)
      {
        assert threads[..i + 1] == threads[..i] + [threads[i]];
        if threads[i].pid == pid {
          slot := Some(i);
        }
      }
      assert threads[..MAX_THREADS] == threads[..];
    }

    method WalkSlot(t: nat, i: nat, cur: bool)
      requires Sound(frames, root, level, threads[..]) && t < threads.Length && i < MAX_PRIVATE_AREAS
      modifies this`frames
      ensures Sound(frames, root, level, threads[..])
      ensures var code := if cur then SharingCode(threads[t].areas[i].flags) else 7;
              code in {1, 5, 7} && frames == WalkArea(old(frames), root, level, threads[..], t, i, code)
    {
      ShapeOf(frames, root, level, threads[..]);
      SharingCodeIsOneOf(threads[t].areas[i].flags);
      hide SharingCode, Laid;
      WalkAreaEffect(frames, root, level, threads[..], t, i, if cur then SharingCode(threads[t].areas[i].flags) else 7);
      if threads[t].areas[i].owned {
        ActiveInRange(frames, root, level, threads[..], t, i);
        PageWalk(threads[t].areas[i], cur);
      }
    }

    method CloseOtherSlots(next: nat, i: nat)
      requires Sound(frames, root, level, threads[..]) && next < threads.Length && i < MAX_PRIVATE_AREAS
      modifies this`frames
      ensures Sound(frames, root, level, threads[..])
      ensures frames == CloseOthers(old(frames), root, level, threads[..], next, i, 0)
    {
      hide Sound, WalkArea, SharingCode;
      ShapeOf(frames, root, level, threads[..]);
      ghost var goal := CloseOthers(frames, root, level, threads[..], next, i, 0);
      for j := 0 to MAX_THREADS
        invariant Sound(frames, root, level, threads[..])
        invariant CloseOthers(frames, root, level, threads[..], next, i, j) == goal
      {
        if threads[j].pid != threads[next].pid && threads[j].used {
          WalkSlot(j, i, true);
        }
      }
    }

    /**
     handle_private_ctxswitch. At least one of the two contexts is a thread: if the process gives way it is
     to a thread. A thread that has just ended is switched from like any other.
     */
    method ContextSwitch(current: Word32, next: Word32)
      requires Sound(frames, root, level, threads[..])
      requires ThreadTable.LastWithPid(threads[..], current).None? ==> ThreadTable.LastWithPid(threads[..], next).Some?
      modifies this`frames
      ensures var cth, nth := ThreadTable.LastWithPid(threads[..], current), ThreadTable.LastWithPid(threads[..], next);
              frames ==
              if nth.None? then old(frames)
              else if cth.Some? then SwitchThreads(old(frames), root, level, threads[..], cth.value, nth.value, 0)
              else SwitchFromProcess(old(frames), root, level, threads[..], nth.value, 0)
    {
      hide Sound, WalkArea, CloseOthers, SharingCode;
      ShapeOf(frames, root, level, threads[..]);
      var cth := SlotOf(current);
      var nth := SlotOf(next);
      ghost var before := frames;
      for i := 0 to MAX_PRIVATE_AREAS
        invariant Sound(frames, root, level, threads[..])
        invariant nth.None? ==> frames == before
        invariant cth.Some? && nth.Some? ==>
            SwitchThreads(frames, root, level, threads[..], cth.value, nth.value, i)
            == SwitchThreads(before, root, level, threads[..], cth.value, nth.value, 0)
        invariant cth.None? && nth.Some? ==>
            SwitchFromProcess(frames, root, level, threads[..], nth.value, i)
            == SwitchFromProcess(before, root, level, threads[..], nth.value, 0)
      {
        if cth.Some? && nth.Some? {
          WalkSlot(cth.value, i, true);
          WalkSlot(nth.value, i, false);
        } else if cth.None? {
          CloseOtherSlots(nth.value, i);
          WalkSlot(nth.value, i, false);
        }
      }
    }
  }

  /** Every entry that has changed now permits everything; the rest is as before. */
  ghost predicate OnlyOpened(mem: Frames, after: Frames) {
    forall f, i ::
      Entry(after, f, i) == Entry(mem, f, i) || (Present(Entry(after, f, i)) && Flags(Entry(after, f, i)) == 7)
  }

  lemma {:induction false} OpenedTwice(mem: Frames, mid: Frames, after: Frames)
    requires OnlyOpened(mem, mid) && OnlyOpened(mid, after)
    ensures OnlyOpened(mem, after)
  {
    hide Entry, Flags, Present;
  }

  lemma {:induction false} FreshEntries(mem: Frames, pfn: int)
    requires pfn !in mem
    ensures forall i :: Entry(mem, pfn, i) == 0
  {
  }

  ghost predicate LeafPresent(mem: Frames, root: int, p: Path, mapped: bool) {
    mapped ==> LeafTable(mem, root, p).Some? && LeafTable(mem, root, p).value in mem
               && 0 <= p.i4 < |mem[LeafTable(mem, root, p).value]|
  }

  lemma {:induction false} ActiveInRange(
      mem: Frames, root: int, level: map<int, int>, threads: seq<Thread>, t: nat, i: nat)
    requires Sound(mem, root, level, threads) && Active(threads, t, i)
    ensures InRange(threads[t].areas[i]) && Tree(mem, root, level)
  {
  }

  lemma {:induction false} TableShape(mem: Frames, root: int, level: map<int, int>, f: int, i: int)
    requires Tree(mem, root, level) && f in level && 0 <= i < ENTRIES
    ensures f in mem && |mem[f]| == ENTRIES && Entry(mem, f, i) == mem[f][i]
    ensures level[f] < 4 && Child(mem, f, i).Some? ==>
        Child(mem, f, i).value in level && level[Child(mem, f, i).value] == level[f] + 1
  {
    assert level[f] < 4 ==> IsUpperTable(level, f);
  }

  lemma {:induction false} RootIsTop(mem: Frames, root: int, level: map<int, int>)
    requires Tree(mem, root, level)
    ensures root in level && level[root] == 1
  {
  }

  lemma {:induction false} LeafFound(mem: Frames, root: int, p: Path, l4: int)
    requires LeafTable(mem, root, p) == Some(l4)
    ensures Translate(mem, root, p) == if Present(Entry(mem, l4, p.i4)) then Some(Entry(mem, l4, p.i4)) else None
  {
  }
}
