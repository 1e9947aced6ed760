/**
 What all processes together keep true of files and pipes: exact reference counts, pipe records that
 mirror the descriptor tables, and pipe pages that go exactly once, with the last open end.
 */
module FileLifetimes {
  import opened Kernel
  import opened PipeEnds
  import opened FileTables
  import PidSlots

  // ----- the pipe invariant -----

  /** The entry is end `mode` of pipe `q`. */
  predicate IsEnd(k: Files, e: Entry, q: nat, mode: nat) {
    e.Some? && e.value in k.objects && k.objects[e.value].kind == PipeEnd(q) && k.objects[e.value].mode == mode
  }

  /** Process `p` has a descriptor for end `mode` of pipe `q`. */
  ghost predicate Holds(k: Files, p: int, q: nat, mode: nat)
    requires Shaped(k) && 0 <= p < MAX_PROCESSES
  {
    exists fd :: 0 <= fd < MAX_OPEN_FILES && IsEnd(k, k.tables[p][fd], q, mode)
  }

  /** Sixteen records, at most one per process; a record is assigned exactly while it has an open end. */
  ghost predicate RecordsOk(owners: seq<Owner>) {
    && |owners| == MAX_PIPE_PROC
    && (forall i, j :: 0 <= i < j < |owners| && owners[i].pid == owners[j].pid ==> owners[i].pid == NO_PID)
    && (forall i :: 0 <= i < |owners| ==> (owners[i].pid == NO_PID <==> !owners[i].read && !owners[i].write))
    && (forall i :: 0 <= i < |owners| ==> owners[i].pid == NO_PID || owners[i].pid < MAX_PROCESSES)
    && !AllFree(owners)
  }

  predicate IsMode(mode: nat) { mode == O_READ || mode == O_WRITE }

  ghost predicate IsEndObject(k: Files, f: nat) { f in k.objects && k.objects[f].kind.PipeEnd? }

  /** The two ends of a pipe are one object each, of a pipe that exists. */
  ghost predicate EndsOk(k: Files) {
    && (forall f: nat :: IsEndObject(k, f) ==> k.objects[f].kind.pipe in k.pipes && IsMode(k.objects[f].mode))
    && (forall f: nat, g: nat :: IsEndObject(k, f) && IsEndObject(k, g) ==>
          k.objects[f].kind == k.objects[g].kind && k.objects[f].mode == k.objects[g].mode ==> f == g)
  }

  /** No process has two descriptors for one pipe end. */
  ghost predicate EndsNotDuplicated(k: Files)
    requires Shaped(k)
  {
    forall p, i, j ::
      0 <= p < MAX_PROCESSES && 0 <= i < j < MAX_OPEN_FILES && k.tables[p][i] == k.tables[p][j] && k.tables[p][i].Some?
      ==> !IsEndObject(k, k.tables[p][i].value)
  }

  /** A record has an end open exactly when its process's table holds that end. */
  ghost predicate RecordsMirror(k: Files)
    requires Shaped(k)
  {
    forall q, p, mode :: q in k.pipes && 0 <= p < MAX_PROCESSES && IsMode(mode) ==>
      (HoldsEnd(k.pipes[q], p, mode) <==> Holds(k, p, q, mode))
  }

  ghost predicate PipesOk(k: Files) {
    && Shaped(k)
    && EndsOk(k) && EndsNotDuplicated(k) && RecordsMirror(k)
    && (forall q :: q in k.pipes ==> RecordsOk(k.pipes[q]) && q < k.nextId)
    && (forall i, j :: 0 <= i < j < |k.freed| ==> k.freed[i] != k.freed[j])
    && forall i :: 0 <= i < |k.freed| ==> k.freed[i] !in k.pipes && k.freed[i] < k.nextId
  }

  ghost predicate Inv(k: Files) { Counted(k) && PipesOk(k) }

  // ----- records -----

  lemma {:induction false} OnlyRecord(owners: seq<Owner>, i: nat, pid: Word32, mode: nat)
    requires RecordsOk(owners) && i < |owners| && owners[i].pid == pid && pid != NO_PID && IsMode(mode)
    ensures FirstWith(owners, pid) == i
    ensures HoldsEnd(owners, pid, mode) <==> (if mode == O_READ then owners[i].read else owners[i].write)
  {
    FirstWithIs(owners, pid, i);
  }

  /** Changing one record in place changes what its process holds, if it keeps its pid or gives it up. */
  lemma {:induction false} RecordChanged(owners: seq<Owner>, i: nat, o: Owner, p: Word32, m: nat)
    requires RecordsOk(owners) && i < |owners| && p != NO_PID
    requires o.pid == owners[i].pid || (o.pid == NO_PID && !o.read && !o.write)
             || (owners[i].pid == NO_PID && forall j :: 0 <= j < |owners| ==> owners[j].pid != o.pid)
    ensures HoldsEnd(owners[i := o], p, m) <==>
            if p == o.pid then (if m == O_READ then o.read else o.write)
            else HoldsEnd(owners, p, m) && p != owners[i].pid
  {
    var after := owners[i := o];
    if j :| 0 <= j < |owners| && owners[j].pid == p && (if m == O_READ then owners[j].read else owners[j].write) {
      if j != i { assert after[j] == owners[j]; }
    }
    assert after[i] == o;
  }

  /** Closing an open end clears that end and nothing else. */
  lemma {:induction false} CloseRecord(owners: seq<Owner>, pid: Word32, mode: nat)
    requires RecordsOk(owners) && IsMode(mode) && pid != NO_PID && HoldsEnd(owners, pid, mode)
    ensures AfterClose(owners, pid, mode).Some?
    ensures var after := AfterClose(owners, pid, mode).value;
            && (AllFree(after) || RecordsOk(after)) && |after| == MAX_PIPE_PROC
            && forall p: Word32, m :: p != NO_PID && IsMode(m) ==>
                 (HoldsEnd(after, p, m) <==> HoldsEnd(owners, p, m) && !(p == pid && m == mode))
  {
    var i :| 0 <= i < |owners| && owners[i].pid == pid;
    OnlyRecord(owners, i, pid, mode);
    var after := AfterClose(owners, pid, mode).value;
    forall p: Word32, m | p != NO_PID && IsMode(m)
      ensures HoldsEnd(after, p, m) <==> HoldsEnd(owners, p, m) && !(p == pid && m == mode)
    {
      OnlyRecord(owners, i, pid, m);
      hide HoldsEnd;
      RecordChanged(owners, i, Closed(owners[i], mode), p, m);
    }
  }

  /** All records are free exactly when no end is open. */
  lemma {:induction false} AllFreeIffNoEnd(owners: seq<Owner>)
    requires AllFree(owners) || RecordsOk(owners)
    ensures AllFree(owners) <==> forall p: Word32, m :: p < MAX_PROCESSES && IsMode(m) ==> !HoldsEnd(owners, p, m)
  {
    if !AllFree(owners) {
      var i :| 0 <= i < |owners| && owners[i].pid != NO_PID;
      assert HoldsEnd(owners, owners[i].pid, O_READ) || HoldsEnd(owners, owners[i].pid, O_WRITE);
    }
  }

  lemma {:induction false} OneDescriptorPerEnd(k: Files, p: int, i: int, j: int, q: nat, mode: nat)
    requires Shaped(k) && EndsOk(k) && EndsNotDuplicated(k)
    requires 0 <= p < MAX_PROCESSES && 0 <= i < MAX_OPEN_FILES && 0 <= j < MAX_OPEN_FILES
    requires IsEnd(k, k.tables[p][i], q, mode) && IsEnd(k, k.tables[p][j], q, mode)
    ensures i == j
  {
    assert IsEndObject(k, k.tables[p][i].value) && IsEndObject(k, k.tables[p][j].value);
  }

  // ----- close -----

  /** `after` has one descriptor of `p` less, and its object has been released. */
  ghost predicate Dropped(k: Files, after: Files, p: nat, fd: nat, f: nat) {
    && Counted(k) && Counted(after) && p < MAX_PROCESSES && fd < MAX_OPEN_FILES
    && k.tables[p][fd] == Some(f) && f in k.objects
    && after.tables == k.tables[p := k.tables[p][fd := None]]
    && after.objects == Release(k, f).objects
  }

  /** Removing one descriptor of an end changes who holds what in exactly that place. */
  lemma {:induction false} HoldsAfterDrop(k: Files, after: Files, p: nat, fd: nat, f: nat, p': int, q: nat, mode: nat)
    requires Dropped(k, after, p, fd, f) && EndsOk(k) && EndsNotDuplicated(k) && 0 <= p' < MAX_PROCESSES
    ensures Holds(after, p', q, mode) <==> Holds(k, p', q, mode) && !(p' == p && IsEnd(k, Some(f), q, mode))
  {
    if i :| 0 <= i < MAX_OPEN_FILES && IsEnd(k, k.tables[p'][i], q, mode) {
      if !(p' == p && IsEnd(k, Some(f), q, mode)) {
        assert after.tables[p'][i] == k.tables[p'][i];
        EntriesPointToObjects(after, p', i);
        assert IsEnd(after, after.tables[p'][i], q, mode);
      }
    }
    if i :| 0 <= i < MAX_OPEN_FILES && IsEnd(after, after.tables[p'][i], q, mode) {
      assert after.tables[p'][i] == k.tables[p'][i];
      if p' == p && IsEnd(k, Some(f), q, mode) {
        OneDescriptorPerEnd(k, p, i, fd, q, mode);
      }
    }
  }

  lemma {:induction false} EndsAfterDrop(k: Files, after: Files, p: nat, fd: nat, f: nat)
    requires Dropped(k, after, p, fd, f) && EndsOk(k) && EndsNotDuplicated(k)
    requires forall g: nat :: IsEndObject(after, g) ==> after.objects[g].kind.pipe in after.pipes
    ensures EndsOk(after) && EndsNotDuplicated(after)
  {
    forall g: nat | IsEndObject(after, g) ensures IsEndObject(k, g) && after.objects[g].kind == k.objects[g].kind
        && after.objects[g].mode == k.objects[g].mode {
    }
    forall r, i, j | 0 <= r < MAX_PROCESSES && 0 <= i < j < MAX_OPEN_FILES
        && after.tables[r][i] == after.tables[r][j] && after.tables[r][i].Some?
      ensures !IsEndObject(after, after.tables[r][i].value)
    {
      assert k.tables[r][i] == after.tables[r][i] && k.tables[r][j] == after.tables[r][j];
    }
  }

  /** Dropping a standard or regular file leaves all pipes alone. */
  lemma {:induction false} DropFileKeepsPipes(k: Files, after: Files, p: nat, fd: nat, f: nat)
    requires Inv(k) && Dropped(k, after, p, fd, f) && !k.objects[f].kind.PipeEnd?
    requires after.pipes == k.pipes && after.freed == k.freed && after.nextId == k.nextId
    ensures PipesOk(after)
  {
    hide Counted, RecordsOk, Holds;
    EndsAfterDrop(k, after, p, fd, f);
    forall q, r, mode | q in after.pipes && 0 <= r < MAX_PROCESSES && IsMode(mode)
      ensures HoldsEnd(after.pipes[q], r, mode) <==> Holds(after, r, q, mode)
    {
      HoldsAfterDrop(k, after, p, fd, f, r, q, mode);
    }
  }

  /** The effect of pipe_close on the records of `q` and on the pipe's life. */
  ghost predicate PipeClosed(k: Files, after: Files, p: nat, q: nat, mode: nat) {
    && p < MAX_PROCESSES && q in k.pipes && AfterClose(k.pipes[q], p, mode).Some?
    && var owners := AfterClose(k.pipes[q], p, mode).value;
    && after.nextId == k.nextId
    && after.pipes == (if AllFree(owners) then k.pipes - {q} else k.pipes[q := owners])
    && after.freed == (if AllFree(owners) then k.freed + [q] else k.freed)
  }

  /** After a pipe end is dropped, the records of every pipe mirror the tables again. */
  lemma {:induction false} MirrorAfterDrop(
      k: Files, after: Files, p: nat, fd: nat, f: nat, q: nat, mode: nat, q': nat, r: int, m: nat)
    requires Inv(k) && Dropped(k, after, p, fd, f) && IsEnd(k, Some(f), q, mode) && IsMode(m)
    requires q' in k.pipes && 0 <= r < MAX_PROCESSES
    ensures HoldsEnd(k.pipes[q], p, mode) && AfterClose(k.pipes[q], p, mode).Some?
    ensures var owners := if q' == q then AfterClose(k.pipes[q], p, mode).value else k.pipes[q'];
            HoldsEnd(owners, r, m) <==> Holds(after, r, q', m)
  {
    hide Counted, RecordsOk, HoldsEnd, Holds, AfterClose;
    HeldIsRecorded(k, p, fd, q, mode);
    CloseRecord(k.pipes[q], p, mode);
    HoldsAfterDrop(k, after, p, fd, f, r, q', m);
    assert HoldsEnd(k.pipes[q'], r, m) <==> Holds(k, r, q', m);
  }

  lemma {:induction false} HeldIsRecorded(k: Files, p: nat, fd: nat, q: nat, mode: nat)
    requires PipesOk(k) && p < MAX_PROCESSES && fd < MAX_OPEN_FILES && IsEnd(k, k.tables[p][fd], q, mode)
    ensures q in k.pipes && IsMode(mode) && Holds(k, p, q, mode) && HoldsEnd(k.pipes[q], p, mode)
  {
    assert IsEndObject(k, k.tables[p][fd].value);
  }

  lemma {:induction false} DropEndKeepsPipes(k: Files, after: Files, p: nat, fd: nat, f: nat, q: nat, mode: nat)
    requires Inv(k) && Dropped(k, after, p, fd, f) && IsEnd(k, Some(f), q, mode)
    requires PipeClosed(k, after, p, q, mode)
    ensures PipesOk(after)
    ensures q in after.pipes <==> exists r, m :: 0 <= r < MAX_PROCESSES && IsMode(m) && Holds(after, r, q, m)
  {
    hide Counted, HoldsEnd, Holds, AfterClose, RecordsOk, AllFree;
    HeldIsRecorded(k, p, fd, q, mode);
    CloseRecord(k.pipes[q], p, mode);
    var owners := AfterClose(k.pipes[q], p, mode).value;
    AllFreeIffNoEnd(owners);
    forall q', r, m | q' in k.pipes && 0 <= r < MAX_PROCESSES && IsMode(m)
      ensures HoldsEnd(if q' == q then owners else k.pipes[q'], r, m) <==> Holds(after, r, q', m)
    {
      MirrorAfterDrop(k, after, p, fd, f, q, mode, q', r, m);
    }
    forall g: nat | IsEndObject(after, g) ensures after.objects[g].kind.pipe in after.pipes {
      DroppedEndsAreHeld(k, after, p, fd, f, g);
    }
    EndsAfterDrop(k, after, p, fd, f);
  }

  lemma {:induction false} DroppedEndsAreHeld(k: Files, after: Files, p: nat, fd: nat, f: nat, g: nat)
    requires Inv(k) && Dropped(k, after, p, fd, f) && IsEndObject(after, g)
    ensures after.objects[g].kind.pipe in k.pipes && IsMode(after.objects[g].mode)
    ensures exists r :: 0 <= r < MAX_PROCESSES && Holds(after, r, after.objects[g].kind.pipe, after.objects[g].mode)
  {
    assert IsEndObject(k, g);
    RefsPositive(after.tables, g);
    assert RefCount(after, g) == RefsIn(after.tables, g);
    var r, i :| 0 <= r < |after.tables| && 0 <= i < |after.tables[r]| && after.tables[r][i] == Some(g);
    assert IsEnd(after, after.tables[r][i], after.objects[g].kind.pipe, after.objects[g].mode);
    assert Holds(after, r, after.objects[g].kind.pipe, after.objects[g].mode);
  }

  /**
   A close keeps the whole invariant. The pages of a pipe go exactly when no process has a descriptor for
   either of its ends any more, and they go once.
   */
  lemma {:induction false} CloseKeepsInv(k: Files, p: nat, fd: nat)
    requires Inv(k) && p < MAX_PROCESSES && fd < MAX_OPEN_FILES
    ensures Inv(Close(k, p, fd))
    ensures forall q :: q in k.pipes ==>
              (q in Close(k, p, fd).freed <==> q !in Close(k, p, fd).pipes)
  {
    hide Counted, RecordsOk, RecordsMirror, EndsOk, EndsNotDuplicated, HoldsEnd, AfterClose, AllFree, Holds;
    if k.tables[p][fd].Some? {
      var f := k.tables[p][fd].value;
      EntriesPointToObjects(k, p, fd);
      DropKeepsCounted(k, p, fd, f);
      var after := Close(k, p, fd);
      if k.objects[f].kind.PipeEnd? {
        var q, mode := k.objects[f].kind.pipe, k.objects[f].mode;
        assert IsEnd(k, k.tables[p][fd], q, mode);
        HeldIsRecorded(k, p, fd, q, mode);
        CloseRecord(k.pipes[q], p, mode);
        CountedDependsOn(Release(SetEntry(k, p, fd, None), f), after);
        DropEndKeepsPipes(k, after, p, fd, f, q, mode);
      } else {
        DropFileKeepsPipes(k, after, p, fd, f);
      }
    }
  }

  lemma {:induction false} CountedDependsOn(k: Files, l: Files)
    requires Counted(k) && l.objects == k.objects && l.tables == k.tables && l.nextId == k.nextId
    ensures Counted(l)
  {
    forall f: nat ensures RefCount(l, f) == RefsIn(l.tables, f) {
      assert RefCount(k, f) == RefsIn(k.tables, f);
    }
  }

  // ----- exit -----

  /** do_file_exit closes all descriptors and keeps the invariant. */
  lemma {:induction false} ExitKeepsInv(k: Files, p: nat, fd: nat)
    requires Inv(k) && p < MAX_PROCESSES && fd <= MAX_OPEN_FILES
    ensures Inv(ExitFrom(k, p, fd))
    ensures forall r, i :: 0 <= r < MAX_PROCESSES && 0 <= i < MAX_OPEN_FILES ==>
              ExitFrom(k, p, fd).tables[r][i] == if r == p && i >= fd then None else k.tables[r][i]
    decreases MAX_OPEN_FILES - fd
  {
    hide PipesOk, Counted, Close;
    CountedIsShaped(k);
    if fd < MAX_OPEN_FILES {
      CloseShaped(k, p, fd);
      CloseKeepsInv(k, p, fd);
      ExitKeepsInv(Close(k, p, fd), p, fd + 1);
    }
  }

  lemma {:induction false} CountedIsShaped(k: Files)
    requires Counted(k)
    ensures Shaped(k)
  {
  }

  // ----- fork -----

  /** Seven processes never fill sixteen records. */
  lemma {:induction false} RecordsNeverRunOut(owners: seq<Owner>)
    requires RecordsOk(owners)
    ensures FirstWith(owners, NO_PID) < |owners|
  {
    var pids := seq(|owners|, i requires 0 <= i < |owners| => owners[i].pid);
    PidSlots.FreeIffNotFull(pids);
    forall p | p in PidSlots.Owners(pids) ensures p in {0, 1, 2, 3, 4, 5, 6} {
      PidSlots.OwnersAreEntries(pids, p);
    }
    SubsetSize(PidSlots.Owners(pids), {0, 1, 2, 3, 4, 5, 6});
    var i :| 0 <= i < |pids| && pids[i] == NO_PID;
    assert owners[i].pid == NO_PID;
  }

  lemma {:induction false} SubsetSize(a: set<Word32>, b: set<Word32>)
    requires a <= b
    ensures |a| <= |b|
  {
    assert b == a + (b - a);
  }

  /** The fork handler gives the child the parent's ends; running it again changes nothing. */
  lemma {:induction false} ForkRecord(owners: seq<Owner>, child: Word32, parent: Word32)
    requires RecordsOk(owners) && child < MAX_PROCESSES && parent < MAX_PROCESSES && child != parent
    requires HoldsEnd(owners, parent, O_READ) || HoldsEnd(owners, parent, O_WRITE)
    requires !HoldsEnd(owners, child, O_READ) && !HoldsEnd(owners, child, O_WRITE)
    ensures AfterFork(owners, child, parent).Some?
    ensures var after := AfterFork(owners, child, parent).value;
            && RecordsOk(after) && AfterFork(after, child, parent) == Some(after)
            && forall p: Word32, m :: p != NO_PID && IsMode(m) ==>
                 (HoldsEnd(after, p, m) <==> HoldsEnd(owners, if p == child then parent else p, m))
  {
    RecordsNeverRunOut(owners);
    var from :| 0 <= from < |owners| && owners[from].pid == parent;
    var slot := FirstWith(owners, NO_PID);
    NoRecord(owners, child);
    FirstWithIs(owners, child, |owners|);
    OnlyRecord(owners, from, parent, O_READ);
    var o := owners[from].(pid := child);
    var after := owners[slot := o];
    assert AfterFork(owners, child, parent) == Some(after);
    ForkedAgain(owners, slot, from, child, parent);
    hide AfterFork;
    forall p: Word32, m | p != NO_PID && IsMode(m)
      ensures HoldsEnd(after, p, m) <==> HoldsEnd(owners, if p == child then parent else p, m)
    {
      OnlyRecord(owners, from, parent, m);
      hide HoldsEnd;
      RecordChanged(owners, slot, o, p, m);
    }
  }

  lemma {:induction false} NoRecord(owners: seq<Owner>, pid: Word32)
    requires RecordsOk(owners) && pid != NO_PID && !HoldsEnd(owners, pid, O_READ) && !HoldsEnd(owners, pid, O_WRITE)
    ensures forall j :: 0 <= j < |owners| ==> owners[j].pid != pid
  {
  }

  lemma {:induction false} ForkedAgain(owners: seq<Owner>, slot: nat, from: nat, child: Word32, parent: Word32)
    requires RecordsOk(owners) && slot < |owners| && from < |owners| && child != parent && child < MAX_PROCESSES
        && parent < MAX_PROCESSES
    requires owners[slot].pid == NO_PID && owners[from].pid == parent && forall j :: 0 <= j < |owners| ==>
        owners[j].pid != child
    ensures var after := owners[slot := owners[from].(pid := child)];
            RecordsOk(after) && AfterFork(after, child, parent) == Some(after)
  {
    var after := owners[slot := owners[from].(pid := child)];
    assert after[from] == owners[from] && after[slot].pid == child;
    forall j | 0 <= j < |owners| && j != slot && j != from ensures after[j].pid != child && after[j].pid != parent {
      assert after[j] == owners[j];
    }
    FirstWithIs(after, child, slot);
    FirstWithIs(after, parent, from);
    assert after[slot := after[from].(pid := child)] == after;
  }

  /** One of the first `n` entries is an end of `q`. */
  ghost predicate Touched(k: Files, t: Table, n: nat, q: nat)
    requires n <= |t|
  {
    exists i, m :: 0 <= i < n && IsMode(m) && IsEnd(k, t[i], q, m)
  }

  /** What accounting for the first `n` descriptors of a child amounts to. */
  ghost predicate ForkProgress(k: Files, s: Files, child: nat, parent: nat, n: nat)
    requires Shaped(k) && child < MAX_PROCESSES && parent < MAX_PROCESSES && n <= MAX_OPEN_FILES
  {
    var t := k.tables[parent];
    && s.tables == k.tables[child := t] && s.nextId == k.nextId && s.freed == k.freed
    && s.objects.Keys == k.objects.Keys && s.pipes.Keys == k.pipes.Keys
    && (forall f :: f in k.objects ==>
          s.objects[f] == k.objects[f].(refs := k.objects[f].refs + multiset(t[..n])[Some(f)]))
    && forall q :: q in k.pipes ==>
         Some(s.pipes[q]) == if Touched(k, t, n, q) then AfterFork(k.pipes[q], child, parent) else Some(k.pipes[q])
  }

  ghost predicate CanFork(k: Files, child: nat, parent: nat) {
    && Inv(k) && child < MAX_PROCESSES && parent < MAX_PROCESSES && child != parent
    && forall i :: 0 <= i < MAX_OPEN_FILES ==> k.tables[child][i] == None
  }

  /** The records of a pipe that the parent holds can take the child. */
  lemma {:induction false} TouchedCanFork(k: Files, child: nat, parent: nat, q: nat)
    requires CanFork(k, child, parent) && Touched(k, k.tables[parent], MAX_OPEN_FILES, q)
    ensures q in k.pipes && AfterFork(k.pipes[q], child, parent).Some?
    ensures var after := AfterFork(k.pipes[q], child, parent).value;
            && RecordsOk(after) && AfterFork(after, child, parent) == Some(after)
            && forall p: Word32, m :: p != NO_PID && IsMode(m) ==>
                 (HoldsEnd(after, p, m) <==> HoldsEnd(k.pipes[q], if p == child then parent else p, m))
  {
    hide HoldsEnd, AfterFork, RecordsOk;
    var i, m :| 0 <= i < MAX_OPEN_FILES && IsMode(m) && IsEnd(k, k.tables[parent][i], q, m);
    HeldIsRecorded(k, parent, i, q, m);
    assert !Holds(k, child, q, O_READ) && !Holds(k, child, q, O_WRITE);
    ForkRecord(k.pipes[q], child, parent);
  }

  lemma {:induction false} ForkUpToEffect(k: Files, child: nat, parent: nat, n: nat)
    requires CanFork(k, child, parent) && n <= MAX_OPEN_FILES
    ensures ForkProgress(k, ForkUpTo(k, child, parent, n), child, parent, n)
  {
    hide Inv, AfterFork, ForkOne, IsEnd, ForkProgress;
    CanForkShaped(k, child, parent);
    if n > 0 {
      ForkUpToEffect(k, child, parent, n - 1);
      EntryOfParent(k, child, parent, n - 1);
      ForkOneProgress(k, ForkUpTo(k, child, parent, n - 1), child, parent, n);
    } else {
      ForkBegins(k, child, parent);
    }
  }

  lemma {:induction false} ForkOneProgress(k: Files, s: Files, child: nat, parent: nat, n: nat)
    requires CanFork(k, child, parent) && 0 < n <= MAX_OPEN_FILES
    requires k.tables[parent][n - 1].Some? ==> k.tables[parent][n - 1].value in k.objects
    requires ForkProgress(k, s, child, parent, n - 1)
    ensures ForkProgress(k, ForkOne(s, child, parent, k.tables[parent][n - 1]), child, parent, n)
  {
    hide Inv, AfterFork, IsEnd, IsEndObject, ForkOne, Touched;
    CanForkShaped(k, child, parent);
    var t := k.tables[parent];
    var e := t[n - 1];
    var next := ForkOne(s, child, parent, e);
    ForkOneShape(s, child, parent, e);
    forall f | f in k.objects
      ensures next.objects[f] == k.objects[f].(refs := k.objects[f].refs + multiset(t[..n])[Some(f)])
    {
      OneMoreEntry(t, n, f);
    }
    forall q | q in k.pipes
      ensures Some(next.pipes[q]) == if Touched(k, t, n, q)
          then AfterFork(k.pipes[q], child, parent) else Some(k.pipes[q])
    {
      ForkOnePipe(k, s, child, parent, n, q);
    }
  }

  lemma {:induction false} OneMoreEntry(t: Table, n: nat, f: nat)
    requires 0 < n <= |t|
    ensures multiset(t[..n])[Some(f)] == multiset(t[..n - 1])[Some(f)] + (if t[n - 1] == Some(f) then 1 else 0)
  {
    assert t[..n] == t[..n - 1] + [t[n - 1]];
  }

  lemma {:induction false} EntryOfParent(k: Files, child: nat, parent: nat, i: nat)
    requires CanFork(k, child, parent) && i < MAX_OPEN_FILES
    ensures k.tables[parent][i].Some? ==> k.tables[parent][i].value in k.objects
  {
    if k.tables[parent][i].Some? { EntriesPointToObjects(k, parent, i); }
  }

  lemma {:induction false} ForkBegins(k: Files, child: nat, parent: nat)
    requires CanFork(k, child, parent)
    ensures ForkProgress(k, ForkUpTo(k, child, parent, 0), child, parent, 0)
  {
    CanForkShaped(k, child, parent);
    hide Inv, AfterFork;
    assert k.tables[parent][..0] == [];
  }

  lemma {:induction false} ForkOneShape(s: Files, child: nat, parent: nat, e: Entry)
    requires child < MAX_PROCESSES && parent < MAX_PROCESSES
    ensures var next := ForkOne(s, child, parent, e);
            && next.tables == s.tables && next.nextId == s.nextId && next.freed == s.freed
            && next.pipes.Keys == s.pipes.Keys && next.objects.Keys == s.objects.Keys
            && forall f :: f in s.objects ==>
                 next.objects[f] == s.objects[f].(refs := s.objects[f].refs + (if e == Some(f) then 1 else 0))
  {
    hide AfterFork;
  }

  lemma {:induction false} CanForkShaped(k: Files, child: nat, parent: nat)
    requires CanFork(k, child, parent)
    ensures Shaped(k) && EndsOk(k)
  {
  }

  lemma {:induction false} EndsHavePipes(k: Files, f: nat)
    requires EndsOk(k) && f in k.objects && k.objects[f].kind.PipeEnd?
    ensures k.objects[f].kind.pipe in k.pipes && IsMode(k.objects[f].mode)
  {
    assert IsEndObject(k, f);
  }

  /** The records of one pipe after one more descriptor. */
  lemma {:induction false} ForkOnePipe(k: Files, s: Files, child: nat, parent: nat, n: nat, q: nat)
    requires CanFork(k, child, parent) && 0 < n <= MAX_OPEN_FILES && q in k.pipes
    requires k.tables[parent][n - 1].Some? ==> k.tables[parent][n - 1].value in k.objects
    requires ForkProgress(k, s, child, parent, n - 1)
    ensures var t := k.tables[parent];
            var next := ForkOne(s, child, parent, t[n - 1]);
            q in next.pipes &&
            Some(next.pipes[q]) == if Touched(k, t, n, q)
                then AfterFork(k.pipes[q], child, parent) else Some(k.pipes[q])
  {
    hide Inv, AfterFork, IsEndObject;
    CanForkShaped(k, child, parent);
    var t := k.tables[parent];
    TouchedStep(k, t, n, q);
    if t[n - 1].Some? && k.objects[t[n - 1].value].kind == PipeEnd(q) {
      EndsHavePipes(k, t[n - 1].value);
      assert IsEnd(k, t[n - 1], q, k.objects[t[n - 1].value].mode);
      assert Touched(k, t, MAX_OPEN_FILES, q);
      hide IsEnd, Touched;
      TouchedCanFork(k, child, parent, q);
    }
  }

  lemma {:induction false} TouchedStep(k: Files, t: Table, n: nat, q: nat)
    requires 0 < n <= |t|
    ensures Touched(k, t, n, q) <==> Touched(k, t, n - 1, q) || exists m :: IsMode(m) && IsEnd(k, t[n - 1], q, m)
  {
  }

  lemma {:induction false} EmptyTableHasNone(t: Table, f: nat)
    requires forall i :: 0 <= i < |t| ==> t[i] == None
    ensures multiset(t)[Some(f)] == 0
  {
    assert Some(f) !in t;
  }

  /** Fork gives the child exact counts and records of its own for every pipe that it inherits. */
  lemma {:induction false} ForkKeepsCounted(k: Files, child: nat, parent: nat)
    requires CanFork(k, child, parent)
    ensures Counted(Fork(k, child, parent))
  {
    ForkUpToEffect(k, child, parent, MAX_OPEN_FILES);
    var after, t := Fork(k, child, parent), k.tables[parent];
    assert t[..MAX_OPEN_FILES] == t;
    hide Fork;
    forall f: nat ensures RefCount(after, f) == RefsIn(after.tables, f) {
      RefsAfterSet(k.tables, child, t, f);
      EmptyTableHasNone(k.tables[child], f);
      assert RefCount(k, f) == RefsIn(k.tables, f);
      if f !in k.objects {
        RefsPositive(k.tables, f);
        assert forall i :: 0 <= i < |t| ==> k.tables[parent][i] != Some(f);
        assert Some(f) !in t;
      }
    }
  }

  lemma {:induction false} IsEndAfterFork(k: Files, after: Files, e: Entry, q: nat, m: nat)
    requires after.objects.Keys == k.objects.Keys
    requires forall f :: f in k.objects ==>
        after.objects[f].kind == k.objects[f].kind && after.objects[f].mode == k.objects[f].mode
    ensures IsEnd(after, e, q, m) <==> IsEnd(k, e, q, m)
    ensures e.Some? ==> (IsEndObject(after, e.value) <==> IsEndObject(k, e.value))
  {
  }

  /** After a fork the child holds exactly what its parent holds. */
  lemma {:induction false} HoldsAfterFork(k: Files, child: nat, parent: nat, p: int, q: nat, m: nat)
    requires CanFork(k, child, parent) && 0 <= p < MAX_PROCESSES
    ensures Shaped(Fork(k, child, parent))
    ensures Holds(Fork(k, child, parent), p, q, m) <==> Holds(k, if p == child then parent else p, q, m)
  {
    ForkUpToEffect(k, child, parent, MAX_OPEN_FILES);
    hide Fork, Inv;
    CanForkShaped(k, child, parent);
    var after := Fork(k, child, parent);
    var p' := if p == child then parent else p;
    assert after.tables[p] == k.tables[p'];
    forall i | 0 <= i < MAX_OPEN_FILES ensures IsEnd(after, after.tables[p][i], q, m) <==>
        IsEnd(k, k.tables[p'][i], q, m) {
      IsEndAfterFork(k, after, k.tables[p'][i], q, m);
    }
  }

  lemma {:induction false} MirrorAfterFork(k: Files, child: nat, parent: nat, q: nat)
    requires CanFork(k, child, parent) && q in k.pipes
    ensures q in Fork(k, child, parent).pipes && Shaped(Fork(k, child, parent))
    ensures RecordsOk(Fork(k, child, parent).pipes[q])
    ensures forall p, m :: 0 <= p < MAX_PROCESSES && IsMode(m) ==>
              (HoldsEnd(Fork(k, child, parent).pipes[q], p, m) <==> Holds(Fork(k, child, parent), p, q, m))
  {
    ForkUpToEffect(k, child, parent, MAX_OPEN_FILES);
    hide Fork, AfterFork, RecordsOk, HoldsEnd;
    var after := Fork(k, child, parent);
    if Touched(k, k.tables[parent], MAX_OPEN_FILES, q) {
      TouchedCanFork(k, child, parent, q);
    }
    forall p, m | 0 <= p < MAX_PROCESSES && IsMode(m) ensures HoldsEnd(after.pipes[q], p, m) <==>
        Holds(after, p, q, m) {
      HoldsAfterFork(k, child, parent, p, q, m);
      var p' := if p == child then parent else p;
      assert HoldsEnd(k.pipes[q], p', m) <==> Holds(k, p', q, m);
      if !Touched(k, k.tables[parent], MAX_OPEN_FILES, q) {
        assert HoldsEnd(k.pipes[q], p, m) <==> Holds(k, p, q, m);
        assert !Holds(k, parent, q, m) && !Holds(k, child, q, m);
      }
    }
  }

  lemma {:induction false} ForkKeepsInv(k: Files, child: nat, parent: nat)
    requires CanFork(k, child, parent)
    ensures Inv(Fork(k, child, parent))
  {
    ForkKeepsCounted(k, child, parent);
    ForkUpToEffect(k, child, parent, MAX_OPEN_FILES);
    hide Fork, Counted, RecordsOk, HoldsEnd, Holds, AfterFork;
    var after := Fork(k, child, parent);
    CountedIsShaped(after);
    forall q | q in after.pipes
      ensures RecordsOk(after.pipes[q])
      ensures forall p, m :: 0 <= p < MAX_PROCESSES && IsMode(m) ==>
          (HoldsEnd(after.pipes[q], p, m) <==> Holds(after, p, q, m))
    {
      MirrorAfterFork(k, child, parent, q);
    }
    EndsAfterFork(k, after, child, parent);
  }

  lemma {:induction false} EndsAfterFork(k: Files, after: Files, child: nat, parent: nat)
    requires CanFork(k, child, parent) && ForkProgress(k, after, child, parent, MAX_OPEN_FILES)
    ensures Shaped(after) && EndsOk(after) && EndsNotDuplicated(after)
  {
    hide Counted, AfterFork, Touched, RecordsOk, RecordsMirror;
    forall p, i, j | 0 <= p < MAX_PROCESSES && 0 <= i < j < MAX_OPEN_FILES
        && after.tables[p][i] == after.tables[p][j] && after.tables[p][i].Some?
      ensures !IsEndObject(after, after.tables[p][i].value)
    {
      var p' := if p == child then parent else p;
      assert k.tables[p'][i] == k.tables[p'][j];
    }
    forall f: nat ensures IsEndObject(after, f) <==> IsEndObject(k, f) { }
  }

  // ----- open, dup, create -----

  /** The same pipe-end objects exist, whatever else was added or counted. */
  ghost predicate SameEnds(k: Files, after: Files) {
    forall g: nat :: (IsEndObject(k, g) <==> IsEndObject(after, g))
      && (IsEndObject(k, g) ==>
            k.objects[g].kind == after.objects[g].kind && k.objects[g].mode == after.objects[g].mode)
  }

  /** A new descriptor for something that is no pipe end leaves all pipes alone. */
  lemma {:induction false} EntryKeepsPipes(k: Files, after: Files, p: nat, fd: nat, f: nat)
    requires PipesOk(k) && SameEnds(k, after) && p < MAX_PROCESSES && fd < MAX_OPEN_FILES && k.tables[p][fd] == None
    requires after.tables == k.tables[p := k.tables[p][fd := Some(f)]] && !IsEndObject(after, f)
    requires after.pipes == k.pipes && after.freed == k.freed && after.nextId >= k.nextId
    ensures PipesOk(after)
  {
    hide RecordsOk, HoldsEnd;
    forall r, q, m | 0 <= r < MAX_PROCESSES && IsMode(m) ensures Holds(after, r, q, m) <==> Holds(k, r, q, m) {
      if i :| 0 <= i < MAX_OPEN_FILES && IsEnd(k, k.tables[r][i], q, m) {
        assert IsEndObject(k, k.tables[r][i].value);
        assert IsEnd(after, after.tables[r][i], q, m);
      }
      if i :| 0 <= i < MAX_OPEN_FILES && IsEnd(after, after.tables[r][i], q, m) {
        assert IsEndObject(after, after.tables[r][i].value);
        assert IsEnd(k, k.tables[r][i], q, m);
      }
    }
    forall r, i, j | 0 <= r < MAX_PROCESSES && 0 <= i < j < MAX_OPEN_FILES
        && after.tables[r][i] == after.tables[r][j] && after.tables[r][i].Some?
      ensures !IsEndObject(after, after.tables[r][i].value)
    {
      if !(r == p && (i == fd || j == fd)) {
        assert k.tables[r][i] == k.tables[r][j];
      }
    }
  }

  lemma {:induction false} InstallKeepsInv(k: Files, p: nat, fd: nat, kind: Kind, mode: nat)
    requires Inv(k) && p < MAX_PROCESSES && fd < MAX_OPEN_FILES && k.tables[p][fd] == None && !kind.PipeEnd?
    ensures Inv(Install(k, p, fd, kind, mode))
  {
    InstallKeepsCounted(k, p, fd, kind, mode);
    assert k.nextId !in k.objects;
    EntryKeepsPipes(k, Install(k, p, fd, kind, mode), p, fd, k.nextId);
  }

  lemma {:induction false} ShareKeepsInv(k: Files, p: nat, fd: nat, f: nat)
    requires Inv(k) && p < MAX_PROCESSES && fd < MAX_OPEN_FILES && k.tables[p][fd] == None
    requires f in k.objects && !k.objects[f].kind.PipeEnd?
    ensures Inv(SetEntry(AddRef(k, f), p, fd, Some(f)))
  {
    ShareKeepsCounted(k, p, fd, f);
    EntryKeepsPipes(k, SetEntry(AddRef(k, f), p, fd, Some(f)), p, fd, f);
  }

  lemma {:induction false} OpenRegularKeepsInv(
      k: Files, p: nat, found: bool, create: bool, permitted: bool, mode: nat)
    requires Inv(k) && p < MAX_PROCESSES
    ensures Inv(OpenRegular(k, p, found, create, permitted, mode).0)
  {
    hide Counted, PipesOk;
    InvIsShaped(k);
    var fd := FirstFree(k.tables[p], 3);
    if fd < MAX_OPEN_FILES {
      InstallKeepsInv(k, p, fd, Regular, mode);
    }
  }

  lemma {:induction false} InvIsShaped(k: Files)
    requires Inv(k)
    ensures Shaped(k)
  {
  }

  /** Two descriptors of one process for a pipe end are what the pipe records cannot express. */
  lemma {:induction false} DuplicateBreaksInv(k: Files, p: nat, i: nat, j: nat, f: nat)
    requires p < MAX_PROCESSES && i < MAX_OPEN_FILES && j < MAX_OPEN_FILES && i != j && Shaped(k)
    requires k.tables[p][i] == k.tables[p][j] == Some(f) && IsEndObject(k, f)
    ensures !Inv(k)
  {
    assert if i < j then k.tables[p][i] == k.tables[p][j] else k.tables[p][j] == k.tables[p][i];
  }

  /**
   Opening a standard file always keeps the counts. It keeps the pipe records exactly if the entry that it
   shares is no pipe end; create_pipe puts a pipe end there when the standard descriptor is free.
   */
  lemma {:induction false} OpenStandardKeepsInvIff(k: Files, p: nat, std: nat)
    requires Inv(k) && p < MAX_PROCESSES && std < 3 && OpenStandard(k, p, std).Some?
    ensures Counted(OpenStandard(k, p, std).value.0)
    ensures Inv(OpenStandard(k, p, std).value.0) <==>
            !(k.tables[p][std].Some? && IsEndObject(k, k.tables[p][std].value))
  {
    hide Counted, PipesOk;
    InvIsShaped(k);
    if k.tables[p][std] == None {
      InstallKeepsInv(k, p, std, Standard, if std == 0 then O_READ else O_WRITE);
    } else {
      var f, fd := k.tables[p][std].value, FirstFree(k.tables[p], 3);
      ShareKeepsCounted(k, p, fd, f);
      if IsEndObject(k, f) {
        DuplicateBreaksInv(SetEntry(AddRef(k, f), p, fd, Some(f)), p, std, fd, f);
      } else {
        ShareKeepsInv(k, p, fd, f);
      }
    }
  }

  /** dup always keeps the counts, and keeps the pipe records exactly if it does not duplicate a pipe end. */
  lemma {:induction false} DupKeepsInvIff(k: Files, p: nat, fd: nat)
    requires Inv(k) && p < MAX_PROCESSES && fd < MAX_OPEN_FILES
    ensures Counted(Dup(k, p, fd).0)
    ensures Inv(Dup(k, p, fd).0) <==>
            Dup(k, p, fd).1.Err? || !(k.tables[p][fd].Some? && IsEndObject(k, k.tables[p][fd].value))
  {
    hide PipesOk, Counted;
    InvIsShaped(k);
    var free := FirstFree(k.tables[p], 3);
    if k.tables[p][fd].Some? && free < MAX_OPEN_FILES && k.tables[p][fd].value in k.objects {
      var f := k.tables[p][fd].value;
      var after := Dup(k, p, fd).0;
      assert after == SetEntry(AddRef(k, f), p, free, Some(f));
      ShareKeepsCounted(k, p, free, f);
      if k.objects[f].kind.PipeEnd? {
        DuplicateBreaksInv(after, p, fd, free, f);
      } else {
        ShareKeepsInv(k, p, free, f);
      }
    }
  }

  /**
   dup2 closes what newfd refers to, also when that is the very object being duplicated, and the object
   survives; again the invariant is kept exactly if no pipe end gets duplicated.
   */
  lemma {:induction false} Dup2KeepsInvIff(k: Files, p: nat, fd: nat, newfd: nat)
    requires Inv(k) && p < MAX_PROCESSES && fd < MAX_OPEN_FILES && newfd < MAX_OPEN_FILES
    ensures var (after, r) := Dup2(k, p, fd, newfd);
            && Counted(after)
            && (r.Ok? ==>
                  after.tables[p][newfd] == k.tables[p][fd] && k.tables[p][fd].Some?
                  && k.tables[p][fd].value in after.objects)
            && (Inv(after) <==> fd == newfd || !(k.tables[p][fd].Some? && IsEndObject(k, k.tables[p][fd].value)))
  {
    hide PipesOk, Counted, CloseObject;
    InvIsShaped(k);
    if k.tables[p][fd].Some? {
      var f := k.tables[p][fd].value;
      EntriesPointToObjects(k, p, fd);
      if fd != newfd {
        CloseKeepsInv(k, p, newfd);
        CloseShaped(k, p, newfd);
        var closed := Close(k, p, newfd);
        EntriesPointToObjects(closed, p, fd);
        CloseKeepsKinds(k, p, newfd, f);
        ShareKeepsCounted(closed, p, newfd, f);
        var after := Dup2(k, p, fd, newfd).0;
        assert after == SetEntry(AddRef(closed, f), p, newfd, Some(f));
        if k.objects[f].kind.PipeEnd? {
          DuplicateBreaksInv(after, p, fd, newfd, f);
        } else {
          ShareKeepsInv(closed, p, newfd, f);
        }
      }
    }
  }

  lemma {:induction false} CloseKeepsKinds(k: Files, p: nat, fd: nat, f: nat)
    requires Shaped(k) && p < MAX_PROCESSES && fd < MAX_OPEN_FILES && f in Close(k, p, fd).objects
    ensures f in k.objects && Close(k, p, fd).objects[f].kind == k.objects[f].kind
        && Close(k, p, fd).objects[f].mode == k.objects[f].mode
  {
    hide AfterClose, AllFree;
  }

  ghost predicate TwoFree(t: Table) {
    exists i, j :: 0 <= i < j < |t| && t[i] == None && t[j] == None
  }

  lemma {:induction false} CreateSucceedsIff(k: Files, p: nat)
    requires Shaped(k) && p < MAX_PROCESSES
    ensures CreatePipe(k, p).1.Ok? <==> TwoFree(k.tables[p])
  {
    var t := k.tables[p];
    var fd0 := FirstFree(t, 0);
    if fd0 < MAX_OPEN_FILES {
      var half := t[fd0 := Some(k.nextId)];
      var fd1 := FirstFree(half, fd0);
      if fd1 < MAX_OPEN_FILES { assert fd0 != fd1 && t[fd1] == half[fd1] == None; }
      if i, j :| 0 <= i < j < |t| && t[i] == None && t[j] == None { assert half[j] == None; }
    }
  }

  /** A pipe that was created is held, both ends, by its creator, and by nobody else. */
  lemma {:induction false} HoldsAfterCreate(k: Files, p: nat, r: int, q: nat, m: nat)
    requires Inv(k) && p < MAX_PROCESSES && CreatePipe(k, p).1.Ok? && 0 <= r < MAX_PROCESSES && IsMode(m)
    ensures Shaped(CreatePipe(k, p).0)
    ensures Holds(CreatePipe(k, p).0, r, q, m) <==> if q == k.nextId + 2 then r == p else Holds(k, r, q, m)
  {
    var after := CreatePipe(k, p).0;
    var (fd0, fd1) := CreatePipe(k, p).1.value;
    CreatedShape(k, p);
    hide CreatePipe, RecordsOk, RecordsMirror;
    if i :| 0 <= i < MAX_OPEN_FILES && IsEnd(after, after.tables[r][i], q, m) {
      if !(r == p && (i == fd0 || i == fd1)) {
        EntriesPointToObjects(k, r, i);
        assert IsEnd(k, k.tables[r][i], q, m);
        assert IsEndObject(k, k.tables[r][i].value);
      }
    }
    if i :| 0 <= i < MAX_OPEN_FILES && IsEnd(k, k.tables[r][i], q, m) {
      assert IsEndObject(k, k.tables[r][i].value);
      assert IsEnd(after, after.tables[r][i], q, m);
    }
    assert IsEnd(after, after.tables[p][fd0], k.nextId + 2, O_READ)
        && IsEnd(after, after.tables[p][fd1], k.nextId + 2, O_WRITE);
  }

  /** What a successful create_pipe leaves behind. */
  lemma {:induction false} CreatedShape(k: Files, p: nat)
    requires Shaped(k) && p < MAX_PROCESSES && CreatePipe(k, p).1.Ok?
    ensures var after := CreatePipe(k, p).0;
            var (fd0, fd1) := CreatePipe(k, p).1.value;
            var r, w, q := k.nextId, k.nextId + 1, k.nextId + 2;
            && fd0 < fd1 < MAX_OPEN_FILES && k.tables[p][fd0] == None && k.tables[p][fd1] == None
            && after.tables == k.tables[p := k.tables[p][fd0 := Some(r)][fd1 := Some(w)]]
            && after.objects == k.objects[r := File(PipeEnd(q), O_READ, 1)][w := File(PipeEnd(q), O_WRITE, 1)]
            && after.pipes == k.pipes[q := [Owner(p, true, true)] + seq(15, _ => NOBODY)]
            && after.nextId == k.nextId + 3 && after.freed == k.freed
  {
    var half := SetEntry(k, p, FirstFree(k.tables[p], 0), Some(k.nextId));
    assert k.tables[p := half.tables[p]] == half.tables;
  }

  lemma {:induction false} NewRecordsOk(p: nat)
    requires p < MAX_PROCESSES
    ensures var owners := [Owner(p, true, true)] + seq(15, _ => NOBODY);
            RecordsOk(owners) && forall r: Word32, m :: r < MAX_PROCESSES && IsMode(m) ==>
                (HoldsEnd(owners, r, m) <==> r == p)
  {
    var owners := [Owner(p, true, true)] + seq(15, _ => NOBODY);
    assert owners[0] == Owner(p, true, true);
    assert forall i :: 0 < i < |owners| ==> owners[i] == NOBODY;
  }

  lemma {:induction false} CreateKeepsCounted(k: Files, p: nat)
    requires Counted(k) && p < MAX_PROCESSES && CreatePipe(k, p).1.Ok?
    ensures Counted(CreatePipe(k, p).0)
  {
    var after := CreatePipe(k, p).0;
    var (fd0, fd1) := CreatePipe(k, p).1.value;
    CreatedShape(k, p);
    var half := SetEntry(k, p, fd0, Some(k.nextId));
    assert after.tables == SetEntry(half, p, fd1, Some(k.nextId + 1)).tables;
    forall f: nat ensures RefCount(after, f) == RefsIn(after.tables, f) {
      RefsAfterEntry(k, p, fd0, Some(k.nextId), f);
      RefsAfterEntry(half, p, fd1, Some(k.nextId + 1), f);
      assert RefCount(k, f) == RefsIn(k.tables, f);
    }
  }

  lemma {:induction false} CreateKeepsPipes(k: Files, p: nat)
    requires Inv(k) && p < MAX_PROCESSES && CreatePipe(k, p).1.Ok?
    ensures PipesOk(CreatePipe(k, p).0)
  {
    var after := CreatePipe(k, p).0;
    var (fd0, fd1) := CreatePipe(k, p).1.value;
    CreatedShape(k, p);
    NewRecordsOk(p);
    hide CreatePipe, RecordsOk, HoldsEnd;
    forall q, r, m | q in after.pipes && 0 <= r < MAX_PROCESSES && IsMode(m)
      ensures HoldsEnd(after.pipes[q], r, m) <==> Holds(after, r, q, m)
    {
      HoldsAfterCreate(k, p, r, q, m);
    }
    CreatedEnds(k, after, p, fd0, fd1);
  }

  lemma {:induction false} CreatedEnds(k: Files, after: Files, p: nat, fd0: nat, fd1: nat)
    requires Inv(k) && p < MAX_PROCESSES && fd0 < fd1 < MAX_OPEN_FILES && k.tables[p][fd0] == None
        && k.tables[p][fd1] == None
    requires var r, w, q := k.nextId, k.nextId + 1, k.nextId + 2;
             && after.tables == k.tables[p := k.tables[p][fd0 := Some(r)][fd1 := Some(w)]]
             && after.objects == k.objects[r := File(PipeEnd(q), O_READ, 1)][w := File(PipeEnd(q), O_WRITE, 1)]
             && q in after.pipes && k.pipes.Keys <= after.pipes.Keys
    ensures Shaped(after) && EndsOk(after) && EndsNotDuplicated(after)
  {
    hide RecordsOk, RecordsMirror, HoldsEnd;
    forall f: nat | IsEndObject(after, f)
      ensures f == k.nextId || f == k.nextId + 1
          || (IsEndObject(k, f) && k.objects[f].kind.pipe < k.nextId && after.objects[f] == k.objects[f])
    {
    }
    forall r, i, j | 0 <= r < MAX_PROCESSES && 0 <= i < j < MAX_OPEN_FILES
        && after.tables[r][i] == after.tables[r][j] && after.tables[r][i].Some?
      ensures !IsEndObject(after, after.tables[r][i].value)
    {
      if after.tables[r][i] == k.tables[r][i] { EntriesPointToObjects(k, r, i); }
      if after.tables[r][j] == k.tables[r][j] { EntriesPointToObjects(k, r, j); }
    }
  }

  /**
   create_pipe keeps the invariant exactly when the caller has two free descriptors. Without them it fails
   after making its objects, and those keep a reference that no descriptor accounts for.
   */
  lemma {:induction false} CreateKeepsInvIff(k: Files, p: nat)
    requires Inv(k) && p < MAX_PROCESSES
    ensures Inv(CreatePipe(k, p).0) <==> TwoFree(k.tables[p])
  {
    CreateSucceedsIff(k, p);
    if CreatePipe(k, p).1.Ok? {
      CreateKeepsCounted(k, p);
      CreateKeepsPipes(k, p);
    } else {
      var after, w := CreatePipe(k, p).0, k.nextId + 1;
      RefsPositive(k.tables, w);
      assert RefCount(k, w) == RefsIn(k.tables, w);
      var fd0 := FirstFree(k.tables[p], 0);
      if fd0 < MAX_OPEN_FILES { RefsAfterEntry(k, p, fd0, Some(k.nextId), w); }
      assert RefCount(after, w) == 1 && RefsIn(after.tables, w) == 0;
    }
  }

  // ----- the life of a pipe -----

  /** A pipe's pages exist exactly while some process has a descriptor for one of its ends. */
  lemma {:induction false} PipeAliveIffHeld(k: Files, q: nat)
    requires Inv(k)
    ensures q in k.pipes <==> exists p, m :: 0 <= p < MAX_PROCESSES && IsMode(m) && Holds(k, p, q, m)
  {
    if q in k.pipes {
      hide HoldsEnd, AllFree;
      AllFreeIffNoEnd(k.pipes[q]);
      var p: Word32, m :| p < MAX_PROCESSES && IsMode(m) && HoldsEnd(k.pipes[q], p, m);
      assert Holds(k, p, q, m);
    }
    if p, m :| 0 <= p < MAX_PROCESSES && IsMode(m) && Holds(k, p, q, m) {
      var i :| 0 <= i < MAX_OPEN_FILES && IsEnd(k, k.tables[p][i], q, m);
      assert IsEndObject(k, k.tables[p][i].value);
    }
  }

  /** No pipe is lost: one that existed, or had been freed, still exists or has been freed. */
  ghost predicate Accounted(k: Files, l: Files) {
    forall q :: q in k.pipes || q in k.freed ==> q in l.pipes || q in l.freed
  }

  lemma {:induction false} ExitAccounts(k: Files, p: nat, fd: nat)
    requires Inv(k) && p < MAX_PROCESSES && fd <= MAX_OPEN_FILES
    ensures Accounted(k, ExitFrom(k, p, fd))
    decreases MAX_OPEN_FILES - fd
  {
    hide Inv, Close;
    InvIsShaped(k);
    if fd < MAX_OPEN_FILES {
      CloseShaped(k, p, fd);
      CloseKeepsInv(k, p, fd);
      CloseAccounts(k, p, fd);
      ExitAccounts(Close(k, p, fd), p, fd + 1);
    }
  }

  lemma {:induction false} CloseAccounts(k: Files, p: nat, fd: nat)
    requires Shaped(k) && p < MAX_PROCESSES && fd < MAX_OPEN_FILES
    ensures Accounted(k, Close(k, p, fd))
  {
    hide AfterClose, AllFree;
  }

  // ----- counting the open ends of a pipe -----

  /** How many of the first `n` records have end `mode` open. */
  function OpenRecords(owners: seq<Owner>, mode: nat, n: nat): nat
    requires n <= |owners|
  {
    if n == 0 then 0
    else OpenRecords(owners, mode, n - 1) + (if (if mode == O_READ then owners[n - 1].read else owners[n - 1].write)
        then 1 else 0)
  }

  lemma {:induction false} RefsSplit(tables: seq<Table>, t: Table, f: nat)
    ensures RefsIn(tables + [t], f) == RefsIn(tables, f) + multiset(t)[Some(f)]
    decreases |tables|
  {
    if tables == [] {
      assert ([] + [t])[1..] == [] && ([] + [t])[0] == t;
    } else {
      assert (tables + [t])[1..] == tables[1..] + [t] && (tables + [t])[0] == tables[0];
      RefsSplit(tables[1..], t, f);
    }
  }

  ghost function Holders(tables: seq<Table>, f: nat, n: nat): set<int>
    requires n <= |tables|
  {
    set p | 0 <= p < n && Some(f) in tables[p]
  }

  lemma {:induction false} OnceInTable(t: Table, f: nat)
    requires forall i, j :: 0 <= i < j < |t| && t[i] == t[j] ==> t[i] != Some(f)
    ensures multiset(t)[Some(f)] == if Some(f) in t then 1 else 0
    decreases |t|
  {
    if t != [] {
      var n := |t| - 1;
      assert t == t[..n] + [t[n]];
      OnceInTable(t[..n], f);
      if t[n] == Some(f) {
        assert forall i :: 0 <= i < n ==> t[i] != Some(f);
        assert Some(f) !in t[..n];
      }
    }
  }

  lemma {:induction false} NoTablesNoRefs(f: nat)
    ensures RefsIn([], f) == 0
  {
  }

  /** If no process has two entries for `f`, the references are as many as the processes that have one. */
  lemma {:induction false} RefsAreHolders(tables: seq<Table>, f: nat, n: nat)
    requires n <= |tables|
    requires forall p, i, j :: 0 <= p < |tables| && 0 <= i < j < |tables[p]| && tables[p][i] == tables[p][j] ==>
        tables[p][i] != Some(f)
    ensures RefsIn(tables[..n], f) == |Holders(tables, f, n)|
  {
    hide RefsIn;
    if n > 0 {
      RefsAreHolders(tables, f, n - 1);
      assert tables[..n] == tables[..n - 1] + [tables[n - 1]];
      RefsSplit(tables[..n - 1], tables[n - 1], f);
      OnceInTable(tables[n - 1], f);
      if Some(f) in tables[n - 1] {
        assert Holders(tables, f, n) == Holders(tables, f, n - 1) + {n - 1};
      } else {
        assert Holders(tables, f, n) == Holders(tables, f, n - 1);
      }
    } else {
      assert tables[..0] == [] && Holders(tables, f, 0) == {};
      NoTablesNoRefs(f);
    }
  }

  ghost function OpenPids(owners: seq<Owner>, mode: nat, n: nat): set<int>
    requires n <= |owners|
  {
    if n == 0 then {}
    else if (if mode == O_READ then owners[n - 1].read else owners[n - 1].write)
        then OpenPids(owners, mode, n - 1) + {owners[n - 1].pid as int}
    else OpenPids(owners, mode, n - 1)
  }

  lemma {:induction false} OpenPidsAre(owners: seq<Owner>, mode: nat, n: nat)
    requires RecordsOk(owners) && IsMode(mode) && n <= |owners|
    ensures |OpenPids(owners, mode, n)| == OpenRecords(owners, mode, n)
    ensures forall p :: p in OpenPids(owners, mode, n) <==>
              exists i :: 0 <= i < n && owners[i].pid == p
                  && (if mode == O_READ then owners[i].read else owners[i].write)
  {
    if n > 0 {
      OpenPidsAre(owners, mode, n - 1);
    }
  }

  /** The reference count of a pipe end is the number of records that have that end open. */
  lemma {:induction false} EndCountIsOpenRecords(k: Files, f: nat)
    requires Inv(k) && IsEndObject(k, f)
    ensures k.objects[f].kind.pipe in k.pipes && |k.pipes[k.objects[f].kind.pipe]| == MAX_PIPE_PROC
    ensures k.objects[f].refs == OpenRecords(k.pipes[k.objects[f].kind.pipe], k.objects[f].mode, MAX_PIPE_PROC)
  {
    var q, mode := k.objects[f].kind.pipe, k.objects[f].mode;
    var owners := k.pipes[q];
    assert RefCount(k, f) == RefsIn(k.tables, f);
    assert k.tables[..MAX_PROCESSES] == k.tables;
    RefsAreHolders(k.tables, f, MAX_PROCESSES);
    OpenPidsAre(owners, mode, MAX_PIPE_PROC);
    forall p ensures p in OpenPids(owners, mode, MAX_PIPE_PROC) <==> p in Holders(k.tables, f, MAX_PROCESSES) {
      HolderIffOpen(k, f, p);
    }
    assert OpenPids(owners, mode, MAX_PIPE_PROC) == Holders(k.tables, f, MAX_PROCESSES);
  }

  lemma {:induction false} HolderIffOpen(k: Files, f: nat, p: int)
    requires Inv(k) && IsEndObject(k, f)
    ensures var q, mode := k.objects[f].kind.pipe, k.objects[f].mode;
            && q in k.pipes
            && ((0 <= p < MAX_PROCESSES && Some(f) in k.tables[p]) <==>
                exists i :: 0 <= i < |k.pipes[q]| && k.pipes[q][i].pid == p
                    && (if mode == O_READ then k.pipes[q][i].read else k.pipes[q][i].write))
  {
    var q, mode := k.objects[f].kind.pipe, k.objects[f].mode;
    if 0 <= p < MAX_PROCESSES {
      assert HoldsEnd(k.pipes[q], p, mode) <==> Holds(k, p, q, mode);
      if Holds(k, p, q, mode) {
        var i :| 0 <= i < MAX_OPEN_FILES && IsEnd(k, k.tables[p][i], q, mode);
        assert IsEndObject(k, k.tables[p][i].value);
      }
      if Some(f) in k.tables[p] {
        var i :| 0 <= i < MAX_OPEN_FILES && k.tables[p][i] == Some(f);
        assert IsEnd(k, k.tables[p][i], q, mode);
      }
    }
  }

  // ----- runs -----

  datatype Op =
    | OpenStd(p: nat, std: nat)
    | OpenFile(p: nat, found: bool, create: bool, permitted: bool, mode: nat)
    | DupFd(p: nat, fd: nat)
    | Dup2Fd(p: nat, fd: nat, newfd: nat)
    | CloseFd(p: nat, fd: nat)
    | ForkProcess(child: nat, parent: nat)
    | ExitProcess(p: nat)
    | MakePipe(p: nat)

  /** Descriptors and processes are in range, a child starts out empty, and nothing duplicates a pipe end. */
  ghost predicate Allowed(k: Files, op: Op)
    requires Shaped(k)
  {
    match op
    case OpenStd(p, std) => p < MAX_PROCESSES && std < 3 && OpenStandard(k, p, std).Some?
        && !(k.tables[p][std].Some? && IsEndObject(k, k.tables[p][std].value))
    case OpenFile(p, _, _, _, _) => p < MAX_PROCESSES
    case DupFd(p, fd) => p < MAX_PROCESSES && fd < MAX_OPEN_FILES
        && !(k.tables[p][fd].Some? && IsEndObject(k, k.tables[p][fd].value))
    case Dup2Fd(p, fd, newfd) =>
      p < MAX_PROCESSES && fd < MAX_OPEN_FILES && newfd < MAX_OPEN_FILES
          && !(k.tables[p][fd].Some? && IsEndObject(k, k.tables[p][fd].value))
    case CloseFd(p, fd) => p < MAX_PROCESSES && fd < MAX_OPEN_FILES
    case ForkProcess(child, parent) =>
      child < MAX_PROCESSES && parent < MAX_PROCESSES && child != parent && forall i :: 0 <= i < MAX_OPEN_FILES ==>
          k.tables[child][i] == None
    case ExitProcess(p) => p < MAX_PROCESSES
    case MakePipe(p) => p < MAX_PROCESSES && TwoFree(k.tables[p])
  }

  ghost function After(k: Files, op: Op): Files
    requires Shaped(k) && Allowed(k, op)
  {
    match op
    case OpenStd(p, std) => OpenStandard(k, p, std).value.0
    case OpenFile(p, found, create, permitted, mode) => OpenRegular(k, p, found, create, permitted, mode).0
    case DupFd(p, fd) => Dup(k, p, fd).0
    case Dup2Fd(p, fd, newfd) => Dup2(k, p, fd, newfd).0
    case CloseFd(p, fd) => Close(k, p, fd)
    case ForkProcess(child, parent) => Fork(k, child, parent)
    case ExitProcess(p) => ExitFrom(k, p, 0)
    case MakePipe(p) => CreatePipe(k, p).0
  }

  lemma {:induction false} StepKeepsInv(k: Files, op: Op)
    requires Inv(k) && Shaped(k) && Allowed(k, op)
    ensures Inv(After(k, op)) && Shaped(After(k, op)) && Accounted(k, After(k, op))
  {
    hide Inv, CloseObject, AfterFork;
    match op {
      case OpenStd(p, std) => OpenStandardKeepsInvIff(k, p, std);
      case OpenFile(p, found, create, permitted, mode) => OpenRegularKeepsInv(k, p, found, create, permitted, mode);
      case DupFd(p, fd) => DupKeepsInvIff(k, p, fd);
      case Dup2Fd(p, fd, newfd) => Dup2KeepsInvIff(k, p, fd, newfd); CloseAccounts(k, p, newfd);
      case CloseFd(p, fd) => CloseKeepsInv(k, p, fd); CloseAccounts(k, p, fd);
      case ForkProcess(child, parent) => ForkKeepsInv(k, child, parent); ForkUpToEffect(k, child, parent,
          MAX_OPEN_FILES);
      case ExitProcess(p) => ExitKeepsInv(k, p, 0); ExitAccounts(k, p, 0);
      case MakePipe(p) => CreateKeepsInvIff(k, p);
    }
    InvIsShaped(After(k, op));
  }

  ghost predicate RunsTo(k: Files, ops: seq<Op>, l: Files)
    requires Inv(k) && Shaped(k)
    decreases |ops|
  {
    if ops == [] then l == k
    else Allowed(k, ops[0]) && (StepKeepsInv(k, ops[0]); RunsTo(After(k, ops[0]), ops[1..], l))
  }

  /**
   Over every run of open, dup, dup2, close, fork, exit and create in any processes: reference counts equal
   the descriptors that point to the object, nothing dangles, pipe records mirror the descriptor tables,
   and every pipe either still exists or has been freed once (see PipeAliveIffHeld for which).
   */
  lemma {:induction false} RunKeepsInv(k: Files, ops: seq<Op>, l: Files)
    requires Inv(k) && Shaped(k) && RunsTo(k, ops, l)
    ensures Inv(l) && Accounted(k, l)
    decreases |ops|
  {
    hide Inv, Allowed, After;
    if ops != [] {
      StepKeepsInv(k, ops[0]);
      RunKeepsInv(After(k, ops[0]), ops[1..], l);
    }
  }

  function NothingOpen(): (k: Files)
    ensures Shaped(k)
  {
    Files(map[], map[], seq(MAX_PROCESSES, _ => seq(MAX_OPEN_FILES, _ => None)), 0, [])
  }

  /** The state before the first open satisfies the invariant. */
  lemma {:induction false} NothingOpenIsInv()
    ensures Inv(NothingOpen())
  {
    var k := NothingOpen();
    forall f: nat ensures RefCount(k, f) == RefsIn(k.tables, f) {
      RefsPositive(k.tables, f);
    }
  }
}
