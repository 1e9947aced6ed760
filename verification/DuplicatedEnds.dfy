/**
 What becomes of a pipe end for which one process has two descriptors. The pipe's records cannot express
 that, and whether the reference count survives the two closes depends on the other end.
 */
module DuplicatedEnds {
  import opened Kernel
  import opened FileLifetimes
  import opened FileTables
  import opened PipeEnds

  /** Descriptor `free` now shares what `fd` refers to. */
  function Shared(k: Files, p: nat, fd: nat, free: nat): Files
    requires Shaped(k) && p < MAX_PROCESSES && fd < MAX_OPEN_FILES && free < MAX_OPEN_FILES
    requires k.tables[p][fd].Some? && k.tables[p][fd].value in k.objects
  {
    SetEntry(AddRef(k, k.tables[p][fd].value), p, free, k.tables[p][fd])
  }

  /** Both descriptors are closed. */
  function ClosedTwice(k: Files, p: nat, fd: nat, free: nat): (last: Files)
    requires Shaped(k) && p < MAX_PROCESSES && fd < MAX_OPEN_FILES && free < MAX_OPEN_FILES
    ensures Shaped(last)
  {
    CloseShaped(k, p, fd);
    CloseShaped(Close(k, p, fd), p, free);
    Close(Close(k, p, fd), p, free)
  }

  /** No later close hurts: the objects have as many references as descriptors point to them. */
  ghost predicate Exact(k: Files, f: nat) { RefCount(k, f) == RefsIn(k.tables, f) }

  // ----- the pipe's record -----

  /** With its other end open a process stays on record, and closing the same end again changes nothing. */
  lemma {:induction false} ClosingAgainIsIdle(owners: seq<Owner>, p: Word32, mode: nat, other: nat)
    requires RecordsOk(owners) && p != NO_PID && IsMode(mode) && IsMode(other) && mode != other
    requires HoldsEnd(owners, p, mode) && HoldsEnd(owners, p, other)
    ensures AfterClose(owners, p, mode).Some?
    ensures var once := AfterClose(owners, p, mode).value;
            !AllFree(once) && AfterClose(once, p, mode) == Some(once)
  {
    var i :| 0 <= i < |owners| && owners[i].pid == p;
    OnlyRecord(owners, i, p, mode);
    OnlyRecord(owners, i, p, other);
    var once := AfterClose(owners, p, mode).value;
    assert once[i] == Closed(owners[i], mode) && once[i].pid == p;
    FirstWithIs(once, p, i);
    assert once[i := once[i]] == once;
  }

  /** Without the other end the first close takes the process off the record, and the second finds none. */
  lemma {:induction false} ClosingAgainIsRefused(owners: seq<Owner>, p: Word32, mode: nat, other: nat)
    requires RecordsOk(owners) && p != NO_PID && IsMode(mode) && IsMode(other) && mode != other
    requires HoldsEnd(owners, p, mode) && !HoldsEnd(owners, p, other)
    ensures AfterClose(owners, p, mode).Some? && AfterClose(AfterClose(owners, p, mode).value, p, mode) == None
  {
    CloseRecord(owners, p, mode);
    var after := AfterClose(owners, p, mode).value;
    assert !HoldsEnd(after, p, O_READ) && !HoldsEnd(after, p, O_WRITE);
    if AllFree(after) {
      assert forall j :: 0 <= j < |after| ==> after[j].pid != p;
    } else {
      NoRecord(after, p);
    }
    FirstWithIs(after, p, |after|);
  }

  // ----- the two closes -----

  /** A close of a pipe end, by the outcome of the search for the process's record. */
  lemma {:induction false} CloseEndIs(k: Files, p: nat, fd: nat, f: nat, q: nat)
    requires Shaped(k) && p < MAX_PROCESSES && fd < MAX_OPEN_FILES && k.tables[p][fd] == Some(f)
    requires f in k.objects && k.objects[f].kind == PipeEnd(q)
    ensures q !in k.pipes || AfterClose(k.pipes[q], p, k.objects[f].mode) == None ==>
        Close(k, p, fd) == SetEntry(k, p, fd, None)
    ensures q in k.pipes && AfterClose(k.pipes[q], p, k.objects[f].mode).Some? ==>
              var owners, gone := AfterClose(k.pipes[q], p, k.objects[f].mode).value, SetEntry(k, p, fd, None);
              Close(k, p, fd) ==
                Release(if AllFree(owners) then gone.(pipes := k.pipes - {q}, freed := k.freed + [q])
                        else gone.(pipes := k.pipes[q := owners]), f)
  {
    hide AfterClose, AllFree;
  }

  lemma {:induction false} ReleaseOfTwo(k: Files, f: nat)
    requires f in k.objects && k.objects[f].refs > 1
    ensures var r := Release(k, f);
            r == k.(objects := k.objects[f := k.objects[f].(refs := k.objects[f].refs - 1)])
  {
  }

  lemma {:induction false} ReferencedTwice(k: Files, p: nat, fd: nat, free: nat, f: nat)
    requires Counted(k) && p < MAX_PROCESSES && fd < MAX_OPEN_FILES && free < MAX_OPEN_FILES
    requires k.tables[p][fd] == Some(f) && k.tables[p][free] == None
    ensures f in k.objects && k.objects[f].refs >= 1 && RefCount(k, f) == RefsIn(k.tables, f)
    ensures RefsIn(Shared(k, p, fd, free).tables, f) == RefsIn(k.tables, f) + 1
  {
    EntriesPointToObjects(k, p, fd);
    RefsPositive(k.tables, f);
    RefsAfterEntry(k, p, free, Some(f), f);
  }

  /** The first of the two closes takes back the reference that sharing has added. */
  lemma {:induction false} FirstOfTwoCloses(k: Files, p: nat, fd: nat, free: nat, f: nat, q: nat, owners: seq<Owner>)
    requires Shaped(k) && p < MAX_PROCESSES && fd < MAX_OPEN_FILES && free < MAX_OPEN_FILES && fd != free
    requires k.tables[p][fd] == Some(f) && k.tables[p][free] == None
    requires f in k.objects && k.objects[f].refs >= 1 && k.objects[f].kind == PipeEnd(q) && q in k.pipes
    requires AfterClose(k.pipes[q], p, k.objects[f].mode) == Some(owners) && !AllFree(owners)
    ensures Close(Shared(k, p, fd, free), p, fd) ==
            SetEntry(Shared(k, p, fd, free), p, fd, None).(objects := k.objects, pipes := k.pipes[q := owners])
  {
    hide AfterClose, AllFree, Close, Release;
    var twice := Shared(k, p, fd, free);
    CloseEndIs(twice, p, fd, f, q);
    ReleaseOfTwo(SetEntry(twice, p, fd, None).(pipes := k.pipes[q := owners]), f);
    assert twice.objects[f := k.objects[f]] == k.objects;
  }

  /** The other end is held: sharing and closing twice is the same as closing once. */
  lemma {:induction false} ClosedTwiceIsClosedOnce(k: Files, p: nat, fd: nat, free: nat, q: nat, mode: nat, other: nat)
    requires Inv(k) && p < MAX_PROCESSES && fd < MAX_OPEN_FILES && free < MAX_OPEN_FILES && fd != free
    requires IsEnd(k, k.tables[p][fd], q, mode) && k.tables[p][free] == None
    requires IsMode(other) && other != mode && Holds(k, p, q, other)
    ensures ClosedTwice(Shared(k, p, fd, free), p, fd, free) == Close(k, p, fd)
  {
    hide AfterClose, AllFree, HoldsEnd, Holds, Counted, EndsOk, EndsNotDuplicated, RecordsOk, RefsIn, Close, Release;
    var f := k.tables[p][fd].value;
    HeldIsRecorded(k, p, fd, q, mode);
    assert HoldsEnd(k.pipes[q], p, other);
    ClosingAgainIsIdle(k.pipes[q], p, mode, other);
    ReferencedTwice(k, p, fd, free, f);
    var owners := AfterClose(k.pipes[q], p, mode).value;
    FirstOfTwoCloses(k, p, fd, free, f, q, owners);
    var once := Close(Shared(k, p, fd, free), p, fd);
    CloseEndIs(once, p, free, f, q);
    CloseEndIs(k, p, fd, f, q);
    assert once.pipes[q := owners] == k.pipes[q := owners];
    TablesCloseTwice(k.tables, p, fd, free, f);
  }

  lemma {:induction false} TablesCloseTwice(tables: seq<Table>, p: nat, fd: nat, free: nat, f: nat)
    requires p < |tables| && fd < |tables[p]| && free < |tables[p]| && fd != free && tables[p][free] == None
    ensures var shared := tables[p := tables[p][free := Some(f)]];
            var once := shared[p := shared[p][fd := None]];
            once[p := once[p][free := None]] == tables[p := tables[p][fd := None]]
  {
    assert tables[p][free := Some(f)][fd := None][free := None] == tables[p][fd := None];
  }

  /** It is not: the first close takes the process off the record and the second releases nothing. */
  lemma {:induction false} ClosedTwiceLeaks(k: Files, p: nat, fd: nat, free: nat, q: nat, mode: nat, other: nat)
    requires Inv(k) && p < MAX_PROCESSES && fd < MAX_OPEN_FILES && free < MAX_OPEN_FILES && fd != free
    requires IsEnd(k, k.tables[p][fd], q, mode) && k.tables[p][free] == None
    requires IsMode(other) && other != mode && !Holds(k, p, q, other)
    ensures var f, last := k.tables[p][fd].value, ClosedTwice(Shared(k, p, fd, free), p, fd, free);
            RefCount(last, f) == RefsIn(last.tables, f) + 1
  {
    var f := k.tables[p][fd].value;
    HeldIsRecorded(k, p, fd, q, mode);
    assert !HoldsEnd(k.pipes[q], p, other);
    ClosingAgainIsRefused(k.pipes[q], p, mode, other);
    ReferencedTwice(k, p, fd, free, f);
    hide AfterClose, AllFree, HoldsEnd, Holds, Inv, RefsIn, Close, Release;
    var twice := Shared(k, p, fd, free);
    var owners := AfterClose(k.pipes[q], p, mode).value;
    CloseEndIs(twice, p, fd, f, q);
    ReleaseOfTwo(SetEntry(twice, p, fd, None).(pipes := k.pipes[q := owners]), f);
    ReleaseOfTwo(SetEntry(twice, p, fd, None).(pipes := k.pipes - {q}, freed := k.freed + [q]), f);
    var once := Close(twice, p, fd);
    CloseShaped(twice, p, fd);
    CloseEndIs(once, p, free, f, q);
    RefsAfterEntry(twice, p, fd, None, f);
    RefsAfterEntry(once, p, free, None, f);
  }

  // ----- dup and dup2 -----

  /**
   A process duplicates a pipe end and closes both descriptors. The object's references are exact again,
   and all is as after a single close, if and only if the process holds the other end of the pipe as well.
   */
  lemma {:induction false} DupThenCloseIsExactIff(k: Files, p: nat, fd: nat, q: nat, mode: nat, other: nat)
    requires Inv(k) && Shaped(k) && p < MAX_PROCESSES && fd < MAX_OPEN_FILES && IsEnd(k, k.tables[p][fd], q, mode)
    requires IsMode(other) && other != mode && Dup(k, p, fd).1.Ok?
    ensures var f, twice, free := k.tables[p][fd].value, Dup(k, p, fd).0, Dup(k, p, fd).1.value;
            && Shaped(twice) && free < MAX_OPEN_FILES
            && var last := ClosedTwice(twice, p, fd, free);
            && (Exact(last, f) <==> Holds(k, p, q, other))
            && (Inv(last) <==> Holds(k, p, q, other))
            && (Holds(k, p, q, other) ==> last == Close(k, p, fd))
  {
    var f, free := k.tables[p][fd].value, Dup(k, p, fd).1.value;
    assert Dup(k, p, fd).0 == Shared(k, p, fd, free);
    SharedThenClosed(k, p, fd, free, q, mode, other);
  }

  lemma {:induction false} SharedThenClosed(k: Files, p: nat, fd: nat, free: nat, q: nat, mode: nat, other: nat)
    requires Inv(k) && Shaped(k) && p < MAX_PROCESSES && fd < MAX_OPEN_FILES && free < MAX_OPEN_FILES && fd != free
    requires IsEnd(k, k.tables[p][fd], q, mode) && k.tables[p][free] == None && IsMode(other) && other != mode
    ensures var f, last := k.tables[p][fd].value, ClosedTwice(Shared(k, p, fd, free), p, fd, free);
            && (Exact(last, f) <==> Holds(k, p, q, other))
            && (Inv(last) <==> Holds(k, p, q, other))
            && (Holds(k, p, q, other) ==> last == Close(k, p, fd))
  {
    hide PipesOk, Close, RefsIn, Holds;
    var f := k.tables[p][fd].value;
    if Holds(k, p, q, other) {
      ClosedTwiceIsClosedOnce(k, p, fd, free, q, mode, other);
      CloseKeepsInv(k, p, fd);
    } else {
      ClosedTwiceLeaks(k, p, fd, free, q, mode, other);
    }
  }

  /** The process has a descriptor other than `newfd` for that end. */
  ghost predicate HoldsElsewhere(k: Files, p: nat, q: nat, mode: nat, newfd: nat)
    requires Shaped(k) && p < MAX_PROCESSES
  {
    exists i :: 0 <= i < MAX_OPEN_FILES && i != newfd && IsEnd(k, k.tables[p][i], q, mode)
  }

  lemma {:induction false} HoldsAfterClose(k: Files, p: nat, newfd: nat, q: nat, mode: nat)
    requires Inv(k) && Shaped(k) && p < MAX_PROCESSES && newfd < MAX_OPEN_FILES
    ensures Shaped(Close(k, p, newfd))
    ensures Holds(Close(k, p, newfd), p, q, mode) <==> HoldsElsewhere(k, p, q, mode, newfd)
  {
    hide PipesOk, Counted, CloseObject;
    CloseShaped(k, p, newfd);
    CloseKeepsInv(k, p, newfd);
    var closed := Close(k, p, newfd);
    if i :| 0 <= i < MAX_OPEN_FILES && IsEnd(closed, closed.tables[p][i], q, mode) {
      CloseKeepsKinds(k, p, newfd, closed.tables[p][i].value);
      assert IsEnd(k, k.tables[p][i], q, mode);
    }
    if i :| 0 <= i < MAX_OPEN_FILES && i != newfd && IsEnd(k, k.tables[p][i], q, mode) {
      EntriesPointToObjects(closed, p, i);
      CloseKeepsKinds(k, p, newfd, k.tables[p][i].value);
      assert IsEnd(closed, closed.tables[p][i], q, mode);
    }
  }

  /** The same for dup2, which first closes what `newfd` refers to, possibly the other end itself. */
  lemma {:induction false} Dup2ThenCloseIsExactIff(k: Files, p: nat, fd: nat, newfd: nat, q: nat, mode: nat, other: nat)
    requires Inv(k) && Shaped(k) && p < MAX_PROCESSES && fd < MAX_OPEN_FILES && newfd < MAX_OPEN_FILES && fd != newfd
    requires IsEnd(k, k.tables[p][fd], q, mode) && IsMode(other) && other != mode
    ensures var f, twice := k.tables[p][fd].value, Dup2(k, p, fd, newfd).0;
            && Shaped(twice)
            && var last := ClosedTwice(twice, p, fd, newfd);
            && (Exact(last, f) <==> HoldsElsewhere(k, p, q, other, newfd))
            && (Inv(last) <==> HoldsElsewhere(k, p, q, other, newfd))
  {
    hide PipesOk, Counted, CloseObject, Exact;
    var f, closed := k.tables[p][fd].value, Close(k, p, newfd);
    CloseShaped(k, p, newfd);
    CloseKeepsInv(k, p, newfd);
    EntriesPointToObjects(closed, p, fd);
    CloseKeepsKinds(k, p, newfd, f);
    HoldsAfterClose(k, p, newfd, q, other);
    assert Dup2(k, p, fd, newfd).0 == Shared(closed, p, fd, newfd);
    SharedThenClosed(closed, p, fd, newfd, q, mode, other);
  }

  // ----- a run that leaks -----

  /** A process creates the first pipe and closes its write end, which is descriptor 1. */
  function Reader(p: nat): (k: Files)
    requires p < MAX_PROCESSES
    ensures Shaped(k)
  {
    var made := CreatePipe(NothingOpen(), p).0;
    CloseShaped(made, p, 1);
    Close(made, p, 1)
  }

  lemma {:induction false} FirstPipe(p: nat)
    requires p < MAX_PROCESSES
    ensures var made := CreatePipe(NothingOpen(), p).0;
            && Inv(made) && Shaped(made) && 0 in made.objects && made.objects[0] == File(PipeEnd(2), O_READ, 1)
            && made.tables == NothingOpen().tables[p := NothingOpen().tables[p][0 := Some(0)][1 := Some(1)]]
  {
    var k := NothingOpen();
    NothingOpenIsInv();
    assert FirstFree(k.tables[p], 0) == 0 && FirstFree(k.tables[p][0 := Some(0)], 0) == 1;
    assert k.tables[p][0] == None && k.tables[p][1] == None;
    CreateKeepsInvIff(k, p);
    hide Inv, PipesOk, Counted;
    CreatedShape(k, p);
  }

  lemma {:induction false} ReaderIs(p: nat)
    requires p < MAX_PROCESSES
    ensures var k := Reader(p);
            && Inv(k) && k.tables == NothingOpen().tables[p := NothingOpen().tables[p][0 := Some(0)]]
            && IsEnd(k, k.tables[p][0], 2, O_READ) && !Holds(k, p, 2, O_WRITE)
            && Dup(k, p, 0).1 == Ok(3)
  {
    var made, k := CreatePipe(NothingOpen(), p).0, Reader(p);
    FirstPipe(p);
    CloseShaped(made, p, 1);
    CloseKeepsInv(made, p, 1);
    var none := NothingOpen().tables[p];
    assert none[0 := Some(0)][1 := Some(1)][1 := None] == none[0 := Some(0)];
    hide Inv, PipesOk, Counted, Close;
    EntriesOfReader(p);
    CloseKeepsKinds(made, p, 1, 0);
    assert FirstFree(k.tables[p], 3) == 3;
  }

  lemma {:induction false} EntriesOfReader(p: nat)
    requires p < MAX_PROCESSES && Inv(Reader(p)) && Reader(p).tables[p][0] == Some(0)
    ensures 0 in Reader(p).objects
  {
    EntriesPointToObjects(Reader(p), p, 0);
  }

  lemma {:induction false} NothingLeftOpen(k: Files, p: nat)
    requires p < MAX_PROCESSES && k.tables == NothingOpen().tables[p := NothingOpen().tables[p][0 := Some(0)]]
    requires 0 in k.objects
    ensures Shaped(k) && forall r, i :: 0 <= r < MAX_PROCESSES && 0 <= i < MAX_OPEN_FILES ==>
              ClosedTwice(Shared(k, p, 0, 3), p, 0, 3).tables[r][i] == None
  {
    var twice := Shared(k, p, 0, 3);
    CloseShaped(twice, p, 0);
    CloseShaped(Close(twice, p, 0), p, 3);
    hide Close;
  }

  lemma {:induction false} DupIsShared(k: Files, p: nat)
    requires Shaped(k) && p < MAX_PROCESSES && k.tables[p][0] == Some(0) && 0 in k.objects && Dup(k, p, 0).1 == Ok(3)
    ensures Dup(k, p, 0).0 == Shared(k, p, 0, 3) && k.tables[p][3] == None
  {
  }

  /** The read end's object outlives its last descriptor. */
  lemma {:induction false} ReaderLeaks(p: nat)
    requires p < MAX_PROCESSES
    ensures Dup(Reader(p), p, 0).1 == Ok(3) && Shaped(Dup(Reader(p), p, 0).0)
    ensures var last := ClosedTwice(Dup(Reader(p), p, 0).0, p, 0, 3);
            && (forall r, i :: 0 <= r < MAX_PROCESSES && 0 <= i < MAX_OPEN_FILES ==> last.tables[r][i] == None)
            && RefCount(last, 0) == 1
  {
    hide Inv, Close, Reader, NothingOpen, CreatePipe, Holds, RefsIn;
    var k := Reader(p);
    ReaderIs(p);
    EntriesOfReader(p);
    DupIsShared(k, p);
    hide Dup, FirstFree;
    NothingLeftOpen(k, p);
    ClosedTwiceLeaks(k, p, 0, 3, 2, O_READ, O_WRITE);
    RefsPositive(ClosedTwice(Shared(k, p, 0, 3), p, 0, 3).tables, 0);
  }

  lemma {:induction false} CreateIsAllowed(p: nat)
    requires p < MAX_PROCESSES
    ensures Inv(NothingOpen()) && Allowed(NothingOpen(), MakePipe(p))
    ensures After(NothingOpen(), MakePipe(p)) == CreatePipe(NothingOpen(), p).0
  {
    NothingOpenIsInv();
    var t := NothingOpen().tables[p];
    assert t[0] == None && t[1] == None;
  }

  lemma {:induction false} OneMoreStep(k: Files, op: Op, ops: seq<Op>, l: Files)
    requires Inv(k) && Shaped(k) && Allowed(k, op) && Inv(After(k, op)) && Shaped(After(k, op))
    requires RunsTo(After(k, op), ops, l)
    ensures RunsTo(k, [op] + ops, l)
  {
    hide Inv, After, Allowed;
    assert ([op] + ops)[1..] == ops;
  }

  lemma {:induction false} ReaderIsReached(p: nat)
    requires p < MAX_PROCESSES
    ensures Inv(NothingOpen()) && RunsTo(NothingOpen(), [MakePipe(p)] + [CloseFd(p, 1)], Reader(p))
  {
    hide Inv, CreatePipe, CloseObject, NothingOpen, Holds;
    CreateIsAllowed(p);
    FirstPipe(p);
    ReaderIs(p);
    var made := CreatePipe(NothingOpen(), p).0;
    assert Allowed(made, CloseFd(p, 1)) && After(made, CloseFd(p, 1)) == Reader(p);
    assert RunsTo(Reader(p), [], Reader(p));
    hide Reader, After, Allowed, Close;
    OneMoreStep(made, CloseFd(p, 1), [], Reader(p));
    assert [CloseFd(p, 1)] + [] == [CloseFd(p, 1)];
    OneMoreStep(NothingOpen(), MakePipe(p), [CloseFd(p, 1)], Reader(p));
  }

  /**
   The condition can fail, in a state that a run reaches: a process creates a pipe, closes the write end,
   duplicates the read end and closes both descriptors. Nothing is open any more, and the object is still there.
   */
  lemma {:induction false} LeakIsReachable(p: nat)
    requires p < MAX_PROCESSES
    ensures Inv(NothingOpen()) && RunsTo(NothingOpen(), [MakePipe(p)] + [CloseFd(p, 1)], Reader(p))
    ensures Dup(Reader(p), p, 0).1 == Ok(3) && Shaped(Dup(Reader(p), p, 0).0)
    ensures var last := ClosedTwice(Dup(Reader(p), p, 0).0, p, 0, 3);
            && (forall r, i :: 0 <= r < MAX_PROCESSES && 0 <= i < MAX_OPEN_FILES ==> last.tables[r][i] == None)
            && RefCount(last, 0) == 1
  {
    hide Inv, Reader, NothingOpen, RunsTo, Dup, ClosedTwice, RefCount;
    ReaderLeaks(p);
    ReaderIsReached(p);
  }
}
