/** What each system call on descriptors answers, and what it leaves in the tables and of the objects. */
module DescriptorCalls {
  import opened Kernel
  import opened PipeEnds
  import opened FileTables
  import opened FileLifetimes

  /** The lowest free descriptor from `from` on. */
  predicate IsLowestFree(t: Table, from: nat, fd: nat) {
    from <= fd < |t| && t[fd] == None && forall i :: from <= i < fd ==> t[i].Some?
  }

  predicate NoneFree(t: Table, from: nat) { forall i :: from <= i < |t| ==> t[i].Some? }

  /** One entry is set, all others are as before. */
  ghost predicate OnlyEntry(k: Files, after: Files, p: nat, fd: nat, e: Entry)
    requires Shaped(k)
  {
    && Shaped(after) && p < MAX_PROCESSES && fd < MAX_OPEN_FILES && after.tables[p][fd] == e
    && forall r, i :: 0 <= r < MAX_PROCESSES && 0 <= i < MAX_OPEN_FILES && (r != p || i != fd) ==>
         after.tables[r][i] == k.tables[r][i]
  }

  /** All objects are as before, apart from `f`, which is now `file`. */
  ghost predicate OnlyObject(k: Files, after: Files, f: nat, file: File) {
    && f in after.objects && after.objects[f] == file
    && after.objects.Keys == k.objects.Keys + {f}
    && forall g :: g in k.objects && g != f ==> after.objects[g] == k.objects[g]
  }

  ghost predicate SamePipes(k: Files, after: Files) { after.pipes == k.pipes && after.freed == k.freed }

  /** A new object, which no entry pointed to, with one reference. */
  ghost predicate Opened(k: Files, after: Files, p: nat, fd: nat, kind: Kind, mode: nat)
    requires Shaped(k)
  {
    exists f :: f !in k.objects && (forall r, i :: 0 <= r < MAX_PROCESSES && 0 <= i < MAX_OPEN_FILES ==>
                                      k.tables[r][i] != Some(f))
        && OnlyEntry(k, after, p, fd, Some(f)) && OnlyObject(k, after, f, File(kind, mode, 1)) && SamePipes(k, after)
  }

  /** The object of another descriptor gets one more reference and stands at `fd` too. */
  ghost predicate SharedAt(k: Files, after: Files, p: nat, fd: nat, f: nat)
    requires Shaped(k) && f in k.objects
  {
    && OnlyEntry(k, after, p, fd, Some(f)) && SamePipes(k, after)
    && OnlyObject(k, after, f, k.objects[f].(refs := k.objects[f].refs + 1))
  }

  lemma {:induction false} FirstFreeIs(t: Table, from: nat)
    requires from <= |t|
    ensures var fd := FirstFree(t, from);
            if NoneFree(t, from) then fd == |t| else IsLowestFree(t, from, fd)
    ensures forall fd: nat :: IsLowestFree(t, from, fd) ==> FirstFree(t, from) == fd
  {
    var fd := FirstFree(t, from);
    assert fd < |t| ==> !NoneFree(t, from);
  }

  lemma {:induction false} NewIdIsFresh(k: Files)
    requires Counted(k)
    ensures k.nextId !in k.objects
    ensures forall r, i :: 0 <= r < MAX_PROCESSES && 0 <= i < MAX_OPEN_FILES ==> k.tables[r][i] != Some(k.nextId)
  {
    forall r, i | 0 <= r < MAX_PROCESSES && 0 <= i < MAX_OPEN_FILES ensures k.tables[r][i] != Some(k.nextId) {
      if k.tables[r][i].Some? { EntriesPointToObjects(k, r, i); }
    }
  }

  lemma {:induction false} InstallOpens(k: Files, p: nat, fd: nat, kind: Kind, mode: nat)
    requires Counted(k) && p < MAX_PROCESSES && fd < MAX_OPEN_FILES
    ensures Opened(k, Install(k, p, fd, kind, mode), p, fd, kind, mode)
  {
    NewIdIsFresh(k);
    var after := Install(k, p, fd, kind, mode);
    assert OnlyEntry(k, after, p, fd, Some(k.nextId)) && OnlyObject(k, after, k.nextId, File(kind, mode, 1));
  }

  /**
   Opening a regular file: the refusals in their order, or a new object for the mode asked for at the lowest free
   descriptor above 2.
   */
  lemma {:induction false} OpenRegularAnswers(
      k: Files, p: nat, found: bool, create: bool, permitted: bool, mode: nat)
    requires Counted(k) && p < MAX_PROCESSES
    ensures var (after, r) := OpenRegular(k, p, found, create, permitted, mode);
            if !found then after == k && r == Err(if create then ENOMEM else EINVAL)
            else if !permitted then after == k && r == Err(EACCES)
            else if NoneFree(k.tables[p], 3) then after == k && r == Err(ENOMEM)
            else r.Ok? && IsLowestFree(k.tables[p], 3, r.value) && Opened(k, after, p, r.value, Regular, mode)
  {
    hide Opened, Counted, NoneFree, IsLowestFree, Install;
    CountedIsShaped(k);
    FirstFreeIs(k.tables[p], 3);
    if FirstFree(k.tables[p], 3) < MAX_OPEN_FILES {
      InstallOpens(k, p, FirstFree(k.tables[p], 3), Regular, mode);
    }
  }

  /**
   Opening a standard file: one that is not open gets its own number and the keyboard's or the console's mode; one
   that is open is shared at the lowest free descriptor above 2, without which there is no answer.
   */
  lemma {:induction false} OpenStandardAnswers(k: Files, p: nat, std: nat)
    requires Counted(k) && p < MAX_PROCESSES && std < 3
    ensures var r := OpenStandard(k, p, std);
            match k.tables[p][std]
            case None =>
              r.Some? && r.value.1 == std
                  && Opened(k, r.value.0, p, std, Standard, if std == 0 then O_READ else O_WRITE)
            case Some(f) =>
              && f in k.objects
              && if NoneFree(k.tables[p], 3) then r == None
                 else r.Some? && IsLowestFree(k.tables[p], 3, r.value.1) && SharedAt(k, r.value.0, p, r.value.1, f)
  {
    FirstFreeIs(k.tables[p], 3);
    if k.tables[p][std].Some? {
      EntriesPointToObjects(k, p, std);
    } else {
      InstallOpens(k, p, std, Standard, if std == 0 then O_READ else O_WRITE);
    }
    hide Counted, NoneFree, IsLowestFree, Opened;
  }

  /** dup shares the object at the lowest free descriptor above 2; the old descriptor keeps it. */
  lemma {:induction false} DupAnswers(k: Files, p: nat, fd: nat)
    requires Counted(k) && p < MAX_PROCESSES && fd < MAX_OPEN_FILES
    ensures var (after, r) := Dup(k, p, fd);
            if k.tables[p][fd] == None || NoneFree(k.tables[p], 3) then after == k && r == Err(EINVAL)
            else
              var f := k.tables[p][fd].value;
              f in k.objects && r.Ok? && IsLowestFree(k.tables[p], 3, r.value) && SharedAt(k, after, p, r.value, f)
  {
    FirstFreeIs(k.tables[p], 3);
    if k.tables[p][fd].Some? { EntriesPointToObjects(k, p, fd); }
    hide Counted, NoneFree, IsLowestFree;
  }

  /**
   What a close of a descriptor leaves: the entry is empty, and its object has lost a reference, or is gone with the
   last one.
   */
  ghost predicate ClosedAt(k: Files, after: Files, p: nat, fd: nat)
    requires Shaped(k) && p < MAX_PROCESSES && fd < MAX_OPEN_FILES
  {
    && OnlyEntry(k, after, p, fd, None)
    && match k.tables[p][fd]
       case None => after == k
       case Some(f) =>
         && f in k.objects
         && (forall g :: g in k.objects && g != f ==> g in after.objects && after.objects[g] == k.objects[g])
         && if RefsIn(k.tables, f) == 1 then after.objects.Keys == k.objects.Keys - {f}
            else after.objects.Keys == k.objects.Keys
                 && after.objects[f] == k.objects[f].(refs := k.objects[f].refs - 1)
  }

  /** The object behind descriptor `fd` is no end of pipe `q`. */
  predicate IsNoEndOf(k: Files, p: nat, fd: nat, q: nat)
    requires Shaped(k) && p < MAX_PROCESSES && fd < MAX_OPEN_FILES
  {
    k.tables[p][fd].Some? && k.tables[p][fd].value in k.objects ==>
      k.objects[k.tables[p][fd].value].kind != PipeEnd(q)
  }

  /** Whatever kind the object has, it is released, and no other pipe is touched. */
  lemma {:induction false} CloseReleases(k: Files, p: nat, fd: nat, f: nat)
    requires Inv(k) && Shaped(k) && p < MAX_PROCESSES && fd < MAX_OPEN_FILES && k.tables[p][fd] == Some(f)
    ensures f in k.objects && Close(k, p, fd).objects == Release(k, f).objects
    ensures forall q :: q in k.pipes && IsNoEndOf(k, p, fd, q) ==>
              q in Close(k, p, fd).pipes && Close(k, p, fd).pipes[q] == k.pipes[q]
  {
    EntriesPointToObjects(k, p, fd);
    if k.objects[f].kind.PipeEnd? {
      EndsHavePipes(k, f);
      var q, mode := k.objects[f].kind.pipe, k.objects[f].mode;
      assert IsEnd(k, k.tables[p][fd], q, mode);
      HeldIsRecorded(k, p, fd, q, mode);
      hide HoldsEnd, RecordsOk;
      PipeHasRecords(k, q);
      EndIsMode(k, f);
      CloseRecord(k.pipes[q], p, mode);
    }
    hide Inv, AfterClose, AllFree, HoldsEnd;
  }

  lemma {:induction false} PipeHasRecords(k: Files, q: nat)
    requires Inv(k) && q in k.pipes
    ensures RecordsOk(k.pipes[q])
  {
  }

  lemma {:induction false} EndIsMode(k: Files, f: nat)
    requires Inv(k) && f in k.objects && k.objects[f].kind.PipeEnd?
    ensures IsMode(k.objects[f].mode)
  {
    assert IsEndObject(k, f);
  }

  lemma {:induction false} CountOf(k: Files, f: nat)
    requires Inv(k) && f in k.objects
    ensures k.objects[f].refs == RefsIn(k.tables, f)
  {
    assert RefCount(k, f) == RefsIn(k.tables, f);
  }

  /** Under the invariant every close does that, and it touches no pipe but the one whose end it closes. */
  lemma {:induction false} CloseAnswers(k: Files, p: nat, fd: nat)
    requires Inv(k) && Shaped(k) && p < MAX_PROCESSES && fd < MAX_OPEN_FILES
    ensures ClosedAt(k, Close(k, p, fd), p, fd)
    ensures forall q :: q in k.pipes && IsNoEndOf(k, p, fd, q) ==>
              q in Close(k, p, fd).pipes && Close(k, p, fd).pipes[q] == k.pipes[q]
  {
    CloseShaped(k, p, fd);
    if k.tables[p][fd].Some? {
      var f := k.tables[p][fd].value;
      CloseReleases(k, p, fd, f);
      CountOf(k, f);
      hide Inv, Close, RefsIn;
    }
  }

  /** dup2 closes what the new descriptor had, and shares the old one's object there. */
  lemma {:induction false} Dup2Answers(k: Files, p: nat, fd: nat, newfd: nat)
    requires Inv(k) && Shaped(k) && p < MAX_PROCESSES && fd < MAX_OPEN_FILES && newfd < MAX_OPEN_FILES
    ensures var (after, r) := Dup2(k, p, fd, newfd);
            match k.tables[p][fd]
            case None => after == k && r == Err(EINVAL)
            case Some(f) =>
              if fd == newfd then after == k && r == Ok(newfd)
              else
                Shaped(Close(k, p, newfd)) && ClosedAt(k, Close(k, p, newfd), p, newfd)
                && f in Close(k, p, newfd).objects && r == Ok(newfd)
                && SharedAt(Close(k, p, newfd), after, p, newfd, f)
  {
    if k.tables[p][fd].Some? && fd != newfd {
      CloseShaped(k, p, newfd);
      CloseAnswers(k, p, newfd);
      CloseKeepsInv(k, p, newfd);
      EntriesPointToObjects(Close(k, p, newfd), p, fd);
      hide Inv, Close, ClosedAt;
    }
  }

  /**
   create_pipe answers with the two lowest free descriptors, the read end first: two new objects, each with one
   reference, of a new pipe whose only record gives both ends to the caller. With fewer than two free descriptors it
   is refused.
   */
  lemma {:induction false} CreatePipeAnswers(k: Files, p: nat)
    requires Counted(k) && p < MAX_PROCESSES && forall q :: q in k.pipes ==> q < k.nextId
    ensures var (after, r) := CreatePipe(k, p);
            match r
            case Err(e) => e == EOTHERS && forall i, j :: 0 <= i < j < MAX_OPEN_FILES ==>
                             k.tables[p][i].Some? || k.tables[p][j].Some?
            case Ok(fds) =>
              && IsLowestFree(k.tables[p], 0, fds.0) && IsLowestFree(k.tables[p], fds.0 + 1, fds.1)
              && Shaped(after) && after.tables[p][fds.0].Some? && after.tables[p][fds.1].Some?
              && var (f, g) := (after.tables[p][fds.0].value, after.tables[p][fds.1].value);
              && f !in k.objects && g !in k.objects && f != g && after.objects.Keys == k.objects.Keys + {f, g}
              && after.objects[f].kind.PipeEnd? && after.objects[g].kind == after.objects[f].kind
              && after.objects[f].mode == O_READ && after.objects[g].mode == O_WRITE
              && after.objects[f].refs == 1 && after.objects[g].refs == 1
              && var q := after.objects[f].kind.pipe;
              && q !in k.pipes && after.pipes.Keys == k.pipes.Keys + {q} && after.freed == k.freed
              && (forall o: Word32, m :: o != NO_PID && (m == O_READ || m == O_WRITE) ==>
                    (HoldsEnd(after.pipes[q], o, m) <==> o == p))
              && (forall s :: s in k.objects ==> after.objects[s] == k.objects[s])
              && (forall s :: s in k.pipes ==> after.pipes[s] == k.pipes[s])
              && forall u, i :: 0 <= u < MAX_PROCESSES && 0 <= i < MAX_OPEN_FILES && !(u == p && i in {fds.0, fds.1})
                   ==> after.tables[u][i] == k.tables[u][i]
  {
    NewIdIsFresh(k);
    FirstFreeIs(k.tables[p], 0);
    var fd0 := FirstFree(k.tables[p], 0);
    if fd0 < MAX_OPEN_FILES {
      var half := k.tables[p][fd0 := Some(k.nextId)];
      FirstFreeIs(half, fd0);
      SecondFree(k.tables[p], fd0, k.nextId);
    }
    NewOwnersHold(p);
    hide Counted, HoldsEnd, FirstFree;
  }

  lemma {:induction false} SecondFree(t: Table, fd0: nat, f: nat)
    requires fd0 < |t| && t[fd0] == None
    ensures var fd1 := FirstFree(t[fd0 := Some(f)], fd0);
            if fd1 < |t| then IsLowestFree(t, fd0 + 1, fd1) else NoneFree(t, fd0 + 1)
  {
    var half := t[fd0 := Some(f)];
    FirstFreeIs(half, fd0);
    assert forall i :: 0 <= i < |t| && i != fd0 ==> half[i] == t[i];
  }

  lemma {:induction false} NewOwnersHold(p: nat)
    requires p < MAX_PROCESSES
    ensures var owners := [Owner(p, true, true)] + seq(15, _ => NOBODY);
            forall o: Word32, m :: o != NO_PID && (m == O_READ || m == O_WRITE) ==> (HoldsEnd(owners, o, m) <==> o == p)
  {
    var owners := [Owner(p, true, true)] + seq(15, _ => NOBODY);
    assert owners[0] == Owner(p, true, true) && forall i :: 1 <= i < |owners| ==> owners[i] == NOBODY;
  }

  /** A fork copies the parent table; an object gets one reference for each descriptor that the parent has for it. */
  lemma {:induction false} ForkAnswers(k: Files, child: nat, parent: nat)
    requires CanFork(k, child, parent)
    ensures Shaped(k) && Shaped(Fork(k, child, parent))
    ensures var after := Fork(k, child, parent);
            && after.tables[child] == k.tables[parent]
            && (forall r :: 0 <= r < MAX_PROCESSES && r != child ==> after.tables[r] == k.tables[r])
            && after.objects.Keys == k.objects.Keys
            && forall f :: f in k.objects ==>
                 after.objects[f] == k.objects[f].(refs := k.objects[f].refs + multiset(k.tables[parent])[Some(f)])
  {
    ForkUpToEffect(k, child, parent, MAX_OPEN_FILES);
    assert k.tables[parent][..MAX_OPEN_FILES] == k.tables[parent];
    hide Fork, Inv;
  }
}
