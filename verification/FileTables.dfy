/**
 Descriptor tables, reference-counted file objects and the pipes behind them. Objects and pipes are known
 by the identity of their allocation, so that an entry pointing to a deleted object can be told apart.
 */
module FileTables {
  import opened Kernel
  import opened PipeEnds

  const MAX_OPEN_FILES: nat := 16

  datatype Kind = Standard | Regular | PipeEnd(pipe: nat)
  datatype File = File(kind: Kind, mode: nat, refs: int)

  type Entry = Option<nat>
  type Table = seq<Entry>

  /** `freed` records the pipes whose pages have been given back. */
  datatype Files = Files(objects: map<nat, File>, pipes: map<nat, seq<Owner>>, tables: seq<Table>, nextId: nat,
      freed: seq<nat>)

  // ----- small steps -----

  function SetEntry(k: Files, p: nat, fd: nat, e: Entry): Files
    requires p < |k.tables| && fd < |k.tables[p]|
  {
    k.(tables := k.tables[p := k.tables[p][fd := e]])
  }

  function AddRef(k: Files, f: nat): Files
    requires f in k.objects
  {
    k.(objects := k.objects[f := k.objects[f].(refs := k.objects[f].refs + 1)])
  }

  /** std_close and file_close: the last reference deletes the object. */
  function Release(k: Files, f: nat): Files
    requires f in k.objects
  {
    if k.objects[f].refs - 1 == 0 then k.(objects := k.objects - {f})
    else k.(objects := k.objects[f := k.objects[f].(refs := k.objects[f].refs - 1)])
  }

  /**
   The close handler of an object, called by process `p`; a pipe end that `p` is not on record for is not
   released.
   */
  function CloseObject(k: Files, p: nat, f: nat): Files
    requires p < MAX_PROCESSES
  {
    if f !in k.objects then k
    else match k.objects[f].kind
      case PipeEnd(q) =>
        if q !in k.pipes then k
        else (match AfterClose(k.pipes[q], p, k.objects[f].mode)
              case None => k
              case Some(owners) =>
                Release(if AllFree(owners) then k.(pipes := k.pipes - {q}, freed := k.freed + [q])
                        else k.(pipes := k.pipes[q := owners]), f))
      case _ => Release(k, f)
  }

  predicate Shaped(k: Files) {
    |k.tables| == MAX_PROCESSES && forall p :: 0 <= p < |k.tables| ==> |k.tables[p]| == MAX_OPEN_FILES
  }

  function FirstFree(t: Table, from: nat): (fd: nat)
    requires from <= |t|
    ensures from <= fd <= |t|
    ensures fd < |t| ==> t[fd] == None
    ensures forall i :: from <= i < fd ==> t[i] != None
    decreases |t| - from
  {
    if from == |t| || t[from] == None then from else FirstFree(t, from + 1)
  }

  // ----- system calls; every result is a descriptor or an error -----

  /** do_close */
  function Close(k: Files, p: nat, fd: nat): Files
    requires Shaped(k) && p < MAX_PROCESSES && fd < MAX_OPEN_FILES
  {
    match k.tables[p][fd]
    case None => k
    case Some(f) => CloseObject(SetEntry(k, p, fd, None), p, f)
  }

  /** do_file_exit, for descriptors `fd` and up. */
  function ExitFrom(k: Files, p: nat, fd: nat): Files
    requires Shaped(k) && p < MAX_PROCESSES && fd <= MAX_OPEN_FILES
    decreases MAX_OPEN_FILES - fd
  {
    if fd == MAX_OPEN_FILES then k
    else
      CloseShaped(k, p, fd);
      ExitFrom(Close(k, p, fd), p, fd + 1)
  }

  lemma {:induction false} CloseShaped(k: Files, p: nat, fd: nat)
    requires Shaped(k) && p < MAX_PROCESSES && fd < MAX_OPEN_FILES
    ensures Shaped(Close(k, p, fd))
    ensures Close(k, p, fd).tables == k.tables[p := k.tables[p][fd := None]]
  {
    if k.tables[p][fd] == None {
      assert k.tables[p][fd := None] == k.tables[p] && k.tables[p := k.tables[p]] == k.tables;
    }
  }

  /** What do_file_fork does for one descriptor of the child. */
  function ForkOne(k: Files, child: nat, parent: nat, e: Entry): Files
    requires child < MAX_PROCESSES && parent < MAX_PROCESSES
  {
    if e == None || e.value !in k.objects then k
    else
      var counted := AddRef(k, e.value);
      match k.objects[e.value].kind
      case PipeEnd(q) =>
        if q !in k.pipes then counted
        else (match AfterFork(k.pipes[q], child, parent)
              case None => counted
              case Some(owners) => counted.(pipes := k.pipes[q := owners]))
      case _ => counted
  }

  /** The child's table is a copy of the parent's; the first `n` descriptors have been accounted for. */
  function ForkUpTo(k: Files, child: nat, parent: nat, n: nat): Files
    requires Shaped(k) && child < MAX_PROCESSES && parent < MAX_PROCESSES && n <= MAX_OPEN_FILES
  {
    if n == 0 then k.(tables := k.tables[child := k.tables[parent]])
    else ForkOne(ForkUpTo(k, child, parent, n - 1), child, parent, k.tables[parent][n - 1])
  }

  function Fork(k: Files, child: nat, parent: nat): Files
    requires Shaped(k) && child < MAX_PROCESSES && parent < MAX_PROCESSES
  {
    ForkUpTo(k, child, parent, MAX_OPEN_FILES)
  }

  /** A new object with one reference, entered at `fd`. */
  function Install(k: Files, p: nat, fd: nat, kind: Kind, mode: nat): Files
    requires Shaped(k) && p < MAX_PROCESSES && fd < MAX_OPEN_FILES
  {
    SetEntry(k.(objects := k.objects[k.nextId := File(kind, mode, 1)], nextId := k.nextId + 1), p, fd, Some(k.nextId))
  }

  /**
   open_standard_IO. Sharing an open standard file takes the first free descriptor from 3 on, and the
   search has no bound: without one, the code runs off the table, which has no result here.
   */
  function OpenStandard(k: Files, p: nat, std: nat): Option<(Files, nat)>
    requires Shaped(k) && p < MAX_PROCESSES && std < 3
  {
    match k.tables[p][std]
    case None => Some((Install(k, p, std, Standard, if std == 0 then O_READ else O_WRITE), std))
    case Some(f) =>
      var fd := FirstFree(k.tables[p], 3);
      if fd == MAX_OPEN_FILES || f !in k.objects then None
      else Some((SetEntry(AddRef(k, f), p, fd, Some(f)), fd))
  }

  /** do_regular_file_open once the path has been looked up and its mode compared with the flags. */
  function OpenRegular(k: Files, p: nat, found: bool, create: bool, permitted: bool, mode: nat): (Files, Result<nat>)
    requires Shaped(k) && p < MAX_PROCESSES
  {
    var fd := FirstFree(k.tables[p], 3);
    if !found then (k, Err(if create then ENOMEM else EINVAL))
    else if !permitted then (k, Err(EACCES))
    else if fd == MAX_OPEN_FILES then (k, Err(ENOMEM))
    else (Install(k, p, fd, Regular, mode), Ok(fd))
  }

  /** fd_dup */
  function Dup(k: Files, p: nat, fd: nat): (Files, Result<nat>)
    requires Shaped(k) && p < MAX_PROCESSES && fd < MAX_OPEN_FILES
  {
    var free := FirstFree(k.tables[p], 3);
    match k.tables[p][fd]
    case None => (k, Err(EINVAL))
    case Some(f) =>
      if free == MAX_OPEN_FILES || f !in k.objects then (k, Err(EINVAL))
      else (AddRef(SetEntry(k, p, free, Some(f)), f), Ok(free))
  }

  /** fd_dup2: closes what `newfd` refers to, even if it is the same object. */
  function Dup2(k: Files, p: nat, fd: nat, newfd: nat): (Files, Result<nat>)
    requires Shaped(k) && p < MAX_PROCESSES && fd < MAX_OPEN_FILES && newfd < MAX_OPEN_FILES
  {
    match k.tables[p][fd]
    case None => (k, Err(EINVAL))
    case Some(f) =>
      if fd == newfd then (k, Ok(newfd))
      else
        CloseShaped(k, p, newfd);
        var closed := Close(k, p, newfd);
        if f !in closed.objects then (closed, Ok(newfd))
        else (AddRef(SetEntry(closed, p, newfd, Some(f)), f), Ok(newfd))
  }

  /** create_pipe: the objects and the pipe are made before the descriptors are looked for. */
  function CreatePipe(k: Files, p: nat): (Files, Result<(nat, nat)>)
    requires Shaped(k) && p < MAX_PROCESSES
  {
    var r, w, q := k.nextId, k.nextId + 1, k.nextId + 2;
    var made := k.(objects := k.objects[r := File(PipeEnd(q), O_READ, 1)][w := File(PipeEnd(q), O_WRITE, 1)],
                   pipes := k.pipes[q := [Owner(p, true, true)] + seq(15, _ => NOBODY)], nextId := k.nextId + 3);
    var fd0 := FirstFree(k.tables[p], 0);
    if fd0 == MAX_OPEN_FILES then (made, Err(EOTHERS))
    else
      var half := SetEntry(made, p, fd0, Some(r));
      var fd1 := FirstFree(half.tables[p], fd0);
      if fd1 == MAX_OPEN_FILES then (half, Err(EOTHERS))
      else (SetEntry(half, p, fd1, Some(w)), Ok((fd0, fd1)))
  }

  // ----- accounting -----

  /** How many descriptor-table entries, over all processes, point to `f`. */
  function RefsIn(tables: seq<Table>, f: nat): nat {
    if tables == [] then 0 else multiset(tables[0])[Some(f)] + RefsIn(tables[1..], f)
  }

  function RefCount(k: Files, f: nat): int { if f in k.objects then k.objects[f].refs else 0 }

  /**
   Reference counts are exact: the count of an object is the number of entries that point to it and
   positive, and no entry points to an object that has been deleted.
   */
  ghost predicate Counted(k: Files) {
    && Shaped(k)
    && (forall f: nat :: RefCount(k, f) == RefsIn(k.tables, f))
    && (forall f: nat :: f in k.objects ==> f < k.nextId && k.objects[f].refs > 0)
  }

  lemma {:induction false} RefsAfterSet(tables: seq<Table>, p: nat, t: Table, f: nat)
    requires p < |tables|
    ensures RefsIn(tables[p := t], f) == RefsIn(tables, f) - multiset(tables[p])[Some(f)] + multiset(t)[Some(f)]
    decreases |tables|
  {
    if p > 0 {
      assert tables[p := t][1..] == tables[1..][p - 1 := t];
      RefsAfterSet(tables[1..], p - 1, t, f);
    } else {
      assert tables[p := t][1..] == tables[1..];
    }
  }

  lemma {:induction false} RefsAfterEntry(k: Files, p: nat, fd: nat, e: Entry, f: nat)
    requires p < |k.tables| && fd < |k.tables[p]|
    ensures RefsIn(SetEntry(k, p, fd, e).tables, f) ==
            RefsIn(k.tables, f) - (if k.tables[p][fd] == Some(f) then 1 else 0) + (if e == Some(f) then 1 else 0)
  {
    RefsAfterSet(k.tables, p, k.tables[p][fd := e], f);
    assert multiset(k.tables[p][fd := e]) == multiset(k.tables[p]) - multiset{k.tables[p][fd]} + multiset{e};
    assert k.tables[p][fd] in multiset(k.tables[p]);
  }

  lemma {:induction false} RefsPositive(tables: seq<Table>, f: nat)
    ensures RefsIn(tables, f) > 0 <==>
            exists p, fd :: 0 <= p < |tables| && 0 <= fd < |tables[p]| && tables[p][fd] == Some(f)
    decreases |tables|
  {
    if tables != [] {
      RefsPositive(tables[1..], f);
      if p, fd :| 0 <= p < |tables| && 0 <= fd < |tables[p]| && tables[p][fd] == Some(f) {
        if p == 0 { assert Some(f) in multiset(tables[0]); } else { assert tables[1..][p - 1] == tables[p]; }
      }
      if RefsIn(tables, f) > 0 {
        if Some(f) in multiset(tables[0]) {
          var fd :| 0 <= fd < |tables[0]| && tables[0][fd] == Some(f);
        } else {
          var p, fd :| 0 <= p < |tables[1..]| && 0 <= fd < |tables[1..][p]| && tables[1..][p][fd] == Some(f);
          assert tables[p + 1] == tables[1..][p];
        }
      }
    }
  }

  /** No entry dangles. */
  lemma {:induction false} EntriesPointToObjects(k: Files, p: nat, fd: nat)
    requires Counted(k) && p < MAX_PROCESSES && fd < MAX_OPEN_FILES && k.tables[p][fd].Some?
    ensures k.tables[p][fd].value in k.objects
  {
    var f := k.tables[p][fd].value;
    RefsPositive(k.tables, f);
    assert RefCount(k, f) == RefsIn(k.tables, f);
  }

  // ----- every call keeps the counts exact -----

  /** An entry is overwritten and the counts of the two objects follow. */
  lemma {:induction false} InstallKeepsCounted(k: Files, p: nat, fd: nat, kind: Kind, mode: nat)
    requires Counted(k) && p < MAX_PROCESSES && fd < MAX_OPEN_FILES && k.tables[p][fd] == None
    ensures Counted(Install(k, p, fd, kind, mode))
  {
    var after := Install(k, p, fd, kind, mode);
    forall f: nat ensures RefCount(after, f) == RefsIn(after.tables, f) {
      RefsAfterEntry(k, p, fd, Some(k.nextId), f);
      assert RefCount(k, f) == RefsIn(k.tables, f);
    }
  }

  lemma {:induction false} ShareKeepsCounted(k: Files, p: nat, fd: nat, f: nat)
    requires Counted(k) && p < MAX_PROCESSES && fd < MAX_OPEN_FILES && k.tables[p][fd] == None && f in k.objects
    ensures Counted(SetEntry(AddRef(k, f), p, fd, Some(f)))
  {
    var after := SetEntry(AddRef(k, f), p, fd, Some(f));
    forall g: nat ensures RefCount(after, g) == RefsIn(after.tables, g) {
      RefsAfterEntry(k, p, fd, Some(f), g);
      assert RefCount(k, g) == RefsIn(k.tables, g);
    }
  }

  lemma {:induction false} DropKeepsCounted(k: Files, p: nat, fd: nat, f: nat)
    requires Counted(k) && p < MAX_PROCESSES && fd < MAX_OPEN_FILES && k.tables[p][fd] == Some(f)
    ensures f in k.objects && Counted(Release(SetEntry(k, p, fd, None), f))
    ensures f !in Release(SetEntry(k, p, fd, None), f).objects <==> RefsIn(k.tables, f) == 1
  {
    EntriesPointToObjects(k, p, fd);
    var after := Release(SetEntry(k, p, fd, None), f);
    forall g: nat ensures RefCount(after, g) == RefsIn(after.tables, g) {
      RefsAfterEntry(k, p, fd, None, g);
      assert RefCount(k, g) == RefsIn(k.tables, g);
    }
  }
}
