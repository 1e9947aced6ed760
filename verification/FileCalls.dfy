/** The system calls on descriptors, with their loops, on tables of references to shared file objects. */
module FileCalls {
  import opened Kernel
  import opened PipeEnds
  import opened FileTables
  import FileLifetimes
  import Pipes

  /** `struct file`; `id` tells allocations apart, and `pipe` is set for the ends of a pipe only. */
  class FileObject {
    const id: nat
    const kind: Kind
    const mode: nat
    const pipe: Pipes.Pipe?
    var refs: int

    /** alloc_file, and the fields that its callers fill. */
    constructor (id: nat, kind: Kind, mode: nat, pipe: Pipes.Pipe?)
      ensures this.id == id && this.kind == kind && this.mode == mode && this.pipe == pipe && refs == 1
    {
      this.id, this.kind, this.mode, this.pipe, refs := id, kind, mode, pipe, 1;
    }
  }

  ghost function EntryOf(file: FileObject?): Entry { if file == null then None else Some(file.id) }

  class KernelFiles {
    const tables: array2<FileObject?>
    var nextId: nat

    // The allocated objects and pipes by their ids, and what they and the tables hold.
    ghost var live: map<nat, FileObject>
    ghost var pipes: map<nat, Pipes.Pipe>
    ghost var objects: map<nat, File>
    ghost var owners: map<nat, seq<Owner>>
    ghost var rows: seq<Table>
    ghost var freed: seq<nat>

    ghost function View(): Files
      reads this
    {
      Files(objects, owners, rows, nextId, freed)
    }

    ghost function Arrays(): set<array<Owner>>
      reads this
    {
      set q | q in pipes :: pipes[q].owners
    }

    ghost predicate Alive(f: FileObject)
      reads this
    {
      f.id in live && live[f.id] == f
    }

    ghost predicate ObjectsMatch()
      reads this, live.Values
    {
      && objects.Keys == live.Keys
      && (forall f :: f in live ==> live[f].id == f && f < nextId)
      && (forall f :: f in live ==> objects[f] == File(live[f].kind, live[f].mode, live[f].refs))
      && (forall f :: f in live && live[f].kind.PipeEnd? ==>
            live[f].pipe != null && live[f].kind.pipe < nextId
            && (live[f].kind.pipe in pipes ==> pipes[live[f].kind.pipe] == live[f].pipe))
    }

    ghost predicate PipesMatch()
      reads this, Arrays()
    {
      && owners.Keys == pipes.Keys
      && (forall q :: q in pipes ==> q < nextId && pipes[q].owners.Length == MAX_PIPE_PROC)
      && (forall q :: q in pipes ==> owners[q] == pipes[q].owners[..])
      && (forall q, r :: q in pipes && r in pipes && q != r ==> pipes[q].owners != pipes[r].owners)
    }

    ghost predicate RowsMatch()
      requires tables.Length0 == MAX_PROCESSES && tables.Length1 == MAX_OPEN_FILES
      reads this, tables
    {
      && Shaped(View())
      && (forall p, fd :: 0 <= p < MAX_PROCESSES && 0 <= fd < MAX_OPEN_FILES ==> rows[p][fd] == EntryOf(tables[p, fd]))
      && forall p, fd :: 0 <= p < MAX_PROCESSES && 0 <= fd < MAX_OPEN_FILES && tables[p, fd] != null ==>
           tables[p, fd].id < nextId && (tables[p, fd].id in live ==> live[tables[p, fd].id] == tables[p, fd])
    }

    ghost predicate Valid()
      reads this, tables, live.Values, Arrays()
      ensures Valid() ==> Shaped(View())
    {
      && tables.Length0 == MAX_PROCESSES && tables.Length1 == MAX_OPEN_FILES
      && ObjectsMatch() && PipesMatch() && RowsMatch()
    }

    constructor ()
      ensures Valid() && View() == FileLifetimes.NothingOpen()
    {
      tables := new FileObject?[MAX_PROCESSES, MAX_OPEN_FILES]((p, fd) => null);
      nextId := 0;
      live, pipes, objects, owners, rows, freed := map[], map[], map[], map[], FileLifetimes.NothingOpen().tables, [];
    }

    // ----- small steps -----

    /** The descriptor searches. */
    method FindFree(p: nat, from: nat) returns (fd: nat)
      requires Valid() && p < MAX_PROCESSES && from <= MAX_OPEN_FILES
      ensures Valid() && fd == FirstFree(rows[p], from)
    {
      fd := from;
      while fd < MAX_OPEN_FILES && tables[p, fd] != null
        invariant from <= fd <= MAX_OPEN_FILES
        invariant FirstFree(rows[p], from) == FirstFree(rows[p], fd)
      {
        fd := fd + 1;
      }
    }

    method SetEntry(p: nat, fd: nat, file: FileObject?)
      requires Valid() && p < MAX_PROCESSES && fd < MAX_OPEN_FILES && (file != null ==> Alive(file))
      modifies tables, this`rows
      ensures Valid() && View() == FileTables.SetEntry(old(View()), p, fd, EntryOf(file))
      ensures forall r, i :: 0 <= r < MAX_PROCESSES && 0 <= i < MAX_OPEN_FILES ==>
                tables[r, i] == if r == p && i == fd then file else old(tables[r, i])
    {
      tables[p, fd] := file;
      rows := rows[p := rows[p][fd := EntryOf(file)]];
    }

    method SetRefs(f: FileObject, refs: int)
      requires Valid() && Alive(f)
      modifies f`refs, this`objects
      ensures Valid() && f.refs == refs
      ensures View() == old(View()).(objects := old(objects)[f.id := old(objects)[f.id].(refs := refs)])
    {
      f.refs := refs;
      objects := objects[f.id := objects[f.id].(refs := refs)];
    }

    method AddRef(f: FileObject)
      requires Valid() && Alive(f)
      modifies f`refs, this`objects
      ensures Valid() && View() == FileTables.AddRef(old(View()), f.id)
    {
      SetRefs(f, f.refs + 1);
    }

    /** delete_file */
    method DeleteFile(f: FileObject)
      requires Valid() && Alive(f)
      modifies this`live, this`objects
      ensures Valid() && live == old(live) - {f.id}
      ensures View() == old(View()).(objects := old(objects) - {f.id})
    {
      live, objects := live - {f.id}, objects - {f.id};
    }

    /** std_close and file_close */
    method Release(f: FileObject)
      requires Valid() && Alive(f)
      modifies this`live, this`objects, f`refs
      ensures Valid() && View() == FileTables.Release(old(View()), f.id)
      ensures live == old(live) || live == old(live) - {f.id}
    {
      SetRefs(f, f.refs - 1);
      if f.refs == 0 {
        DeleteFile(f);
        assert objects == old(objects) - {f.id};
      }
    }

    /** Later allocations get ids from `id` on. */
    ghost predicate AllBelow(id: nat)
      reads this, tables
    {
      && tables.Length0 == MAX_PROCESSES && tables.Length1 == MAX_OPEN_FILES
      && (forall f :: f in live ==> f < id)
      && forall p, fd :: 0 <= p < MAX_PROCESSES && 0 <= fd < MAX_OPEN_FILES && tables[p, fd] != null ==>
          tables[p, fd].id < id
    }

    method ReserveIds(n: nat) returns (id: nat)
      requires Valid()
      modifies this`nextId
      ensures Valid() && id == old(nextId) && View() == old(View()).(nextId := id + n)
      ensures AllBelow(id) && (forall q :: q in pipes ==> q < id)
      ensures forall f :: f in live && live[f].kind.PipeEnd? ==> live[f].kind.pipe < id
    {
      id := nextId;
      nextId := nextId + n;
    }

    /** alloc_file, with the fields that its callers fill. */
    method AllocFile(id: nat, kind: Kind, mode: nat, pipe: Pipes.Pipe?) returns (f: FileObject)
      requires Valid() && AllBelow(id) && id < nextId
          && (kind.PipeEnd? ==> kind.pipe in pipes && pipes[kind.pipe] == pipe)
      modifies this`live, this`objects
      ensures Valid() && fresh(f) && Alive(f) && f.id == id && AllBelow(id + 1)
      ensures live == old(live)[id := f] && View() == old(View()).(objects := old(objects)[id := File(kind, mode, 1)])
    {
      f := new FileObject(id, kind, mode, pipe);
      live, objects := live[id := f], objects[id := File(kind, mode, 1)];
    }

    /** alloc_pipe_info, and the record that create_pipe fills. */
    method AllocPipe(p: nat, q: nat) returns (pipe: Pipes.Pipe)
      requires Valid() && p < MAX_PROCESSES && q !in pipes && q < nextId
      requires forall f :: f in live && live[f].kind.PipeEnd? ==> live[f].kind.pipe != q
      modifies this`pipes, this`owners
      ensures Valid() && pipes == old(pipes)[q := pipe]
      ensures View() == old(View()).(pipes := old(owners)[q := Pipes.NewOwners(p)])
    {
      pipe := new Pipes.Pipe(p);
      pipes, owners := pipes[q := pipe], owners[q := Pipes.NewOwners(p)];
    }

    /** free_pipe */
    method FreePipe(ghost q: nat)
      requires Valid() && q in pipes
      modifies this`pipes, this`owners, this`freed
      ensures Valid() && pipes == old(pipes) - {q}
      ensures View() == old(View()).(pipes := old(owners) - {q}, freed := old(freed) + [q])
    {
      pipes, owners, freed := pipes - {q}, owners - {q}, freed + [q];
    }

    // ----- close -----

    /** The part of pipe_close that clears the end in the caller's record. */
    method CloseRecords(p: nat, f: FileObject) returns (onRecord: bool, pagesFreed: bool)
      requires Valid() && p < MAX_PROCESSES && Alive(f) && f.kind.PipeEnd? && f.kind.pipe in pipes
      modifies this`owners, f.pipe.owners
      ensures Valid() && pipes == old(pipes)
      ensures match AfterClose(old(owners)[f.kind.pipe], p, f.mode)
              case None => !onRecord && View() == old(View())
              case Some(o) =>
                onRecord && pagesFreed == AllFree(o) && View() == old(View()).(pipes := old(owners)[f.kind.pipe := o])
    {
      hide AfterClose, AllFree;
      var r, all := f.pipe.Close(p, f.mode);
      owners := owners[f.kind.pipe := f.pipe.owners[..]];
      assert r.Err? ==> owners == old(owners);
      return r.Ok?, all;
    }

    /** pipe_close up to the release of the file object: the pages go with the last record. */
    method ClosePipe(p: nat, f: FileObject) returns (onRecord: bool)
      requires Valid() && p < MAX_PROCESSES && Alive(f) && f.kind.PipeEnd? && f.kind.pipe in pipes
          && f.kind.pipe in owners
      modifies this`pipes, this`owners, this`freed, f.pipe.owners
      ensures Valid() && (pipes == old(pipes) || pipes == old(pipes) - {f.kind.pipe})
      ensures var q, was := f.kind.pipe, old(View());
              match AfterClose(was.pipes[q], p, f.mode)
              case None => !onRecord && View() == was
              case Some(o) =>
                onRecord && View() == if AllFree(o) then was.(pipes := was.pipes - {q}, freed := was.freed + [q])
                                      else was.(pipes := was.pipes[q := o])
    {
      hide AfterClose, AllFree, ObjectsMatch, PipesMatch, RowsMatch;
      var pagesFreed: bool;
      onRecord, pagesFreed := CloseRecords(p, f);
      if onRecord && pagesFreed {
        FreePipe(f.kind.pipe);
        assert owners == old(owners) - {f.kind.pipe};
      }
    }

    lemma {:induction false} AliveIsShown(f: FileObject)
      requires Valid() && Alive(f)
      ensures f.id in objects && objects[f.id] == File(f.kind, f.mode, f.refs)
      ensures f.kind.PipeEnd? && f.kind.pipe in pipes ==>
                f.kind.pipe in owners && pipes[f.kind.pipe] == f.pipe && f.pipe.owners in Arrays()
    {
    }

    /** The close handlers; a pipe end goes through pipe_close first. */
    method CloseObject(p: nat, f: FileObject)
      requires Valid() && p < MAX_PROCESSES && Alive(f) && (f.kind.PipeEnd? ==> f.kind.pipe in pipes)
      modifies this, f`refs, Arrays()
      ensures Valid() && View() == FileTables.CloseObject(old(View()), p, f.id)
      ensures live == old(live) || live == old(live) - {f.id}
      ensures pipes == old(pipes) || (f.kind.PipeEnd? && pipes == old(pipes) - {f.kind.pipe})
    {
      hide AfterClose, AllFree, FileTables.Release, ObjectsMatch, PipesMatch, RowsMatch;
      AliveIsShown(f);
      if f.kind.PipeEnd? {
        var onRecord := ClosePipe(p, f);
        if !onRecord {
          return;
        }
      }
      Release(f);
    }

    /** An entry that does not dangle leads to a live object, and that to a live pipe. */
    lemma {:induction false} EntryIsAlive(p: nat, fd: nat)
      requires Valid() && p < MAX_PROCESSES && fd < MAX_OPEN_FILES && NothingDangles(View(), p)
      ensures rows[p][fd] == EntryOf(tables[p, fd])
      ensures var f := tables[p, fd];
              f != null ==> Alive(f) && f.id in objects && objects[f.id] == File(f.kind, f.mode, f.refs)
                            && (f.kind.PipeEnd? ==>
                                  f.kind.pipe in pipes && f.kind.pipe in owners && pipes[f.kind.pipe] == f.pipe)
    {
    }

    /** do_close */
    method Close(p: nat, fd: nat)
      requires Valid() && p < MAX_PROCESSES && fd < MAX_OPEN_FILES && NothingDangles(View(), p)
      modifies this, tables, live.Values, Arrays()
      ensures Valid() && View() == FileTables.Close(old(View()), p, fd)
      ensures live.Values <= old(live.Values) && Arrays() <= old(Arrays())
      ensures forall r, i :: 0 <= r < MAX_PROCESSES && 0 <= i < MAX_OPEN_FILES && (r != p || i != fd) ==>
                tables[r, i] == old(tables[r, i])
    {
      hide FileTables.CloseObject, NothingDangles, ObjectsMatch, PipesMatch, RowsMatch;
      var f := tables[p, fd];
      EntryIsAlive(p, fd);
      if f != null {
        SetEntry(p, fd, null);
        CloseObject(p, f);
      }
    }

    /** do_file_exit */
    method ExitFiles(p: nat)
      requires Valid() && p < MAX_PROCESSES && FileLifetimes.Inv(View())
      modifies this, tables, live.Values, Arrays()
      ensures Valid() && View() == ExitFrom(old(View()), p, 0)
    {
      hide FileLifetimes.Inv, FileTables.Close, NothingDangles, ObjectsMatch, PipesMatch, RowsMatch;
      ghost var goal := ExitFrom(View(), p, 0);
      for fd := 0 to MAX_OPEN_FILES
        invariant Valid() && FileLifetimes.Inv(View())
        invariant live.Values <= old(live.Values) && Arrays() <= old(Arrays())
        invariant ExitFrom(View(), p, fd) == goal
      {
        InvNothingDangles(View(), p);
        CloseShaped(View(), p, fd);
        FileLifetimes.CloseKeepsInv(View(), p, fd);
        Close(p, fd);
      }
    }

    // ----- fork -----

    /** do_pipe_fork */
    method ForkRecords(f: FileObject, child: nat, parent: nat)
      requires Valid() && child < MAX_PROCESSES && parent < MAX_PROCESSES && Alive(f) && f.kind.PipeEnd?
          && f.kind.pipe in pipes
      modifies this`owners, f.pipe.owners
      ensures Valid()
      ensures View() == match AfterFork(old(owners)[f.kind.pipe], child, parent)
                        case None => old(View())
                        case Some(o) => old(View()).(pipes := old(owners)[f.kind.pipe := o])
    {
      hide AfterFork;
      var r := f.pipe.Fork(child, parent);
      owners := owners[f.kind.pipe := f.pipe.owners[..]];
      assert r.Err? ==> owners == old(owners);
    }

    /** One descriptor of do_file_fork. */
    method ForkEntry(child: nat, parent: nat, fd: nat)
      requires Valid() && child < MAX_PROCESSES && parent < MAX_PROCESSES && fd < MAX_OPEN_FILES
      requires NothingDangles(View(), child)
      modifies this`objects, this`owners, live.Values, Arrays()
      ensures Valid() && View() == ForkOne(old(View()), child, parent, rows[child][fd])
    {
      hide AfterFork, NothingDangles, ObjectsMatch, PipesMatch, RowsMatch;
      var f := tables[child, fd];
      EntryIsAlive(child, fd);
      if f != null {
        AddRef(f);
        if f.kind.PipeEnd? {
          ForkRecords(f, child, parent);
        }
      }
    }

    /** The part of the context's copy that concerns the descriptors. */
    method CopyRow(child: nat, parent: nat)
      requires Valid() && child < MAX_PROCESSES && parent < MAX_PROCESSES
      modifies tables, this`rows
      ensures Valid() && View() == old(View()).(tables := old(rows)[child := old(rows)[parent]])
    {
      forall fd | 0 <= fd < MAX_OPEN_FILES {
        tables[child, fd] := tables[parent, fd];
      }
      rows := rows[child := rows[parent]];
    }

    /** do_file_fork: the child's context, table included, is first copied from the parent's. */
    method ForkFiles(child: nat, parent: nat)
      requires Valid() && child < MAX_PROCESSES && parent < MAX_PROCESSES && NothingDangles(View(), parent)
      modifies this, tables, live.Values, Arrays()
      ensures Valid() && View() == Fork(old(View()), child, parent)
    {
      hide AfterFork, ForkOne, ObjectsMatch, PipesMatch, RowsMatch;
      ghost var before := View();
      CopyRow(child, parent);
      for fd := 0 to MAX_OPEN_FILES
        invariant Valid() && NothingDangles(View(), child)
        invariant live == old(live) && pipes == old(pipes) && rows == before.tables[child := before.tables[parent]]
        invariant View() == ForkUpTo(before, child, parent, fd)
      {
        ForkOneKeeps(View(), child, parent, before.tables[parent][fd]);
        ForkEntry(child, parent, fd);
      }
    }

    // ----- open, dup and create -----

    /** open_standard_IO; the caller must leave a free descriptor behind 2 if the standard file is shared. */
    method OpenStandardFile(p: nat, std: nat) returns (fd: nat)
      requires Valid() && p < MAX_PROCESSES && std < 3 && NothingDangles(View(), p)
      requires tables[p, std] != null ==> FirstFree(rows[p], 3) < MAX_OPEN_FILES
      modifies this, tables, live.Values
      ensures Valid() && OpenStandard(old(View()), p, std) == Some((View(), fd))
    {
      hide NothingDangles, ObjectsMatch, PipesMatch, RowsMatch;
      var f := tables[p, std];
      EntryIsAlive(p, std);
      if f == null {
        var id := ReserveIds(1);
        f := AllocFile(id, Standard, if std == 0 then O_READ else O_WRITE, null);
        fd := std;
      } else {
        AddRef(f);
        fd := FindFree(p, 3);
      }
      SetEntry(p, fd, f);
    }

    /** do_regular_file_open after the look-up of the path and the comparison of its mode with the flags. */
    method OpenRegularFile(p: nat, found: bool, create: bool, permitted: bool, mode: nat) returns (r: Result<nat>)
      requires Valid() && p < MAX_PROCESSES
      modifies this, tables
      ensures Valid() && (View(), r) == OpenRegular(old(View()), p, found, create, permitted, mode)
    {
      if !found {
        return Err(if create then ENOMEM else EINVAL);
      }
      if !permitted {
        return Err(EACCES);
      }
      var fd := FindFree(p, 3);
      if fd == MAX_OPEN_FILES {
        return Err(ENOMEM);
      }
      var id := ReserveIds(1);
      var f := AllocFile(id, Regular, mode, null);
      SetEntry(p, fd, f);
      return Ok(fd);
    }

    /** fd_dup */
    method DupFile(p: nat, oldfd: nat) returns (r: Result<nat>)
      requires Valid() && p < MAX_PROCESSES && oldfd < MAX_OPEN_FILES && NothingDangles(View(), p)
      modifies this, tables, live.Values
      ensures Valid() && (View(), r) == Dup(old(View()), p, oldfd)
    {
      hide NothingDangles, ObjectsMatch, PipesMatch, RowsMatch;
      var f := tables[p, oldfd];
      EntryIsAlive(p, oldfd);
      if f == null {
        return Err(EINVAL);
      }
      var fd := FindFree(p, 3);
      if fd == MAX_OPEN_FILES {
        return Err(EINVAL);
      }
      SetEntry(p, fd, f);
      AddRef(f);
      return Ok(fd);
    }

    /** fd_dup2 */
    method Dup2File(p: nat, oldfd: nat, newfd: nat) returns (r: Result<nat>)
      requires Valid() && p < MAX_PROCESSES && oldfd < MAX_OPEN_FILES && newfd < MAX_OPEN_FILES
      requires FileLifetimes.Inv(View())
      modifies this, tables, live.Values, Arrays()
      ensures Valid() && (View(), r) == Dup2(old(View()), p, oldfd, newfd)
    {
      hide FileLifetimes.Inv, FileTables.Close, NothingDangles, ObjectsMatch, PipesMatch, RowsMatch;
      InvNothingDangles(View(), p);
      var f := tables[p, oldfd];
      EntryIsAlive(p, oldfd);
      if f == null {
        return Err(EINVAL);
      }
      if oldfd == newfd {
        return Ok(newfd);
      }
      CloseShaped(View(), p, newfd);
      FileLifetimes.CloseKeepsInv(View(), p, newfd);
      Close(p, newfd);
      InvNothingDangles(View(), p);
      EntryIsAlive(p, oldfd);
      SetEntry(p, newfd, f);
      AddRef(f);
      return Ok(newfd);
    }

    /** The two file objects and the pipe of create_pipe, without descriptors. */
    method MakeEnds(p: nat) returns (pipe0: FileObject, pipe1: FileObject)
      requires Valid() && p < MAX_PROCESSES
      modifies this
      ensures Valid() && Alive(pipe0) && Alive(pipe1) && pipe0.id == old(nextId) && pipe1.id == old(nextId) + 1
      ensures var r, q := old(nextId), old(nextId) + 2;
              View() == old(View()).(
                objects := old(objects)[r := File(PipeEnd(q), O_READ, 1)][r + 1 := File(PipeEnd(q), O_WRITE, 1)],
                pipes := old(owners)[q := Pipes.NewOwners(p)], nextId := r + 3)
    {
      hide ObjectsMatch, PipesMatch, RowsMatch;
      var id := ReserveIds(3);
      var pipe := AllocPipe(p, id + 2);
      pipe0 := AllocFile(id, PipeEnd(id + 2), O_READ, pipe);
      pipe1 := AllocFile(id + 1, PipeEnd(id + 2), O_WRITE, pipe);
    }

    /** create_pipe */
    method CreatePipeFiles(p: nat) returns (r: Result<(nat, nat)>)
      requires Valid() && p < MAX_PROCESSES
      modifies this, tables
      ensures Valid() && (View(), r) == CreatePipe(old(View()), p)
    {
      hide ObjectsMatch, PipesMatch, RowsMatch;
      var pipe0, pipe1 := MakeEnds(p);
      var fd0 := FindFree(p, 0);
      if fd0 == MAX_OPEN_FILES {
        return Err(EOTHERS);
      }
      SetEntry(p, fd0, pipe0);
      var fd1 := FindFree(p, fd0);
      if fd1 == MAX_OPEN_FILES {
        return Err(EOTHERS);
      }
      SetEntry(p, fd1, pipe1);
      return Ok((fd0, fd1));
    }
  }

  /** The descriptors of `p` lead to live objects, and those to live pipes. */
  predicate NothingDangles(k: Files, p: nat)
    requires Shaped(k) && p < MAX_PROCESSES
  {
    forall i :: 0 <= i < MAX_OPEN_FILES && k.tables[p][i].Some? ==>
      k.tables[p][i].value in k.objects
      && (k.objects[k.tables[p][i].value].kind.PipeEnd? ==> k.objects[k.tables[p][i].value].kind.pipe in k.pipes)
  }

  lemma {:induction false} ForkOneKeeps(k: Files, child: nat, parent: nat, e: Entry)
    requires Shaped(k) && child < MAX_PROCESSES && parent < MAX_PROCESSES && NothingDangles(k, child)
    ensures var after := ForkOne(k, child, parent, e);
            after.tables == k.tables && Shaped(after) && NothingDangles(after, child)
  {
    hide AfterFork;
  }

  lemma {:induction false} InvNothingDangles(k: Files, p: nat)
    requires FileLifetimes.Inv(k) && Shaped(k) && p < MAX_PROCESSES
    ensures NothingDangles(k, p)
  {
    forall i | 0 <= i < MAX_OPEN_FILES && k.tables[p][i].Some?
      ensures k.tables[p][i].value in k.objects
      ensures k.objects[k.tables[p][i].value].kind.PipeEnd? ==> k.objects[k.tables[p][i].value].kind.pipe in k.pipes
    {
      EntriesPointToObjects(k, p, i);
      if k.objects[k.tables[p][i].value].kind.PipeEnd? {
        FileLifetimes.EndsHavePipes(k, k.tables[p][i].value);
      }
    }
  }
}
