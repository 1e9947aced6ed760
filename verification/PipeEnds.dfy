/** Which processes hold which ends of an ordinary pipe: sixteen records, freed when both ends are closed. */
module PipeEnds {
  import opened Kernel

  const MAX_PIPE_PROC: nat := 16

  datatype Owner = Owner(pid: Word32, read: bool, write: bool)

  const NOBODY: Owner := Owner(NO_PID, false, false)

  /** The first record of `pid`, or the length of the table. */
  function FirstWith(owners: seq<Owner>, pid: Word32): (i: nat)
    ensures i <= |owners|
    ensures i < |owners| ==> owners[i].pid == pid
    ensures forall j :: 0 <= j < i ==> owners[j].pid != pid
  {
    if owners == [] || owners[0].pid == pid then 0 else 1 + FirstWith(owners[1..], pid)
  }

  /** The child takes over the parent's ends, in the record it already has or else in the first free one. */
  function AfterFork(owners: seq<Owner>, child: Word32, parent: Word32): Option<seq<Owner>> {
    var mine := FirstWith(owners, child);
    var slot := if mine < |owners| then mine else FirstWith(owners, NO_PID);
    var from := FirstWith(owners, parent);
    if slot < |owners| && from < |owners| then Some(owners[slot := owners[from].(pid := child)]) else None
  }

  function Closed(o: Owner, mode: nat): Owner {
    var read := o.read && mode != O_READ;
    var write := o.write && mode != O_WRITE;
    Owner(if !read && !write then NO_PID else o.pid, read, write)
  }

  function AfterClose(owners: seq<Owner>, pid: Word32, mode: nat): Option<seq<Owner>> {
    var i := FirstWith(owners, pid);
    if i < |owners| then Some(owners[i := Closed(owners[i], mode)]) else None
  }

  predicate AllFree(owners: seq<Owner>) {
    forall i :: 0 <= i < |owners| ==> owners[i].pid == NO_PID
  }

  predicate HoldsEnd(owners: seq<Owner>, pid: Word32, mode: nat) {
    exists i :: 0 <= i < |owners| && owners[i].pid == pid && pid != NO_PID
        && (if mode == O_READ then owners[i].read else owners[i].write)
  }

  lemma {:induction false} FirstWithIs(owners: seq<Owner>, pid: Word32, i: nat)
    requires i <= |owners| && (i < |owners| ==> owners[i].pid == pid)
    requires forall j :: 0 <= j < i ==> owners[j].pid != pid
    ensures FirstWith(owners, pid) == i
  {
  }
}
