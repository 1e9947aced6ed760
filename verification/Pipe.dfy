/** The ordinary pipe: one ring, one read position for all readers, and the records of PipeEnds. */
module Pipes {
  import opened Kernel
  import opened Ring
  import opened PipeEnds
  import UserMemory

  /** Everything accepted so far, how much of it has been read, and who holds the ends. */
  datatype Fifo = Fifo(accepted: seq<Byte>, taken: nat, owners: seq<Owner>)

  /** `memOk` is the outcome of the check of the caller's buffer. */
  datatype Op =
    | Read(pid: Pid, mode: nat, count: nat, memOk: bool)
    | Write(pid: Pid, mode: nat, data: seq<Byte>, memOk: bool)
    | Fork(child: Pid, parent: Pid)
    | Close(pid: Pid, mode: nat)

  ghost predicate Bounded(s: Fifo) { s.taken <= |s.accepted| <= s.taken + RING_SIZE }

  /** The checks in front of both transfers, in their order. */
  function Refusal(s: Fifo, pid: Pid, canUse: bool, wantRead: bool, memOk: bool): Option<Errno> {
    var i := FirstWith(s.owners, pid);
    if !canUse then Some(EACCES)
    else if i == |s.owners| then Some(EOTHERS)
    else if !(if wantRead then s.owners[i].read else s.owners[i].write) then Some(EINVAL)
    else if !memOk then Some(EOTHERS)
    else None
  }

  function ReadOutcome(s: Fifo, pid: Pid, mode: nat, count: nat, memOk: bool): Result<seq<Byte>> {
    match Refusal(s, pid, CanRead(mode), true, memOk)
    case Some(e) => Err(e)
    case None =>
      var upTo := Min(s.taken + count, |s.accepted|);
      if s.taken <= upTo then Ok(s.accepted[s.taken..upTo]) else Ok([])
  }

  function WriteOutcome(s: Fifo, pid: Pid, mode: nat, data: seq<Byte>, memOk: bool): Result<seq<Byte>> {
    match Refusal(s, pid, CanWrite(mode), false, memOk)
    case Some(e) => Err(e)
    case None =>
      var space := s.taken + RING_SIZE - |s.accepted|;
      if 0 <= space then Ok(data[..Min(|data|, space)]) else Ok([])
  }

  function BytesRead(s: Fifo, op: Op): seq<Byte> {
    if op.Read? && ReadOutcome(s, op.pid, op.mode, op.count, op.memOk).Ok?
    then ReadOutcome(s, op.pid, op.mode, op.count, op.memOk).value else []
  }

  function BytesWritten(s: Fifo, op: Op): seq<Byte> {
    if op.Write? && WriteOutcome(s, op.pid, op.mode, op.data, op.memOk).Ok?
    then WriteOutcome(s, op.pid, op.mode, op.data, op.memOk).value else []
  }

  function OwnersAfter(s: Fifo, op: Op): seq<Owner> {
    match op
    case Fork(child, parent) => (match AfterFork(s.owners, child, parent) case Some(o) => o case None => s.owners)
    case Close(pid, mode) => (match AfterClose(s.owners, pid, mode) case Some(o) => o case None => s.owners)
    case _ => s.owners
  }

  function Step(s: Fifo, op: Op): Fifo {
    Fifo(s.accepted + BytesWritten(s, op), s.taken + |BytesRead(s, op)|, OwnersAfter(s, op))
  }

  function Run(s: Fifo, ops: seq<Op>): Fifo
    decreases |ops|
  {
    if ops == [] then s else Run(Step(s, ops[0]), ops[1..])
  }

  /** All bytes that readers get over a run, whoever they are, in order. */
  function AllRead(s: Fifo, ops: seq<Op>): seq<Byte>
    decreases |ops|
  {
    if ops == [] then [] else BytesRead(s, ops[0]) + AllRead(Step(s, ops[0]), ops[1..])
  }

  /** All bytes that writers get accepted over a run, in order. */
  function AllWritten(s: Fifo, ops: seq<Op>): seq<Byte>
    decreases |ops|
  {
    if ops == [] then [] else BytesWritten(s, ops[0]) + AllWritten(Step(s, ops[0]), ops[1..])
  }

  lemma {:induction false} StepIsBounded(s: Fifo, op: Op)
    requires Bounded(s)
    ensures Bounded(Step(s, op))
    ensures s.taken + |BytesRead(s, op)| <= |s.accepted|
    ensures BytesRead(s, op) == s.accepted[s.taken..s.taken + |BytesRead(s, op)|]
  {
    hide Refusal;
  }

  /**
   The pipe is a bounded FIFO: whoever reads and writes, the bytes read are the accepted bytes in order,
   none lost or repeated, and at most 4096 are in transit.
   */
  lemma {:induction false} PipeIsFifo(s: Fifo, ops: seq<Op>)
    requires Bounded(s)
    ensures var t := Run(s, ops);
            && Bounded(t) && s.taken <= t.taken
            && t.accepted == s.accepted + AllWritten(s, ops)
            && AllRead(s, ops) == t.accepted[s.taken..t.taken]
    decreases |ops|
  {
    hide BytesRead, BytesWritten;
    if ops != [] {
      StepIsBounded(s, ops[0]);
      PipeIsFifo(Step(s, ops[0]), ops[1..]);
      var t, mid := Run(s, ops), s.taken + |BytesRead(s, ops[0])|;
      assert t.accepted[s.taken..t.taken] == t.accepted[s.taken..mid] + t.accepted[mid..t.taken];
      assert t.accepted[s.taken..mid] == s.accepted[s.taken..mid];
    }
  }

  /** From the creation of a pipe on, what has been read is a prefix of what has been accepted. */
  lemma {:induction false} ReadIsPrefixOfWritten(creator: Pid, ops: seq<Op>)
    ensures var s := Fifo([], 0, NewOwners(creator));
            && AllRead(s, ops) <= AllWritten(s, ops)
            && |AllWritten(s, ops)| <= |AllRead(s, ops)| + RING_SIZE
  {
    var s := Fifo([], 0, NewOwners(creator));
    PipeIsFifo(s, ops);
    assert [] + AllWritten(s, ops) == AllWritten(s, ops);
  }

  // ----- what each call does -----

  /** The checks in front of a transfer, in their order. */
  lemma {:induction false} RefusedIffChecksFail(s: Fifo, pid: Pid, canUse: bool, wantRead: bool, memOk: bool)
    ensures var mode := if wantRead then O_READ else O_WRITE;
            Refusal(s, pid, canUse, wantRead, memOk) ==
            if !canUse then Some(EACCES)
            else if forall i :: 0 <= i < |s.owners| ==> s.owners[i].pid != pid then Some(EOTHERS)
            else if !FirstHolds(s.owners, pid, mode) then Some(EINVAL)
            else if !memOk then Some(EOTHERS)
            else None
  {
  }

  /** The first record of `pid` has that end open. */
  predicate FirstHolds(owners: seq<Owner>, pid: Word32, mode: nat) {
    exists i :: 0 <= i < |owners| && owners[i].pid == pid && (forall j :: 0 <= j < i ==> owners[j].pid != pid)
        && (if mode == O_READ then owners[i].read else owners[i].write)
  }

  /** A read that is not refused delivers `count` bytes or all that are in transit, and moves nothing else. */
  lemma {:induction false} ReadDeliversAllItMay(s: Fifo, pid: Pid, mode: nat, count: nat, memOk: bool)
    requires Bounded(s)
    ensures var r, t := ReadOutcome(s, pid, mode, count, memOk), Step(s, Op.Read(pid, mode, count, memOk));
            match Refusal(s, pid, CanRead(mode), true, memOk)
            case Some(e) => r == Err(e) && t == s
            case None =>
              && r.Ok? && |r.value| <= count && t == s.(taken := s.taken + |r.value|)
              && (|r.value| == count || t.taken == |t.accepted|)
              && t.taken <= |t.accepted| && r.value == t.accepted[s.taken..t.taken]
  {
    hide Refusal;
    assert s.accepted + [] == s.accepted;
  }

  /** A write that is not refused takes all bytes or fills the ring. */
  lemma {:induction false} WriteTakesAllThatFits(s: Fifo, pid: Pid, mode: nat, data: seq<Byte>, memOk: bool)
    requires Bounded(s)
    ensures var r, t := WriteOutcome(s, pid, mode, data, memOk), Step(s, Op.Write(pid, mode, data, memOk));
            match Refusal(s, pid, CanWrite(mode), false, memOk)
            case Some(e) => r == Err(e) && t == s
            case None =>
              && r.Ok? && r.value <= data && t == s.(accepted := s.accepted + r.value)
              && (r.value == data || |t.accepted| == t.taken + RING_SIZE)
  {
    hide Refusal;
    assert s.accepted + [] == s.accepted;
  }

  /** A message that fits arrives whole, at whichever of the two processes reads first. */
  lemma {:induction false} MessageArrives(creator: Pid, child: Pid, data: seq<Byte>, reader: Pid)
    requires child != creator && |data| <= RING_SIZE && (reader == creator || reader == child)
    ensures var s := Step(Step(Fifo([], 0, NewOwners(creator)), Op.Write(creator, O_WRITE, data, true)),
                          Op.Fork(child, creator));
            && ReadOutcome(s, reader, O_READ, |data|, true) == Ok(data)
            && ReadOutcome(Step(s, Op.Read(reader, O_READ, |data|, true)), reader, O_READ, 1, true) == Ok([])
  {
    var owners := NewOwners(creator);
    assert FirstWith(owners, creator) == 0;
    assert owners[1].pid == NO_PID;
    FirstWithIs(owners, NO_PID, 1);
    forall j | 0 <= j < |owners| ensures owners[j].pid != child {
      assert j > 0 ==> owners[j] == NOBODY;
    }
    FirstWithIs(owners, child, |owners|);
    var forked := owners[1 := owners[0].(pid := child)];
    assert AfterFork(owners, child, creator) == Some(forked);
    FirstWithIs(forked, creator, 0);
    FirstWithIs(forked, child, 1);
    hide FirstWith;
    var s0 := Fifo([], 0, owners);
    var s1 := Step(s0, Op.Write(creator, O_WRITE, data, true));
    assert data[..|data|] == data && [] + data == data;
    assert s1 == Fifo(data, 0, owners);
    var s := Step(s1, Op.Fork(child, creator));
    assert s == Fifo(data, 0, forked);
    assert data[0..|data|] == data;
  }

  /** create_pipe gives both ends to its caller. */
  function NewOwners(creator: Word32): (owners: seq<Owner>)
    ensures |owners| == MAX_PIPE_PROC
  {
    [Owner(creator, true, true)] + seq(15, _ => NOBODY)
  }

  class Pipe {
    const buff: array<Byte>
    const owners: array<Owner>
    var buffLen: int
    var readPos: int
    var writePos: int
    ghost var accepted: seq<Byte>
    ghost var taken: nat

    ghost predicate Valid()
      reads this, buff, owners
    {
      && owners.Length == MAX_PIPE_PROC
      && Holds(buff[..], accepted, taken)
      && buffLen == |accepted| - taken && readPos == Slot(taken) && writePos == Slot(|accepted|)
    }

    ghost function View(): Fifo
      reads this, owners
    {
      Fifo(accepted, taken, owners[..])
    }

    /** alloc_pipe_info, and the record that create_pipe fills. */
    constructor (creator: Pid)
      ensures Valid() && fresh(buff) && fresh(owners)
      ensures View() == Fifo([], 0, NewOwners(creator))
    {
      buff := new Byte[RING_SIZE](_ => 0);
      owners := new Owner[MAX_PIPE_PROC](_ => NOBODY);
      buffLen, readPos, writePos := 0, 0, 0;
      accepted, taken := [], 0;
      new;
      owners[0] := Owner(creator, true, true);
      assert owners[..] == NewOwners(creator);
    }

    method Find(pid: Word32) returns (i: nat)
      requires owners.Length == MAX_PIPE_PROC
      ensures i == FirstWith(owners[..], pid)
    {
      i := 0;
      while i < MAX_PIPE_PROC && owners[i].pid != pid
        invariant i <= MAX_PIPE_PROC && forall j :: 0 <= j < i ==> owners[j].pid != pid
      {
        i := i + 1;
      }
      FirstWithIs(owners[..], pid, i);
    }

    method Fork(child: Pid, parent: Pid) returns (r: Result<()>)
      requires owners.Length == MAX_PIPE_PROC
      modifies owners
      ensures match AfterFork(old(owners[..]), child, parent)
              case Some(o) => r == Ok(()) && owners[..] == o
              case None => r == Err(EOTHERS) && owners[..] == old(owners[..])
    {
      var slot := Find(child);
      if slot == MAX_PIPE_PROC {
        slot := Find(NO_PID);
      }
      if slot == MAX_PIPE_PROC {
        return Err(EOTHERS);
      }
      var from := Find(parent);
      if from == MAX_PIPE_PROC {
        return Err(EOTHERS);
      }
      owners[slot] := owners[from].(pid := child);
      return Ok(());
    }

    /** pipe_close up to the release of the file object; the pages go when the last record goes. */
    method Close(pid: Pid, mode: nat) returns (r: Result<()>, pagesFreed: bool)
      requires owners.Length == MAX_PIPE_PROC
      modifies owners
      ensures match AfterClose(old(owners[..]), pid, mode)
              case Some(o) => r == Ok(()) && owners[..] == o && pagesFreed == AllFree(o)
              case None => r == Err(EOTHERS) && owners[..] == old(owners[..]) && !pagesFreed
    {
      var i := Find(pid);
      if i == MAX_PIPE_PROC {
        return Err(EOTHERS), false;
      }
      ghost var was := owners[..];
      if mode == O_READ {
        owners[i] := owners[i].(read := false);
      }
      if mode == O_WRITE {
        owners[i] := owners[i].(write := false);
      }
      if !owners[i].read && !owners[i].write {
        owners[i] := owners[i].(pid := NO_PID);
      }
      assert owners[..] == was[i := Closed(was[i], mode)];
      var allClosed := true;
      for k := 0 to MAX_PIPE_PROC
        invariant allClosed <==> forall j :: 0 <= j < k ==> owners[j].pid == NO_PID
      {
        if owners[k].pid != NO_PID {
          allClosed := false;
        }
      }
      return Ok(()), allClosed;
    }

    /** The caller's buffer is `out`, mapped at `addr` of the memory `mem`; filling it takes the write permission. */
    method Read(pid: Pid, mode: nat, out: array<Byte>, count: Word32, mem: UserMemory.UserMap, addr: UserMemory.Word64)
      returns (r: Result<nat>)
      requires Valid() && out != buff && count <= out.Length && |mem.mms| == UserMemory.MAX_MM_SEGS
      modifies this, out
      ensures Valid()
      ensures var memOk := UserMemory.FirstPermits(UserMemory.Spans(mem), addr, count, 2);
              View() == Step(old(View()), Op.Read(pid, mode, count, memOk))
      ensures match ReadOutcome(old(View()), pid, mode, count,
          UserMemory.FirstPermits(UserMemory.Spans(mem), addr, count, 2))
              case Err(e) => r == Err(e) && out[..] == old(out[..])
              case Ok(bytes) => r == Ok(|bytes|) && |bytes| <= count
                                && out[..|bytes|] == bytes && out[|bytes|..] == old(out[|bytes|..])
    {
      hide Slot, FirstWith, UserMemory.FirstPermits, UserMemory.Spans, Holds, CanRead;
      HoldsBounds(buff[..], accepted, taken);
      assert accepted + [] == accepted;
      if !CanRead(mode) {
        return Err(EACCES);
      }
      var i := Find(pid);
      if i == MAX_PIPE_PROC {
        return Err(EOTHERS);
      }
      if !owners[i].read {
        return Err(EINVAL);
      }
      var memOk := UserMemory.IsValidMemRange(mem, addr, count, 2);
      if !memOk {
        return Err(EOTHERS);
      }
      var bytesRead := if AsU32(buffLen) >= count then count else buffLen;
      SlotAdds(taken, bytesRead);
      ghost var ring := buff[..];
      CopyOut(buff, readPos, out, bytesRead, accepted, taken, taken);
      assert buff[..] == ring;
      HoldsLess(ring, accepted, taken, taken + bytesRead);
      buffLen := buffLen - bytesRead;
      readPos := Slot(readPos + bytesRead);
      taken := taken + bytesRead;
      return Ok(bytesRead);
    }

    /**
     The caller's buffer is `data`, mapped at `addr` of the memory `mem`; copying from it takes the read
     permission.
     */
    method Write(pid: Pid, mode: nat, data: array<Byte>, count: Word32, mem: UserMemory.UserMap,
        addr: UserMemory.Word64)
      returns (r: Result<nat>)
      requires Valid() && data != buff && count <= data.Length && |mem.mms| == UserMemory.MAX_MM_SEGS
      modifies this, buff
      ensures Valid()
      ensures var memOk := UserMemory.FirstPermits(UserMemory.Spans(mem), addr, count, 1);
              View() == Step(old(View()), Op.Write(pid, mode, data[..count], memOk))
      ensures match WriteOutcome(old(View()), pid, mode, data[..count],
                                 UserMemory.FirstPermits(UserMemory.Spans(mem), addr, count, 1))
              case Err(e) => r == Err(e)
              case Ok(bytes) => r == Ok(|bytes|)
    {
      hide Slot, FirstWith, UserMemory.FirstPermits, UserMemory.Spans, Holds, CanWrite;
      HoldsBounds(buff[..], accepted, taken);
      assert accepted + [] == accepted;
      if !CanWrite(mode) {
        return Err(EACCES);
      }
      var i := Find(pid);
      if i == MAX_PIPE_PROC {
        return Err(EOTHERS);
      }
      if !owners[i].write {
        return Err(EINVAL);
      }
      var memOk := UserMemory.IsValidMemRange(mem, addr, count, 1);
      if !memOk {
        return Err(EOTHERS);
      }
      var space := RING_SIZE - buffLen;
      var written := if AsU32(space) >= count then count else space;
      SlotAdds(|accepted|, written);
      CopyIn(buff, writePos, data, written, accepted, taken);
      assert data[..count][..written] == data[..written];
      buffLen := buffLen + written;
      writePos := Slot(writePos + written);
      accepted := accepted + data[..written];
      return Ok(written);
    }
  }
}
