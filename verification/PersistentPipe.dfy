/**
 The persistent pipe as the kernel stores it: a 4096-byte ring, its bounds, and sixteen
 per-process records, updated in place. The ghost field `spec` is the log that it represents.
 */
module PersistentPipes {
  import opened Kernel
  import opened Ring
  import opened PersistentLog
  import PidSlots

  datatype ProcInfo = ProcInfo(pid: Word32, readOpen: bool, writeOpen: bool, readPos: int, bytesRead: int)

  const UNASSIGNED := ProcInfo(NO_PID, false, false, 0, 0)

  /** A record stores its process's offset relative to the ring and to the reclaim mark. */
  ghost predicate RecordMatches(rec: ProcInfo, s: LogPipe)
    requires rec.pid != NO_PID && rec.pid in s.ends
  {
    var c := s.ends[rec.pid];
    && rec.readOpen == c.read.Some?
    && rec.writeOpen == c.write
    && (c.read.Some? ==> rec.readPos == Slot(c.read.value) && rec.bytesRead == c.read.value - s.base)
  }

  function Pids(recs: seq<ProcInfo>): seq<Word32> {
    seq(|recs|, i requires 0 <= i < |recs| => recs[i].pid)
  }

  ghost predicate RecordsMatch(recs: seq<ProcInfo>, s: LogPipe) {
    && |recs| == MAX_PPIPE_PROC
    && PidSlots.Distinct(Pids(recs))
    && (forall i :: 0 <= i < |recs| ==>
          if recs[i].pid == NO_PID then !recs[i].readOpen
          else recs[i].pid in s.ends && RecordMatches(recs[i], s))
    && forall p :: p in s.ends ==> p in Pids(recs)
  }

  /** The records run out exactly when sixteen processes have held the pipe. */
  lemma {:induction false} FreeRecordIffRoom(recs: seq<ProcInfo>, s: LogPipe)
    requires RecordsMatch(recs, s)
    ensures NO_PID in Pids(recs) <==> |s.ends| < MAX_PPIPE_PROC
  {
    var pids := Pids(recs);
    PidSlots.FreeIffNotFull(pids);
    forall p: Word32 ensures p in PidSlots.Owners(pids) <==> p in s.ends {
      PidSlots.OwnersAreEntries(pids, p);
    }
    assert PidSlots.Owners(pids) == set p | p in s.ends :: p as Word32;
    SameSize(s.ends.Keys, PidSlots.Owners(pids));
  }

  lemma {:induction false} SameSize(a: set<Pid>, b: set<Word32>)
    requires forall p: Word32 :: p in b <==> p in a
    ensures |a| == |b|
  {
    if a == {} {
      assert b == {};
    } else {
      var p :| p in a;
      SameSize(a - {p}, b - {p});
    }
  }

  /** What the search loop tells the handlers. */
  lemma {:induction false} Lookup(recs: seq<ProcInfo>, s: LogPipe, pid: Pid, i: nat)
    requires RecordsMatch(recs, s) && i <= |recs|
    requires i < |recs| ==> recs[i].pid == pid
    requires i == |recs| <==> pid !in Pids(recs)
    ensures i < |recs| <==> pid in s.ends
    ensures i < |recs| ==> && recs[i].readOpen == s.ends[pid].read.Some?
                           && recs[i].writeOpen == s.ends[pid].write
  {
    if i < |recs| {
      assert RecordMatches(recs[i], s);
    }
  }

  lemma {:induction false} RecordOf(recs: seq<ProcInfo>, s: LogPipe, i: nat)
    requires RecordsMatch(recs, s) && i < |recs| && recs[i].pid != NO_PID
    ensures recs[i].pid in s.ends && RecordMatches(recs[i], s)
  {
  }

  class PersistentPipe {
    const buff: array<Byte>
    const procs: array<ProcInfo>
    var buffLen: int
    var buffStart: int
    var buffEnd: int
    ghost var spec: LogPipe

    ghost predicate Valid()
      reads this, buff, procs
    {
      && procs.Length == MAX_PPIPE_PROC
      && WellFormed(spec)
      && Holds(buff[..], spec.log, spec.base)
      && buffLen == |spec.log| - spec.base
      && buffStart == Slot(spec.base)
      && buffEnd == Slot(|spec.log|)
      && RecordsMatch(procs[..], spec)
    }

    /** alloc_ppipe_info, and the record that create_persistent_pipe fills for the creator. */
    constructor (creator: Pid)
      ensures Valid() && fresh(buff) && fresh(procs)
      ensures spec == Created(creator)
    {
      buff := new Byte[RING_SIZE](_ => 0);
      var recs := new ProcInfo[MAX_PPIPE_PROC](_ => UNASSIGNED);
      procs := recs;
      buffLen, buffStart, buffEnd := 0, 0, 0;
      spec := Created(creator);
      new;
      procs[0] := UNASSIGNED.(pid := creator, readOpen := true, writeOpen := true);
      assert Pids(procs[..])[0] == creator;
      assert |spec.ends.Keys| == |{creator}|;
    }

    /** The search loop of every handler: the first record of `pid`, or MAX_PPIPE_PROC. */
    method FindRecord(pid: Word32) returns (i: nat)
      requires procs.Length == MAX_PPIPE_PROC
      ensures i <= MAX_PPIPE_PROC
      ensures i < MAX_PPIPE_PROC ==> procs[i].pid == pid
      ensures i == MAX_PPIPE_PROC <==> pid !in Pids(procs[..])
    {
      i := 0;
      while i < MAX_PPIPE_PROC && procs[i].pid != pid
        invariant i <= MAX_PPIPE_PROC
        invariant pid !in Pids(procs[..])[..i]
      {
        i := i + 1;
      }
      if i < MAX_PPIPE_PROC { assert Pids(procs[..])[i] == pid; }
    }

    method Fork(child: Pid, parent: Pid) returns (r: Result<()>)
      requires Valid()
      modifies procs, this`spec
      ensures Valid()
      ensures spec == AfterFork(old(spec), child, parent)
      ensures r == if CanFork(old(spec), child, parent) then Ok(()) else Err(EOTHERS)
    {
      FreeRecordIffRoom(procs[..], spec);
      var slot := FindRecord(child);
      if slot == MAX_PPIPE_PROC {
        slot := FindRecord(NO_PID);
      }
      if slot == MAX_PPIPE_PROC {
        return Err(EOTHERS);
      }
      var from := FindRecord(parent);
      if from == MAX_PPIPE_PROC {
        return Err(EOTHERS);
      }
      ghost var before := procs[..];
      assert Pids(before)[from] == parent;
      procs[slot] := procs[from].(pid := child);
      spec := AfterFork(spec, child, parent);
      StepKeepsWellFormed(old(spec), PersistentLog.Fork(child, parent));
      RecordReplaced(before, slot, procs[slot], old(spec), spec);
      return Ok(());
    }

    /**
     Closing clears one flag. Whatever end is closed, the caller's record stays assigned, so the test
     for an entirely unassigned table never succeeds and the two pages are never given back.
     */
    method Close(pid: Pid, mode: nat) returns (r: Result<()>, pagesFreed: bool)
      requires Valid()
      modifies procs, this`spec
      ensures Valid()
      ensures spec == AfterClose(old(spec), pid, mode)
      ensures r == if pid in old(spec.ends) then Ok(()) else Err(EOTHERS)
      ensures !pagesFreed
    {
      hide RecordsMatch, RecordMatches, WellFormed, Holds, Slot, AfterClose;
      ghost var recs := procs[..];
      var slot := FindRecord(pid);
      Lookup(recs, spec, pid, slot);
      CloseKeepsRecords(recs, spec, pid, slot, mode);
      if slot == MAX_PPIPE_PROC {
        return Err(EOTHERS), false;
      }
      if mode == O_READ {
        procs[slot] := procs[slot].(readOpen := false);
      }
      if mode == O_WRITE {
        procs[slot] := procs[slot].(writeOpen := false);
      }
      assert procs[..] == recs[slot := Closed(recs[slot], mode)];
      var allClosed := true;
      for i := 0 to MAX_PPIPE_PROC
        invariant slot < i ==> !allClosed
      {
        if procs[i].pid != NO_PID {
          allClosed := false;
        }
      }
      spec := AfterClose(spec, pid, mode);
      return Ok(()), allClosed;
    }

    /** The second loop of a flush. */
    method Rebase(n: int)
      modifies procs
      ensures procs[..] == Rebased(old(procs[..]), n)
    {
      ghost var recs := procs[..];
      for i := 0 to procs.Length
        invariant forall j :: 0 <= j < i ==> procs[j] == Rebased(recs, n)[j]
        invariant forall j :: i <= j < procs.Length ==> procs[j] == recs[j]
      {
        if procs[i].readOpen {
          procs[i] := procs[i].(bytesRead := procs[i].bytesRead - n);
        }
      }
    }

    method Flush() returns (reclaimed: int)
      requires Valid()
      modifies this, procs
      ensures Valid()
      ensures spec == AfterFlush(old(spec))
      ensures reclaimed == Reclaimable(old(spec))
    {
      hide RecordsMatch, Holds, Slot, LargestPrefix, WellFormed;
      OpenRecordsBounded(procs[..], spec);
      SlotAdds(spec.base, Reclaimable(spec));
      reclaimed := 0;
      var readByAll := buffLen;
      var allClosed := true;
      ghost var recs := procs[..];
      for i := 0 to MAX_PPIPE_PROC
        invariant 0 <= readByAll <= buffLen
        invariant allClosed <==> forall j :: 0 <= j < i ==> !recs[j].readOpen
        invariant forall j :: 0 <= j < i && recs[j].readOpen ==> readByAll <= recs[j].bytesRead
        invariant readByAll == buffLen || exists j :: 0 <= j < i && recs[j].readOpen && readByAll == recs[j].bytesRead
      {
        if procs[i].readOpen {
          allClosed := false;
          if procs[i].bytesRead < readByAll {
            readByAll := procs[i].bytesRead;
          }
        }
      }
      if !allClosed {
        reclaimed := readByAll;
      }
      MinimumIsReclaimable(recs, spec, readByAll, allClosed);
      buffStart := Slot(buffStart + reclaimed);
      buffLen := buffLen - reclaimed;
      Rebase(reclaimed);
      RebasedMatches(recs, spec, reclaimed);
      RingOutlivesFlush(buff[..], spec);
      spec := AfterFlush(spec);
    }

    method Read(pid: Pid, mode: nat, out: array<Byte>, count: Word32) returns (r: Result<nat>)
      requires Valid() && out != buff && count <= out.Length
      modifies procs, this`spec, out
      ensures Valid()
      ensures spec == AfterRead(old(spec), pid, mode, count)
      ensures match ReadOutcome(old(spec), pid, mode, count)
              case Err(e) => r == Err(e) && out[..] == old(out[..])
              case Ok(bytes) => r == Ok(|bytes|) && |bytes| <= count
                                && out[..|bytes|] == bytes && out[|bytes|..] == old(out[|bytes|..])
    {
      hide RecordsMatch, RecordMatches, WellFormed, Holds, Slot, CanRead, AfterRead;
      RefusedCallsChangeNothing(spec, pid, mode, count, []);
      if !CanRead(mode) {
        return Err(EACCES);
      }
      ghost var recs := procs[..];
      var slot := FindRecord(pid);
      Lookup(recs, spec, pid, slot);
      if slot == MAX_PPIPE_PROC {
        return Err(EOTHERS);
      }
      if !procs[slot].readOpen {
        return Err(EINVAL);
      }
      ReadKeepsRecords(recs, spec, slot, mode, count);
      var readPos := procs[slot].readPos;
      var readLimit := buffLen - procs[slot].bytesRead;
      var bytesRead := if AsU32(readLimit) >= count then count else readLimit;
      CopyOut(buff, readPos, out, bytesRead, spec.log, spec.base, spec.ends[pid].read.value);
      procs[slot] := Advanced(procs[slot], bytesRead);
      assert procs[..] == recs[slot := Advanced(recs[slot], bytesRead)];
      spec := AfterRead(spec, pid, mode, count);
      return Ok(bytesRead);
    }

    method Write(pid: Pid, mode: nat, data: array<Byte>, count: Word32) returns (r: Result<nat>)
      requires Valid() && data != buff && count <= data.Length
      modifies buff, this
      ensures Valid()
      ensures spec == AfterWrite(old(spec), pid, mode, data[..count])
      ensures match WriteOutcome(old(spec), pid, mode, data[..count])
              case Err(e) => r == Err(e)
              case Ok(bytes) => r == Ok(|bytes|)
    {
      hide RecordsMatch, RecordMatches, WellFormed, Holds, Slot, CanWrite, AfterWrite;
      RefusedCallsChangeNothing(spec, pid, mode, 0, data[..count]);
      if !CanWrite(mode) {
        return Err(EACCES);
      }
      ghost var recs, bytes, next := procs[..], data[..count], AfterWrite(spec, pid, mode, data[..count]);
      var slot := FindRecord(pid);
      Lookup(recs, spec, pid, slot);
      if slot == MAX_PPIPE_PROC {
        return Err(EOTHERS);
      }
      if !procs[slot].writeOpen {
        return Err(EINVAL);
      }
      WriteFollows(recs, spec, pid, mode, bytes);
      SlotAdds(|spec.log|, |WriteOutcome(spec, pid, mode, bytes).value|);
      var writePos := buffEnd;
      var space := RING_SIZE - buffLen;
      var written := if AsU32(space) >= count then count else space;
      CopyIn(buff, writePos, data, written, spec.log, spec.base);
      assert bytes[..written] == data[..written];
      buffLen := buffLen + written;
      buffEnd := Slot(writePos + written);
      spec := next;
      assert procs[..] == recs;
      return Ok(written);
    }
  }

  /** Rewriting one record follows a change of one process's ends. */
  lemma {:induction false} RecordReplaced(recs: seq<ProcInfo>, slot: nat, rec: ProcInfo, s: LogPipe, t: LogPipe)
    requires RecordsMatch(recs, s) && slot < |recs| && rec.pid != NO_PID
    requires recs[slot].pid == rec.pid || (recs[slot].pid == NO_PID && rec.pid !in Pids(recs))
    requires t.base == s.base && rec.pid in t.ends && t.ends == s.ends[rec.pid := t.ends[rec.pid]]
    requires RecordMatches(rec, t)
    ensures RecordsMatch(recs[slot := rec], t)
  {
    var next := recs[slot := rec];
    assert Pids(next) == Pids(recs)[slot := rec.pid];
    forall i | 0 <= i < |recs| && i != slot ensures recs[i].pid != rec.pid {
      assert Pids(recs)[i] == recs[i].pid && Pids(recs)[slot] == recs[slot].pid;
    }
    forall p | p in t.ends ensures p in Pids(next) {
      if p == rec.pid {
        assert Pids(next)[slot] == p;
      } else {
        var i :| 0 <= i < |recs| && Pids(recs)[i] == p;
        assert Pids(next)[i] == p;
      }
    }
  }

  function Advanced(rec: ProcInfo, n: int): ProcInfo {
    rec.(readPos := Slot(rec.readPos + n), bytesRead := rec.bytesRead + n)
  }

  /** The clamped count of a read is the number of log bytes that the caller is due. */
  lemma {:induction false} ReadFollows(rec: ProcInfo, s: LogPipe, mode: nat, count: Word32)
    requires WellFormed(s) && rec.pid != NO_PID && rec.pid in s.ends && RecordMatches(rec, s)
    requires CanRead(mode) && rec.readOpen
    ensures var off := s.ends[rec.pid].read.value;
            var limit := |s.log| - s.base - rec.bytesRead;
            var n := if AsU32(limit) >= count then count else limit;
            var t := s.(ends := s.ends[rec.pid := s.ends[rec.pid].(read := Some(off + n))]);
            && 0 <= n <= count && rec.readPos == Slot(off) && s.base <= off && off + n <= |s.log|
            && ReadOutcome(s, rec.pid, mode, count) == Ok(s.log[off..off + n])
            && AfterRead(s, rec.pid, mode, count) == t && WellFormed(t)
            && RecordMatches(Advanced(rec, n), t)
  {
    hide CanRead, Slot, WellFormed;
    OffsetInLog(s, rec.pid);
    var off := s.ends[rec.pid].read.value;
    var n := Min(count, |s.log| - off);
    SetEndKeepsWellFormed(s, rec.pid, s.ends[rec.pid].(read := Some(off + n)));
    SlotAdds(off, n);
  }

  function Closed(rec: ProcInfo, mode: nat): ProcInfo {
    if mode == O_READ then rec.(readOpen := false)
    else if mode == O_WRITE then rec.(writeOpen := false)
    else rec
  }

  lemma {:induction false} CloseKeepsRecords(recs: seq<ProcInfo>, s: LogPipe, pid: Pid, slot: nat, mode: nat)
    requires WellFormed(s) && RecordsMatch(recs, s) && slot <= |recs|
    requires if slot < |recs| then recs[slot].pid == pid else pid !in s.ends
    ensures WellFormed(AfterClose(s, pid, mode))
    ensures AfterClose(s, pid, mode).log == s.log && AfterClose(s, pid, mode).base == s.base
    ensures if slot < |recs| then RecordsMatch(recs[slot := Closed(recs[slot], mode)], AfterClose(s, pid, mode))
            else AfterClose(s, pid, mode) == s
  {
    hide RecordsMatch, WellFormed, Slot;
    CloseKeepsWellFormed(s, pid, mode);
    if slot < |recs| {
      RecordOf(recs, s, slot);
      RecordReplaced(recs, slot, Closed(recs[slot], mode), s, AfterClose(s, pid, mode));
    }
  }

  lemma {:induction false} ReadKeepsRecords(recs: seq<ProcInfo>, s: LogPipe, slot: nat, mode: nat, count: Word32)
    requires WellFormed(s) && RecordsMatch(recs, s) && slot < |recs| && recs[slot].pid != NO_PID
    requires CanRead(mode) && recs[slot].readOpen
    ensures var rec, pid := recs[slot], recs[slot].pid;
            && pid in s.ends && s.ends[pid].read.Some?
            && var off, limit := s.ends[pid].read.value, |s.log| - s.base - rec.bytesRead;
            var n := if AsU32(limit) >= count then count else limit;
            && 0 <= n <= count && rec.readPos == Slot(off) && s.base <= off && off + n <= |s.log|
            && ReadOutcome(s, pid, mode, count) == Ok(s.log[off..off + n])
            && AfterRead(s, pid, mode, count).log == s.log && AfterRead(s, pid, mode, count).base == s.base
            && WellFormed(AfterRead(s, pid, mode, count))
            && RecordsMatch(recs[slot := Advanced(rec, n)], AfterRead(s, pid, mode, count))
  {
    hide RecordsMatch, WellFormed, AfterRead, ReadOutcome, Slot;
    var rec := recs[slot];
    RecordOf(recs, s, slot);
    ReadFollows(rec, s, mode, count);
    var n := |ReadOutcome(s, rec.pid, mode, count).value|;
    RecordReplaced(recs, slot, Advanced(rec, n), s, AfterRead(s, rec.pid, mode, count));
  }

  /** The clamped count of a write is the number of bytes that fit. */
  lemma {:induction false} WriteFollows(recs: seq<ProcInfo>, s: LogPipe, pid: Pid, mode: nat, data: seq<Byte>)
    requires WellFormed(s) && RecordsMatch(recs, s) && |data| < U32_RANGE
    requires CanWrite(mode) && pid in s.ends && s.ends[pid].write
    ensures var space := RING_SIZE - (|s.log| - s.base);
            var n := if AsU32(space) >= |data| then |data| else space;
            && 0 <= n <= |data| && |s.log| + n <= s.base + RING_SIZE
            && WriteOutcome(s, pid, mode, data) == Ok(data[..n])
            && AfterWrite(s, pid, mode, data) == s.(log := s.log + data[..n])
            && WellFormed(AfterWrite(s, pid, mode, data))
            && RecordsMatch(recs, AfterWrite(s, pid, mode, data))
  {
    var t := AfterWrite(s, pid, mode, data);
    forall i | 0 <= i < |recs| && recs[i].pid != NO_PID ensures RecordMatches(recs[i], t) {
      assert RecordMatches(recs[i], s);
    }
  }

  /** The records after a flush of `n` bytes. */
  function Rebased(recs: seq<ProcInfo>, n: int): seq<ProcInfo> {
    seq(|recs|, i requires 0 <= i < |recs| =>
      if recs[i].readOpen then recs[i].(bytesRead := recs[i].bytesRead - n) else recs[i])
  }

  lemma {:induction false} RebasedMatches(recs: seq<ProcInfo>, s: LogPipe, n: nat)
    requires WellFormed(s) && RecordsMatch(recs, s) && n == Reclaimable(s)
    ensures WellFormed(AfterFlush(s)) && RecordsMatch(Rebased(recs, n), AfterFlush(s))
  {
    StepKeepsWellFormed(s, PersistentLog.Flush);
    assert Pids(Rebased(recs, n)) == Pids(recs);
    forall i | 0 <= i < |recs| && recs[i].pid != NO_PID ensures RecordMatches(Rebased(recs, n)[i], AfterFlush(s)) {
      assert RecordMatches(recs[i], s);
    }
  }

  /** Raising the mark forgets bytes of the log but moves none. */
  lemma {:induction false} RingOutlivesFlush(ring: seq<Byte>, s: LogPipe)
    requires WellFormed(s) && Holds(ring, s.log, s.base)
    ensures Holds(ring, AfterFlush(s).log, AfterFlush(s).base)
  {
    StepKeepsWellFormed(s, PersistentLog.Flush);
  }

  lemma {:induction false} OpenRecordsBounded(recs: seq<ProcInfo>, s: LogPipe)
    requires WellFormed(s) && RecordsMatch(recs, s)
    ensures 0 <= |s.log| - s.base
    ensures forall j :: 0 <= j < |recs| && recs[j].readOpen ==> 0 <= recs[j].bytesRead <= |s.log| - s.base
  {
    forall j | 0 <= j < |recs| && recs[j].readOpen ensures 0 <= recs[j].bytesRead <= |s.log| - s.base {
      assert RecordMatches(recs[j], s);
    }
  }

  lemma {:induction false} ReaderIffOpenRecord(recs: seq<ProcInfo>, s: LogPipe)
    requires RecordsMatch(recs, s)
    ensures HasReader(s) <==> exists j :: 0 <= j < |recs| && recs[j].readOpen
  {
    if HasReader(s) {
      var p :| p in s.ends && s.ends[p].read.Some?;
      var i :| 0 <= i < |recs| && Pids(recs)[i] == p;
      assert RecordMatches(recs[i], s);
    }
    if j :| 0 <= j < |recs| && recs[j].readOpen {
      assert RecordMatches(recs[j], s);
    }
  }

  lemma {:induction false} ReadByAllIffRecordsSay(recs: seq<ProcInfo>, s: LogPipe, m: int)
    requires RecordsMatch(recs, s)
    ensures ReadByAll(s, s.base + m) <==> forall j :: 0 <= j < |recs| && recs[j].readOpen ==> m <= recs[j].bytesRead
  {
    if forall j :: 0 <= j < |recs| && recs[j].readOpen ==> m <= recs[j].bytesRead {
      forall p | p in s.ends && s.ends[p].read.Some? ensures s.base + m <= s.ends[p].read.value {
        var i :| 0 <= i < |recs| && Pids(recs)[i] == p;
        assert RecordMatches(recs[i], s);
      }
    }
    if ReadByAll(s, s.base + m) {
      forall j | 0 <= j < |recs| && recs[j].readOpen ensures m <= recs[j].bytesRead {
        assert RecordMatches(recs[j], s);
      }
    }
  }

  /** The minimum that the flush loop computes is the largest prefix that every open reader has read. */
  lemma {:induction false} MinimumIsReclaimable(recs: seq<ProcInfo>, s: LogPipe, m: int, allClosed: bool)
    requires WellFormed(s) && RecordsMatch(recs, s) && 0 <= m <= |s.log| - s.base
    requires allClosed <==> forall j :: 0 <= j < |recs| ==> !recs[j].readOpen
    requires forall j :: 0 <= j < |recs| && recs[j].readOpen ==> m <= recs[j].bytesRead
    requires m == |s.log| - s.base || exists j :: 0 <= j < |recs| && recs[j].readOpen && m == recs[j].bytesRead
    ensures Reclaimable(s) == if allClosed then 0 else m
  {
    hide RecordsMatch, WellFormed, ReadByAll, HasReader, LargestPrefix;
    ReaderIffOpenRecord(recs, s);
    var most := LargestPrefix(s, |s.log| - s.base);
    LargestPrefixIsLargest(s, |s.log| - s.base, m);
    ReadByAllIffRecordsSay(recs, s, m);
    ReadByAllIffRecordsSay(recs, s, most);
  }
}
