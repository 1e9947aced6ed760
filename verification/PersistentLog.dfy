/**
 The meaning of a persistent pipe: an append-only log with one shared write end, a mark below
 which space has been reclaimed, and for every process that ever held the pipe a read
 position counted from the first byte ever written.
 */
module PersistentLog {
  import opened Kernel
  import opened Ring

  const MAX_PPIPE_PROC: nat := 16

  /** `read` is the absolute offset of the next byte to read while the read end is open. */
  datatype Cursor = Cursor(read: Option<nat>, write: bool)
  datatype LogPipe = LogPipe(log: seq<Byte>, base: nat, ends: map<Pid, Cursor>)

  datatype Op =
    | Write(pid: Pid, mode: nat, data: seq<Byte>)
    | Read(pid: Pid, mode: nat, count: nat)
    | Fork(child: Pid, parent: Pid)
    | Close(pid: Pid, mode: nat)
    | Flush

  ghost predicate WellFormed(s: LogPipe) {
    && s.base <= |s.log| <= s.base + RING_SIZE
    && |s.ends| <= MAX_PPIPE_PROC
    && forall p :: p in s.ends && s.ends[p].read.Some? ==> s.base <= s.ends[p].read.value <= |s.log|
  }

  function Created(creator: Pid): LogPipe {
    LogPipe([], 0, map[creator := Cursor(Some(0), true)])
  }

  /** The bytes a read delivers: the next `count` of them, or all that are left. */
  function ReadOutcome(s: LogPipe, pid: Pid, mode: nat, count: nat): Result<seq<Byte>> {
    if !CanRead(mode) then Err(EACCES)
    else if pid !in s.ends then Err(EOTHERS)
    else match s.ends[pid].read
      case None => Err(EINVAL)
      case Some(off) =>
        var upTo := Min(off + count, |s.log|);
        if off <= upTo then Ok(s.log[off..upTo]) else Ok([])
  }

  function AfterRead(s: LogPipe, pid: Pid, mode: nat, count: nat): LogPipe {
    match ReadOutcome(s, pid, mode, count)
    case Err(_) => s
    case Ok(bytes) => s.(ends := s.ends[pid := s.ends[pid].(read := Some(s.ends[pid].read.value + |bytes|))])
  }

  /** The bytes a write accepts: the longest prefix that leaves the log within the ring. */
  function WriteOutcome(s: LogPipe, pid: Pid, mode: nat, data: seq<Byte>): Result<seq<Byte>> {
    if !CanWrite(mode) then Err(EACCES)
    else if pid !in s.ends then Err(EOTHERS)
    else if !s.ends[pid].write then Err(EINVAL)
    else
      var space := s.base + RING_SIZE - |s.log|;
      if 0 <= space then Ok(data[..Min(|data|, space)]) else Ok([])
  }

  function AfterWrite(s: LogPipe, pid: Pid, mode: nat, data: seq<Byte>): LogPipe {
    match WriteOutcome(s, pid, mode, data)
    case Err(_) => s
    case Ok(bytes) => s.(log := s.log + bytes)
  }

  /** A child needs an entry of its own and a parent that has one. */
  predicate CanFork(s: LogPipe, child: Pid, parent: Pid) {
    (child in s.ends || |s.ends| < MAX_PPIPE_PROC) && parent in s.ends
  }

  function AfterFork(s: LogPipe, child: Pid, parent: Pid): LogPipe {
    if CanFork(s, child, parent) then s.(ends := s.ends[child := s.ends[parent]]) else s
  }

  /** A process keeps its entry after closing both ends. */
  function AfterClose(s: LogPipe, pid: Pid, mode: nat): LogPipe {
    if pid !in s.ends then s
    else if mode == O_READ then s.(ends := s.ends[pid := s.ends[pid].(read := None)])
    else if mode == O_WRITE then s.(ends := s.ends[pid := s.ends[pid].(write := false)])
    else s
  }

  /** Every open reader has consumed the log below `limit`. */
  ghost predicate ReadByAll(s: LogPipe, limit: int) {
    forall p :: p in s.ends && s.ends[p].read.Some? ==> limit <= s.ends[p].read.value
  }

  ghost predicate HasReader(s: LogPipe) {
    exists p :: p in s.ends && s.ends[p].read.Some?
  }

  /** The largest `k <= n` such that every open reader has consumed `k` bytes past the mark. */
  ghost function LargestPrefix(s: LogPipe, n: nat): nat {
    if n == 0 || ReadByAll(s, s.base + n) then n else LargestPrefix(s, n - 1)
  }

  /** What a flush returns. */
  ghost function Reclaimable(s: LogPipe): nat
    requires WellFormed(s)
  {
    if HasReader(s) then LargestPrefix(s, |s.log| - s.base) else 0
  }

  ghost function AfterFlush(s: LogPipe): LogPipe
    requires WellFormed(s)
  {
    s.(base := s.base + Reclaimable(s))
  }

  ghost function Step(s: LogPipe, op: Op): LogPipe
    requires WellFormed(s)
  {
    match op
    case Write(pid, mode, data) => AfterWrite(s, pid, mode, data)
    case Read(pid, mode, count) => AfterRead(s, pid, mode, count)
    case Fork(child, parent) => AfterFork(s, child, parent)
    case Close(pid, mode) => AfterClose(s, pid, mode)
    case Flush => AfterFlush(s)
  }

  /** Reclaiming exactly the common prefix: the defining property of a flush. */
  lemma {:induction false} LargestPrefixIsLargest(s: LogPipe, n: nat, k: nat)
    requires WellFormed(s) && k <= n
    ensures LargestPrefix(s, n) <= n && ReadByAll(s, s.base + LargestPrefix(s, n))
    ensures k <= LargestPrefix(s, n) <==> ReadByAll(s, s.base + k)
  {
    if n == 0 || ReadByAll(s, s.base + n) {
    } else {
      LargestPrefixIsLargest(s, n - 1, Min(k, n - 1));
    }
  }

  /** Moving one process's ends keeps the pipe well formed while the offset stays inside the log. */
  lemma {:induction false} SetEndKeepsWellFormed(s: LogPipe, p: Pid, c: Cursor)
    requires WellFormed(s)
    requires c.read.Some? ==> s.base <= c.read.value <= |s.log|
    requires p in s.ends || |s.ends| < MAX_PPIPE_PROC
    ensures WellFormed(s.(ends := s.ends[p := c]))
  {
    var ends := s.ends[p := c];
    if p in s.ends {
      assert ends.Keys == s.ends.Keys;
    } else {
      assert ends.Keys == s.ends.Keys + {p};
    }
    assert |ends| == |ends.Keys|;
  }

  lemma {:induction false} RefusedCallsChangeNothing(s: LogPipe, pid: Pid, mode: nat, count: nat, data: seq<Byte>)
    ensures ReadOutcome(s, pid, mode, count).Err? ==> AfterRead(s, pid, mode, count) == s
    ensures WriteOutcome(s, pid, mode, data).Err? ==> AfterWrite(s, pid, mode, data) == s
  {
  }

  lemma {:induction false} OffsetInLog(s: LogPipe, p: Pid)
    requires WellFormed(s) && p in s.ends && s.ends[p].read.Some?
    ensures s.base <= s.ends[p].read.value <= |s.log| <= s.base + RING_SIZE
  {
  }

  lemma {:induction false} CloseKeepsWellFormed(s: LogPipe, pid: Pid, mode: nat)
    requires WellFormed(s)
    ensures WellFormed(AfterClose(s, pid, mode))
  {
    if pid in s.ends {
      SetEndKeepsWellFormed(s, pid, s.ends[pid].(read := None));
      SetEndKeepsWellFormed(s, pid, s.ends[pid].(write := false));
    }
  }

  lemma {:induction false} StepKeepsWellFormed(s: LogPipe, op: Op)
    requires WellFormed(s)
    ensures WellFormed(Step(s, op))
  {
    match op
    case Write(_, _, _) =>
    case Read(pid, mode, count) =>
      if ReadOutcome(s, pid, mode, count).Ok? {
        var read := s.ends[pid].read.value + |ReadOutcome(s, pid, mode, count).value|;
        SetEndKeepsWellFormed(s, pid, s.ends[pid].(read := Some(read)));
      }
    case Fork(child, parent) =>
      if CanFork(s, child, parent) {
        SetEndKeepsWellFormed(s, child, s.ends[parent]);
      }
    case Close(pid, mode) => CloseKeepsWellFormed(s, pid, mode);
    case Flush =>
      LargestPrefixIsLargest(s, |s.log| - s.base, 0);
  }

  // ----- flush -----

  /**
   A flush reclaims `n` bytes exactly when some reader is open, all open readers have consumed
   those `n` bytes and some byte after them is unread or unwritten; without readers it reclaims nothing.
   */
  lemma {:induction false} FlushReclaimsCommonPrefix(s: LogPipe, n: nat)
    requires WellFormed(s) && n <= |s.log| - s.base
    ensures !HasReader(s) ==> Reclaimable(s) == 0
    ensures HasReader(s) ==> (n <= Reclaimable(s) <==> ReadByAll(s, s.base + n))
    ensures Reclaimable(s) <= |s.log| - s.base
  {
    LargestPrefixIsLargest(s, |s.log| - s.base, n);
  }

  /** Space grows by what flush returns, nobody's unread bytes change, and a second flush finds nothing. */
  lemma {:induction false} FlushFreesExactlyAndOnce(s: LogPipe)
    requires WellFormed(s)
    ensures var t := AfterFlush(s);
            && WellFormed(t) && t.log == s.log && t.ends == s.ends
            && RING_SIZE - (|t.log| - t.base) == RING_SIZE - (|s.log| - s.base) + Reclaimable(s)
            && Reclaimable(t) == 0 && AfterFlush(t) == t
  {
    StepKeepsWellFormed(s, Flush);
    var t := AfterFlush(s);
    if HasReader(s) {
      assert HasReader(t);
      var again := LargestPrefix(t, |t.log| - t.base);
      LargestPrefixIsLargest(t, |t.log| - t.base, 0);
      assert ReadByAll(s, s.base + (Reclaimable(s) + again));
      LargestPrefixIsLargest(s, |s.log| - s.base, Reclaimable(s) + again);
    } else {
      assert !HasReader(t);
    }
  }

  // ----- fork -----

  /**
   A process that is on record passes on its ends and its offset, if the child is on record too or fewer than sixteen
   processes have held the pipe; otherwise nothing happens.
   */
  lemma {:induction false} ForkGivesParentsEnds(s: LogPipe, child: Pid, parent: Pid)
    ensures var t, can := AfterFork(s, child, parent),
                          parent in s.ends && (child in s.ends || |s.ends| < MAX_PPIPE_PROC);
            && CanFork(s, child, parent) == can && t.log == s.log && t.base == s.base
            && t.ends.Keys == s.ends.Keys + (if can then {child} else {})
            && (can ==> t.ends[child] == s.ends[parent])
            && forall p :: p in s.ends && !(can && p == child) ==> t.ends[p] == s.ends[p]
  {
  }

  /** The handler runs once for each end of the pipe; the second call changes nothing. */
  lemma {:induction false} ForkTwiceIsForkOnce(s: LogPipe, child: Pid, parent: Pid)
    requires WellFormed(s)
    ensures AfterFork(AfterFork(s, child, parent), child, parent) == AfterFork(s, child, parent)
    ensures CanFork(s, child, parent) ==>
              && CanFork(AfterFork(s, child, parent), child, parent)
              && AfterFork(s, child, parent).ends[child] == s.ends[parent]
              && forall p :: p in s.ends && p != child ==>
                   p in AfterFork(s, child, parent).ends && AfterFork(s, child, parent).ends[p] == s.ends[p]
  {
  }

  // ----- what each call does -----

  /** A read is refused in this order, and otherwise delivers `count` bytes or all that are left. */
  lemma {:induction false} ReadDeliversAllItMay(s: LogPipe, pid: Pid, mode: nat, count: nat)
    requires WellFormed(s)
    ensures var r, t := ReadOutcome(s, pid, mode, count), AfterRead(s, pid, mode, count);
            if !CanRead(mode) then r == Err(EACCES) && t == s
            else if pid !in s.ends then r == Err(EOTHERS) && t == s
            else if s.ends[pid].read == None then r == Err(EINVAL) && t == s
            else
              && r.Ok? && |r.value| <= count && t.ends.Keys == s.ends.Keys && t.log == s.log && t.base == s.base
              && t.ends[pid].read == Some(s.ends[pid].read.value + |r.value|) && t.ends[pid].write == s.ends[pid].write
              && (|r.value| == count || t.ends[pid].read == Some(|s.log|))
              && r.value == s.log[s.ends[pid].read.value..s.ends[pid].read.value + |r.value|]
              && forall p :: p in s.ends && p != pid ==> t.ends[p] == s.ends[p]
  {
    hide CanRead;
  }

  /** A write is refused in this order, and otherwise takes all bytes or fills the ring. */
  lemma {:induction false} WriteTakesAllThatFits(s: LogPipe, pid: Pid, mode: nat, data: seq<Byte>)
    requires WellFormed(s)
    ensures var r, t := WriteOutcome(s, pid, mode, data), AfterWrite(s, pid, mode, data);
            if !CanWrite(mode) then r == Err(EACCES) && t == s
            else if pid !in s.ends then r == Err(EOTHERS) && t == s
            else if !s.ends[pid].write then r == Err(EINVAL) && t == s
            else
              && r.Ok? && r.value <= data && t == s.(log := s.log + r.value)
              && (r.value == data || |t.log| == t.base + RING_SIZE)
  {
    hide CanWrite;
  }

  /** A message that fits arrives whole at the creator of a pipe and at its child. */
  lemma {:induction false} MessageArrives(creator: Pid, child: Pid, data: seq<Byte>)
    requires child != creator && |data| <= RING_SIZE
    ensures var s := AfterFork(AfterWrite(Created(creator), creator, O_WRITE, data), child, creator);
            && ReadOutcome(s, child, O_READ, |data|) == Ok(data) && ReadOutcome(s, creator, O_READ, |data|) == Ok(data)
  {
    assert [] + data == data && data[..|data|] == data && data[0..|data|] == data;
    assert |map[creator := Cursor(Some(0), true)]| == 1;
  }

  // ----- close -----

  /** A close of one end by a process on record closes exactly that end. */
  lemma {:induction false} CloseClosesExactly(s: LogPipe, pid: Pid, mode: nat)
    ensures var t := AfterClose(s, pid, mode);
            && t.log == s.log && t.base == s.base && t.ends.Keys == s.ends.Keys
            && forall p :: p in s.ends ==>
                 && t.ends[p].read == (if p == pid && mode == O_READ then None else s.ends[p].read)
                 && t.ends[p].write == (s.ends[p].write && !(p == pid && mode == O_WRITE))
  {
  }

  predicate StartsProcess(op: Op, p: Pid) { op.Fork? && op.child == p }

  lemma {:induction false} StepKeepsClosed(s: LogPipe, op: Op, p: Pid)
    requires WellFormed(s) && p in s.ends && !StartsProcess(op, p)
    ensures p in Step(s, op).ends
    ensures s.ends[p].read == None ==> Step(s, op).ends[p].read == None
    ensures !s.ends[p].write ==> !Step(s, op).ends[p].write
  {
    hide CanRead, CanWrite, LargestPrefix;
  }

  lemma {:induction false} RunKeepsClosed(s: LogPipe, ops: seq<Op>, p: Pid)
    requires WellFormed(s) && p in s.ends && forall op :: op in ops ==> !StartsProcess(op, p)
    ensures p in Run(s, ops).ends
    ensures s.ends[p].read == None ==> Run(s, ops).ends[p].read == None
    ensures !s.ends[p].write ==> !Run(s, ops).ends[p].write
    decreases |ops|
  {
    hide Step, StartsProcess;
    if ops != [] {
      assert ops[0] in ops;
      StepKeepsWellFormed(s, ops[0]);
      StepKeepsClosed(s, ops[0], p);
      RunKeepsClosed(Step(s, ops[0]), ops[1..], p);
    }
  }

  /** An end stays closed: over every run that starts no process under that id, each later use is refused. */
  lemma {:induction false} ClosedEndIsRefused(
      s: LogPipe, pid: Pid, ops: seq<Op>, mode: nat, count: nat, data: seq<Byte>)
    requires WellFormed(s) && pid in s.ends && forall op :: op in ops ==> !StartsProcess(op, pid)
    ensures WellFormed(AfterClose(s, pid, O_READ)) && WellFormed(AfterClose(s, pid, O_WRITE))
    ensures CanRead(mode) ==> ReadOutcome(Run(AfterClose(s, pid, O_READ), ops), pid, mode, count) == Err(EINVAL)
    ensures CanWrite(mode) ==> WriteOutcome(Run(AfterClose(s, pid, O_WRITE), ops), pid, mode, data) == Err(EINVAL)
  {
    CloseKeepsWellFormed(s, pid, O_READ);
    CloseKeepsWellFormed(s, pid, O_WRITE);
    hide AfterClose, WellFormed, CanRead, CanWrite, StartsProcess;
    CloseClosesExactly(s, pid, O_READ);
    CloseClosesExactly(s, pid, O_WRITE);
    RunKeepsClosed(AfterClose(s, pid, O_READ), ops, pid);
    RunKeepsClosed(AfterClose(s, pid, O_WRITE), ops, pid);
  }

  /** After a reader has closed, a flush reclaims what all remaining open readers have consumed, nothing without any. */
  lemma {:induction false} ClosedReaderHoldsNothingBack(s: LogPipe, pid: Pid, n: nat)
    requires WellFormed(s) && pid in s.ends && n <= |s.log| - s.base
    ensures WellFormed(AfterClose(s, pid, O_READ))
    ensures var others := set p | p in s.ends && p != pid && s.ends[p].read.Some?;
            var reclaimed := Reclaimable(AfterClose(s, pid, O_READ));
            if others == {} then reclaimed == 0
            else n <= reclaimed <==> forall p :: p in others ==> s.base + n <= s.ends[p].read.value
  {
    CloseKeepsWellFormed(s, pid, O_READ);
    CloseClosesExactly(s, pid, O_READ);
    var t := AfterClose(s, pid, O_READ);
    hide AfterClose, WellFormed;
    FlushReclaimsCommonPrefix(t, n);
    FlushReclaimsCommonPrefix(t, 0);
    var others := set p | p in s.ends && p != pid && s.ends[p].read.Some?;
    assert forall p :: p in t.ends && t.ends[p].read.Some? <==> p in others;
    if others != {} {
      var p :| p in others;
      assert p in t.ends && t.ends[p].read.Some?;
    }
  }

  // ----- whole runs -----

  ghost function Run(s: LogPipe, ops: seq<Op>): LogPipe
    requires WellFormed(s)
    decreases |ops|
  {
    if ops == [] then s
    else
      StepKeepsWellFormed(s, ops[0]);
      Run(Step(s, ops[0]), ops[1..])
  }

  /** What one operation hands to process `p`. */
  function Delivered(s: LogPipe, op: Op, p: Pid): seq<Byte> {
    if op.Read? && op.pid == p && ReadOutcome(s, p, op.mode, op.count).Ok?
    then ReadOutcome(s, p, op.mode, op.count).value
    else []
  }

  /** What one operation adds to the log. */
  function Appended(s: LogPipe, op: Op): seq<Byte> {
    if op.Write? && WriteOutcome(s, op.pid, op.mode, op.data).Ok?
    then WriteOutcome(s, op.pid, op.mode, op.data).value
    else []
  }

  /** The bytes that process `p` receives over a run, in the order in which it receives them. */
  ghost function Received(s: LogPipe, ops: seq<Op>, p: Pid): seq<Byte>
    requires WellFormed(s)
    decreases |ops|
  {
    if ops == [] then []
    else
      StepKeepsWellFormed(s, ops[0]);
      Delivered(s, ops[0], p) + Received(Step(s, ops[0]), ops[1..], p)
  }

  /** The bytes that all writers together get accepted over a run. */
  ghost function Accepted(s: LogPipe, ops: seq<Op>): seq<Byte>
    requires WellFormed(s)
    decreases |ops|
  {
    if ops == [] then []
    else
      StepKeepsWellFormed(s, ops[0]);
      Appended(s, ops[0]) + Accepted(Step(s, ops[0]), ops[1..])
  }

  /** Neither closes `p`'s read end nor starts a new process under the id `p`. */
  predicate Spares(op: Op, p: Pid) {
    match op
    case Close(pid, mode) => !(pid == p && mode == O_READ)
    case Fork(child, _) => child != p
    case _ => true
  }

  lemma {:induction false} StepAppends(s: LogPipe, op: Op)
    requires WellFormed(s)
    ensures Step(s, op).log == s.log + Appended(s, op)
    ensures s.base <= Step(s, op).base
  {
    hide CanRead, CanWrite, LargestPrefix;
  }

  /** In every run the log only grows, by exactly the accepted bytes, and never outgrows the ring. */
  lemma {:induction false} RunAppends(s: LogPipe, ops: seq<Op>)
    requires WellFormed(s)
    ensures WellFormed(Run(s, ops))
    ensures Run(s, ops).log == s.log + Accepted(s, ops)
    ensures s.base <= Run(s, ops).base
    decreases |ops|
  {
    hide Step, Appended, WellFormed;
    if ops != [] {
      StepAppends(s, ops[0]);
      StepKeepsWellFormed(s, ops[0]);
      RunAppends(Step(s, ops[0]), ops[1..]);
    }
  }

  /** One operation moves an open reader's offset by exactly the log bytes that it hands to that reader. */
  lemma {:induction false} StepDeliversNext(s: LogPipe, op: Op, p: Pid)
    requires WellFormed(s) && p in s.ends && s.ends[p].read.Some? && Spares(op, p)
    ensures var t, off := Step(s, op), s.ends[p].read.value;
            && p in t.ends && t.ends[p].read == Some(off + |Delivered(s, op, p)|)
            && off + |Delivered(s, op, p)| <= |s.log|
            && Delivered(s, op, p) == s.log[off..off + |Delivered(s, op, p)|]
  {
    match op
    case Read(pid, mode, count) =>
      hide CanRead, CanWrite;
      if pid == p && CanRead(mode) {
        assert ReadOutcome(s, p, mode, count).Ok?;
      }
    case _ =>
      hide CanRead, CanWrite, ReadOutcome, LargestPrefix;
  }

  lemma {:induction false} SliceContinues(now: seq<Byte>, log: seq<Byte>, from: nat, mid: nat, to: nat)
    requires from <= mid <= |now| && now <= log && mid <= to <= |log|
    ensures now[from..mid] + log[mid..to] == log[from..to]
  {
  }

  /**
   However the other processes read, write, fork, close and flush, a process with an open read end
   receives the log from its own offset onwards: no byte lost, repeated, reordered or foreign.
   */
  lemma {:induction false} ReaderReceivesTheLog(s: LogPipe, ops: seq<Op>, p: Pid)
    requires WellFormed(s) && p in s.ends && s.ends[p].read.Some?
    requires forall op :: op in ops ==> Spares(op, p)
    ensures var t := Run(s, ops);
            && p in t.ends && t.ends[p].read.Some?
            && s.ends[p].read.value <= t.ends[p].read.value <= |t.log|
            && Received(s, ops, p) == t.log[s.ends[p].read.value..t.ends[p].read.value]
    decreases |ops|
  {
    hide Step, Appended, Delivered, Spares;
    if ops != [] {
      var u, t := Step(s, ops[0]), Run(s, ops);
      assert Spares(ops[0], p);
      StepKeepsWellFormed(s, ops[0]);
      StepAppends(s, ops[0]);
      StepDeliversNext(s, ops[0], p);
      ReaderReceivesTheLog(u, ops[1..], p);
      RunAppends(u, ops[1..]);
      SliceContinues(s.log, t.log, s.ends[p].read.value, u.ends[p].read.value, t.ends[p].read.value);
    }
  }

  /**
   Parent and child share the bytes that were unread at the fork: from then on each of them receives,
   independently of the other, the log from the parent's offset at the fork up to its own cursor.
   */
  lemma {:induction false} ChildReceivesWhatParentHadUnread(s: LogPipe, child: Pid, parent: Pid, ops: seq<Op>)
    requires WellFormed(s) && CanFork(s, child, parent) && child != parent && s.ends[parent].read.Some?
    requires forall op :: op in ops ==> Spares(op, child) && Spares(op, parent)
    ensures WellFormed(AfterFork(s, child, parent))
    ensures var u, off := AfterFork(s, child, parent), s.ends[parent].read.value;
            var t := Run(u, ops);
            forall p :: p == child || p == parent ==>
              && p in t.ends && t.ends[p].read.Some? && off <= t.ends[p].read.value <= |t.log|
              && Received(u, ops, p) == t.log[off..t.ends[p].read.value]
  {
    StepKeepsWellFormed(s, Fork(child, parent));
    var u := AfterFork(s, child, parent);
    ReaderReceivesTheLog(u, ops, child);
    ReaderReceivesTheLog(u, ops, parent);
  }
}
