/** The meaning of the breakpoint list: which breakpoints exist, in the order in which they were set. */
module BreakpointTable {
  import opened Kernel
  import opened Debuggee

  datatype Table = Table(list: seq<Breakpoint>, count: int, lastNum: Word32)

  /** `opcode` is the byte that the call leaves at the address, if it writes there at all. */
  datatype Outcome = Outcome(table: Table, opcode: Option<Byte>, ok: bool)

  datatype Op =
    | Set(addr: int, flag: int, onStack: bool, allocOk: bool)
    | Remove(addr: int, onStack: bool)

  function Find(list: seq<Breakpoint>, addr: int): (i: nat)
    ensures i <= |list|
    ensures i < |list| ==> list[i].addr == addr
    ensures forall j :: 0 <= j < i ==> list[j].addr != addr
  {
    if list == [] || list[0].addr == addr then 0 else 1 + Find(list[1..], addr)
  }

  lemma {:induction false} FindIs(list: seq<Breakpoint>, addr: int, i: nat)
    requires i <= |list| && (i < |list| ==> list[i].addr == addr)
    requires forall j :: 0 <= j < i ==> list[j].addr != addr
    ensures Find(list, addr) == i
  {
  }

  predicate Known(t: Table, addr: int) { Find(t.list, addr) < |t.list| }

  /** A number one higher than the last, in 32 bits. */
  function NextNum(t: Table): Word32 { AsU32(t.lastNum + 1) }

  function Appended(t: Table, addr: int, flag: int): Table {
    Table(t.list + [Breakpoint(NextNum(t), addr, flag)], t.count + 1, NextNum(t))
  }

  function AfterSet(t: Table, addr: int, flag: int, onStack: bool, allocOk: bool): Outcome {
    var i := Find(t.list, addr);
    if i < |t.list| then
      var end := t.list[i].endEnable;
      var updated := t.(list := t.list[i := t.list[i].(endEnable := flag)]);
      if onStack && end == 1 && flag == 0 then Outcome(t, Some(INT3_OPCODE), false)
      else if onStack && end == 0 && flag == 1 then Outcome(updated, Some(PUSHRBP_OPCODE), true)
      else Outcome(updated, Some(INT3_OPCODE), true)
    else if (t.list != [] && t.count == MAX_BREAKPOINTS) || !allocOk then Outcome(t, Some(INT3_OPCODE), false)
    else Outcome(Appended(t, addr, flag), Some(INT3_OPCODE), true)
  }

  /** Removing anything but the head asks for the flag of the breakpoint in front of it. */
  function AfterRemove(t: Table, addr: int, onStack: bool): Outcome
    requires t.list != []
  {
    var i := Find(t.list, addr);
    if i == |t.list| then Outcome(t, None, false)
    else if onStack && t.list[if i == 0 then 0 else i - 1].endEnable == 1 then Outcome(t, None, false)
    else Outcome(t.(list := t.list[..i] + t.list[i + 1..], count := t.count - 1), Some(PUSHRBP_OPCODE), true)
  }

  /** A remove on an empty list would read through a null head; it has no successor. */
  function Step(t: Table, op: Op): Option<Table> {
    match op
    case Set(addr, flag, onStack, allocOk) => Some(AfterSet(t, addr, flag, onStack, allocOk).table)
    case Remove(addr, onStack) => if t.list == [] then None else Some(AfterRemove(t, addr, onStack).table)
  }

  function Run(t: Table, ops: seq<Op>): Option<Table>
    decreases |ops|
  {
    if ops == [] then Some(t)
    else
      var next :- Step(t, ops[0]);
      Run(next, ops[1..])
  }

  ghost predicate Consistent(t: Table) {
    && t.count == |t.list| <= MAX_BREAKPOINTS
    && (forall i, j :: 0 <= i < j < |t.list| ==> t.list[i].addr != t.list[j].addr)
    && (forall i, j :: 0 <= i < j < |t.list| ==> t.list[i].num < t.list[j].num)
    && (forall i :: 0 <= i < |t.list| ==> 0 < t.list[i].num <= t.lastNum)
  }

  ghost predicate InUse(t: Table, num: int) {
    exists i :: 0 <= i < |t.list| && t.list[i].num == num
  }

  const EMPTY: Table := Table([], 0, 0)

  lemma {:induction false} FlagKeepsConsistent(t: Table, i: nat, flag: int)
    requires Consistent(t) && i < |t.list|
    ensures var u := t.(list := t.list[i := t.list[i].(endEnable := flag)]);
            Consistent(u) && forall n :: InUse(u, n) ==> InUse(t, n)
  {
    var u := t.(list := t.list[i := t.list[i].(endEnable := flag)]);
    forall n | InUse(u, n) ensures InUse(t, n) {
      var j :| 0 <= j < |u.list| && u.list[j].num == n;
      assert t.list[j].num == n;
    }
  }

  lemma {:induction false} AppendKeepsConsistent(t: Table, addr: int, flag: int)
    requires Consistent(t) && t.lastNum + 1 < U32_RANGE && !Known(t, addr) && |t.list| < MAX_BREAKPOINTS
    ensures Consistent(Appended(t, addr, flag))
    ensures forall n: int :: n <= t.lastNum && InUse(Appended(t, addr, flag), n) ==> InUse(t, n)
  {
    var u := Appended(t, addr, flag);
    forall n: int | n <= t.lastNum && InUse(u, n) ensures InUse(t, n) {
      var j :| 0 <= j < |u.list| && u.list[j].num == n;
      assert t.list[j].num == n;
    }
  }

  lemma {:induction false} UnlinkKeepsConsistent(t: Table, i: nat)
    requires Consistent(t) && i < |t.list|
    ensures var u := t.(list := t.list[..i] + t.list[i + 1..], count := t.count - 1);
            Consistent(u) && forall n :: InUse(u, n) ==> InUse(t, n)
  {
    var u := t.(list := t.list[..i] + t.list[i + 1..], count := t.count - 1);
    forall a, b | 0 <= a < b < |u.list| ensures u.list[a].addr != u.list[b].addr && u.list[a].num < u.list[b].num {
      var x, y := if a < i then a else a + 1, if b < i then b else b + 1;
      assert u.list[a] == t.list[x] && u.list[b] == t.list[y];
    }
    forall a | 0 <= a < |u.list| ensures u.list[a] in t.list {
      assert u.list[a] == t.list[if a < i then a else a + 1];
    }
    forall n | InUse(u, n) ensures InUse(t, n) {
      var j :| 0 <= j < |u.list| && u.list[j].num == n;
      assert u.list[j] in t.list;
    }
  }

  lemma {:induction false} StepKeepsConsistent(t: Table, op: Op)
    requires Consistent(t) && t.lastNum + 1 < U32_RANGE && Step(t, op).Some?
    ensures Consistent(Step(t, op).value)
    ensures t.lastNum <= Step(t, op).value.lastNum <= t.lastNum + 1
    ensures forall n: int :: n <= t.lastNum && InUse(Step(t, op).value, n) ==> InUse(t, n)
  {
    var i := Find(t.list, op.addr);
    CountIsLength(t);
    hide Consistent, InUse;
    if i < |t.list| {
      if op.Set? { FlagKeepsConsistent(t, i, op.flag); } else { UnlinkKeepsConsistent(t, i); }
    } else if op.Set? && |t.list| < MAX_BREAKPOINTS {
      AppendKeepsConsistent(t, op.addr, op.flag);
    }
  }

  lemma {:induction false} CountIsLength(t: Table)
    requires Consistent(t)
    ensures t.count == |t.list| <= MAX_BREAKPOINTS
  {
  }

  /**
   Over every run of set and remove that stays below 2^32 numbers, addresses are distinct, numbers increase
   from the head and are never given out twice, and the count is the length and at most eight.
   */
  lemma {:induction false} RunKeepsConsistent(t: Table, ops: seq<Op>)
    requires Consistent(t) && t.lastNum + |ops| < U32_RANGE && Run(t, ops).Some?
    ensures Consistent(Run(t, ops).value) && t.lastNum <= Run(t, ops).value.lastNum
    ensures forall n: int :: n <= t.lastNum && !InUse(t, n) ==> !InUse(Run(t, ops).value, n)
    decreases |ops|
  {
    hide Consistent, InUse, Step;
    if ops != [] {
      StepKeepsConsistent(t, ops[0]);
      RunKeepsConsistent(Step(t, ops[0]).value, ops[1..]);
    }
  }

  /** At the last 32-bit number the order breaks: the next breakpoint gets number 0. */
  lemma {:induction false} NumbersWrap(t: Table, addr: int, flag: int)
    requires Consistent(t) && !Known(t, addr) && |t.list| < MAX_BREAKPOINTS
    ensures var u := AfterSet(t, addr, flag, false, true);
            u.ok && (Consistent(u.table) <==> t.lastNum + 1 < U32_RANGE)
  {
    var u := AfterSet(t, addr, flag, false, true);
    assert u.table.list[|t.list|].num == NextNum(t);
    if t.lastNum + 1 < U32_RANGE {
      StepKeepsConsistent(t, Set(addr, flag, false, true));
    }
  }

  predicate IsAt(list: seq<Breakpoint>, i: int, addr: int) { 0 <= i < |list| && list[i].addr == addr }

  /**
   A set succeeds on a known address unless it would disable the end of a function on the call stack, and on a new
   one if there is room for a node. Then the breakpoint at the address has the flag asked for: a known one in its
   place and with its number, a new one at the end with the next number. All others are as they were, and a refusal
   leaves the table as it was.
   */
  lemma {:induction false} SetStoresFlag(t: Table, addr: int, flag: int, onStack: bool, allocOk: bool)
    requires Consistent(t)
    ensures var r := AfterSet(t, addr, flag, onStack, allocOk);
            && (forall i :: IsAt(t.list, i, addr) ==>
                  && (r.ok <==> !(onStack && t.list[i].endEnable == 1 && flag == 0))
                  && (r.ok ==> r.table.list == t.list[i := Breakpoint(t.list[i].num, addr, flag)]
                               && r.table.count == t.count && r.table.lastNum == t.lastNum))
            && ((forall i :: !IsAt(t.list, i, addr)) ==>
                  && (r.ok <==> |t.list| < MAX_BREAKPOINTS && allocOk)
                  && (r.ok ==> r.table.list == t.list + [Breakpoint(AsU32(t.lastNum + 1), addr, flag)]
                               && r.table.count == t.count + 1 && r.table.lastNum == AsU32(t.lastNum + 1)))
            && (!r.ok ==> r.table == t)
            && (r.opcode == Some(INT3_OPCODE) || r.opcode == Some(PUSHRBP_OPCODE))
  {
    var i := Find(t.list, addr);
    if i < |t.list| {
      assert forall j :: IsAt(t.list, j, addr) ==> j == i;
      assert IsAt(t.list, i, addr);
    }
  }

  /** There is one breakpoint at the address, and it has this flag. */
  ghost predicate HasFlag(t: Table, addr: int, flag: int) {
    && (exists i :: IsAt(t.list, i, addr))
    && forall i :: IsAt(t.list, i, addr) ==> t.list[i].endEnable == flag
  }

  lemma {:induction false} WithoutKeepsFlag(t: Table, u: Table, i: nat, addr: int, flag: int)
    requires HasFlag(t, addr, flag) && i < |t.list| && t.list[i].addr != addr
    requires u.list == t.list[..i] + t.list[i + 1..]
    ensures HasFlag(u, addr, flag)
  {
    var k :| IsAt(t.list, k, addr);
    assert IsAt(u.list, if k < i then k else k - 1, addr);
    forall j | IsAt(u.list, j, addr) ensures u.list[j].endEnable == flag {
      assert IsAt(t.list, if j < i then j else j + 1, addr);
    }
  }

  lemma {:induction false} WithKeepsFlag(t: Table, u: Table, addr: int, flag: int)
    requires HasFlag(t, addr, flag) && |t.list| <= |u.list|
    requires forall j :: 0 <= j < |u.list| && u.list[j].addr == addr ==> j < |t.list|
    requires forall j :: 0 <= j < |t.list| && (t.list[j].addr == addr || u.list[j].addr == addr) ==>
        u.list[j] == t.list[j]
    ensures HasFlag(u, addr, flag)
  {
    var k :| IsAt(t.list, k, addr);
    assert IsAt(u.list, k, addr);
    forall j | IsAt(u.list, j, addr) ensures u.list[j].endEnable == flag {
      assert IsAt(t.list, j, addr);
    }
  }

  lemma {:induction false} StepKeepsFlag(t: Table, op: Op, addr: int, flag: int)
    requires Consistent(t) && HasFlag(t, addr, flag) && op.addr != addr && Step(t, op).Some?
    ensures HasFlag(Step(t, op).value, addr, flag)
  {
    hide HasFlag, Consistent;
    var u, i := Step(t, op).value, Find(t.list, op.addr);
    if op.Set? || u == t {
      WithKeepsFlag(t, u, addr, flag);
    } else {
      WithoutKeepsFlag(t, u, i, addr, flag);
    }
  }

  /** The flag of the last successful set stays, over every run of sets and removes of other addresses. */
  lemma {:induction false} FlagLasts(t: Table, addr: int, flag: int, onStack: bool, allocOk: bool, ops: seq<Op>)
    requires Consistent(t) && AfterSet(t, addr, flag, onStack, allocOk).ok
    requires t.lastNum + 1 + |ops| < U32_RANGE && forall op :: op in ops ==> op.addr != addr
    ensures var u := Run(AfterSet(t, addr, flag, onStack, allocOk).table, ops); u.Some? ==> HasFlag(u.value, addr, flag)
  {
    var u := AfterSet(t, addr, flag, onStack, allocOk).table;
    StepKeepsConsistent(t, Set(addr, flag, onStack, allocOk));
    SetStoresFlag(t, addr, flag, onStack, allocOk);
    var i := Find(t.list, addr);
    assert IsAt(u.list, i, addr);
    assert i < |t.list| ==> IsAt(t.list, i, addr);
    RunKeepsFlag(u, addr, flag, ops);
  }

  lemma {:induction false} RunKeepsFlag(t: Table, addr: int, flag: int, ops: seq<Op>)
    requires Consistent(t) && HasFlag(t, addr, flag) && t.lastNum + |ops| < U32_RANGE
    requires forall op :: op in ops ==> op.addr != addr
    ensures Run(t, ops).Some? ==> HasFlag(Run(t, ops).value, addr, flag)
    decreases |ops|
  {
    hide Consistent, Step, HasFlag;
    if ops != [] && Step(t, ops[0]).Some? {
      assert ops[0] in ops;
      StepKeepsConsistent(t, ops[0]);
      StepKeepsFlag(t, ops[0], addr, flag);
      RunKeepsFlag(Step(t, ops[0]).value, addr, flag, ops[1..]);
    }
  }

  /**
   A remove succeeds on a known address unless it is on the call stack and the end of the breakpoint in front of it,
   or of itself if it is the head, is enabled. Then that breakpoint is deleted, the rest keeps its order, and the
   push is put back.
   */
  lemma {:induction false} RemoveDeletesExactlyOne(t: Table, addr: int, onStack: bool)
    requires Consistent(t) && t.list != []
    ensures var r := AfterRemove(t, addr, onStack);
            && (r.ok ==> Known(t, addr) && !Known(r.table, addr) && |r.table.list| == |t.list| - 1)
            && (r.ok ==> exists i :: 0 <= i < |t.list| && t.list[i].addr == addr
                           && r.table.list[..i] == t.list[..i] && r.table.list[i..] == t.list[i + 1..])
            && (r.ok ==> r.opcode == Some(PUSHRBP_OPCODE) && r.table.count == t.count - 1
                         && r.table.lastNum == t.lastNum)
            && (forall i :: IsAt(t.list, i, addr) ==>
                  (r.ok <==> !(onStack && t.list[if i == 0 then 0 else i - 1].endEnable == 1)))
            && ((forall i :: !IsAt(t.list, i, addr)) ==> !r.ok)
            && (!r.ok ==> r.table == t && r.opcode == None)
  {
    var r := AfterRemove(t, addr, onStack);
    var i := Find(t.list, addr);
    if i < |t.list| {
      assert forall j :: IsAt(t.list, j, addr) ==> j == i;
      assert IsAt(t.list, i, addr);
    }
    if r.ok {
      assert t.list[i].addr == addr && r.table.list[..i] == t.list[..i] && r.table.list[i..] == t.list[i + 1..];
      forall j | 0 <= j < |r.table.list| ensures r.table.list[j].addr != addr {
        assert r.table.list[j] == t.list[if j < i then j else j + 1];
      }
    }
  }

  /**
   A set patches the text before it knows whether it will succeed. The patched byte and the list agree
   afterwards (a trap exactly if listed) if and only if the set found the address listed or found room for
   it, and did not enable the end of a function that is on the call stack.
   */
  lemma {:induction false} SetAgreesWithListIff(t: Table, addr: int, flag: int, onStack: bool, allocOk: bool)
    requires Consistent(t)
    ensures var r := AfterSet(t, addr, flag, onStack, allocOk);
            (r.opcode == Some(INT3_OPCODE) <==> Known(r.table, addr)) <==>
            if Known(t, addr) then !(onStack && flag == 1 && t.list[Find(t.list, addr)].endEnable == 0)
            else |t.list| < MAX_BREAKPOINTS && allocOk
  {
    var r := AfterSet(t, addr, flag, onStack, allocOk);
    var i := Find(t.list, addr);
    if i < |t.list| {
      assert r.table.list[i].addr == addr;
    } else if r.ok {
      assert r.table.list[i].addr == addr;
    }
  }
}
