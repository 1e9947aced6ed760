/** Setting and removing breakpoints prepares the text for a run of the debuggee. */
module DebugSession {
  import opened Kernel
  import opened Debuggee
  import opened BreakpointTable
  import opened CallTree

  function Outcome(t: Table, op: Op): BreakpointTable.Outcome
    requires op.Remove? ==> t.list != []
  {
    match op
    case Set(addr, flag, onStack, allocOk) => AfterSet(t, addr, flag, onStack, allocOk)
    case Remove(addr, onStack) => AfterRemove(t, addr, onStack)
  }

  /** The byte that the call writes into the text. */
  function Written(text: map<int, Byte>, op: Op, opcode: Option<Byte>): map<int, Byte> {
    if opcode.Some? then text[op.addr := opcode.value] else text
  }

  /**
   The call is about a function other than the end handler, and it is not one of those after which text and list
   disagree: it neither lacks room for a new breakpoint nor enables the end of a function on the call stack.
   */
  ghost predicate Careful(t: Table, op: Op, fns: set<int>, endHandler: int) {
    && op.addr in fns && op.addr != endHandler
    && match op
       case Set(addr, flag, onStack, allocOk) =>
         if Known(t, addr) then !(onStack && flag == 1 && t.list[Find(t.list, addr)].endEnable == 0)
         else |t.list| < MAX_BREAKPOINTS && allocOk
       case Remove(_, _) => t.list != []
  }

  lemma {:induction false} KnownIsListed(t: Table, addr: int)
    ensures Known(t, addr) <==> Listed(t.list, addr)
  {
    if Known(t, addr) { assert t.list[Find(t.list, addr)].addr == addr; }
  }

  /** What a careful call does to the list and to the byte at its address. */
  ghost predicate Agrees(t: Table, r: BreakpointTable.Outcome, addr: int) {
    && (forall a :: a != addr ==> (Listed(r.table.list, a) <==> Listed(t.list, a)))
    && (r.opcode == None ==> r.table == t)
    && (r.opcode.Some? ==>
          r.opcode.value == if Listed(r.table.list, addr) then INT3_OPCODE else PUSHRBP_OPCODE)
  }

  lemma {:induction false} SetAgrees(t: Table, addr: int, flag: int, onStack: bool, allocOk: bool)
    requires Consistent(t)
    requires if Known(t, addr) then !(onStack && flag == 1 && t.list[Find(t.list, addr)].endEnable == 0)
             else |t.list| < MAX_BREAKPOINTS && allocOk
    ensures Agrees(t, AfterSet(t, addr, flag, onStack, allocOk), addr)
  {
    var r := AfterSet(t, addr, flag, onStack, allocOk);
    SetAgreesWithListIff(t, addr, flag, onStack, allocOk);
    SetStoresFlag(t, addr, flag, onStack, allocOk);
    KnownIsListed(r.table, addr);
    var i := Find(t.list, addr);
    assert i < |t.list| ==> IsAt(t.list, i, addr);
    hide AfterSet, Consistent;
    forall a | a != addr ensures Listed(r.table.list, a) <==> Listed(t.list, a) {
      if j :| 0 <= j < |r.table.list| && r.table.list[j].addr == a { assert t.list[j].addr == a; }
      if j :| 0 <= j < |t.list| && t.list[j].addr == a { assert r.table.list[j].addr == a; }
    }
  }

  lemma {:induction false} Removed(t: Table, addr: int, onStack: bool)
    requires Consistent(t) && t.list != []
    ensures var r, i := AfterRemove(t, addr, onStack), Find(t.list, addr);
            if r.ok then
              && i < |t.list| && r.table.list == t.list[..i] + t.list[i + 1..] && r.opcode == Some(PUSHRBP_OPCODE)
              && !Known(r.table, addr)
            else r.table == t && r.opcode == None
  {
    RemoveDeletesExactlyOne(t, addr, onStack);
    hide Consistent, Known;
  }

  lemma {:induction false} RemoveAgrees(t: Table, addr: int, onStack: bool)
    requires Consistent(t) && t.list != []
    ensures Agrees(t, AfterRemove(t, addr, onStack), addr)
  {
    var r, i := AfterRemove(t, addr, onStack), Find(t.list, addr);
    Removed(t, addr, onStack);
    KnownIsListed(r.table, addr);
    hide AfterRemove, Consistent, Known, Listed;
    if r.ok {
      assert r.table.list[..i] == t.list[..i] && r.table.list[i..] == t.list[i + 1..];
      forall a | a != addr ensures Listed(r.table.list, a) <==> Listed(t.list, a) {
        ListedWithout(t.list, r.table.list, i, a);
      }
    }
  }

  lemma {:induction false} ListedWithout(list: seq<Breakpoint>, rest: seq<Breakpoint>, i: nat, a: int)
    requires i < |list| && list[i].addr != a && i <= |rest| && rest[..i] == list[..i] && rest[i..] == list[i + 1..]
    ensures Listed(rest, a) <==> Listed(list, a)
  {
    assert rest == list[..i] + list[i + 1..];
    if j :| 0 <= j < |rest| && rest[j].addr == a {
      assert rest[j] == list[if j < i then j else j + 1];
    }
    if j :| 0 <= j < |list| && list[j].addr == a {
      assert list[j] == rest[if j < i then j else j - 1];
    }
  }

  lemma {:induction false} DistinctAddresses(t: Table)
    requires Consistent(t)
    ensures forall i, j :: 0 <= i < j < |t.list| ==> t.list[i].addr != t.list[j].addr
  {
  }

  lemma {:induction false} StepKeepsPatched(
      t: Table, op: Op, text: map<int, Byte>, fns: set<int>, endHandler: int)
    requires Consistent(t) && t.lastNum + 1 < U32_RANGE && Careful(t, op, fns, endHandler)
    requires Patched(text, fns, t.list, endHandler)
    ensures var r := Outcome(t, op);
            Patched(Written(text, op, r.opcode), fns, r.table.list, endHandler) && Step(t, op) == Some(r.table)
    ensures Consistent(Outcome(t, op).table) && Outcome(t, op).table.lastNum <= t.lastNum + 1
  {
    StepKeepsConsistent(t, op);
    var r := Outcome(t, op);
    match op {
      case Set(addr, flag, onStack, allocOk) => SetAgrees(t, addr, flag, onStack, allocOk);
      case Remove(addr, onStack) => RemoveAgrees(t, addr, onStack);
    }
    DistinctAddresses(r.table);
    hide AfterSet, AfterRemove, Consistent, Known;
    AgreeingKeepsPatched(t, op, r, text, fns, endHandler);
  }

  lemma {:induction false} AgreeingKeepsPatched(
      t: Table, op: Op, r: BreakpointTable.Outcome, text: map<int, Byte>, fns: set<int>, endHandler: int)
    requires Patched(text, fns, t.list, endHandler) && Agrees(t, r, op.addr)
    requires op.addr in fns && op.addr != endHandler
    requires forall i, j :: 0 <= i < j < |r.table.list| ==> r.table.list[i].addr != r.table.list[j].addr
    ensures Patched(Written(text, op, r.opcode), fns, r.table.list, endHandler)
  {
    hide Listed;
    var list := r.table.list;
    forall i | 0 <= i < |list| ensures list[i].addr in fns {
      ListedAt(list, i);
      if list[i].addr != op.addr { ListedIsFunction(t.list, fns, list[i].addr); }
    }
  }

  lemma {:induction false} ListedAt(list: seq<Breakpoint>, i: nat)
    requires i < |list|
    ensures Listed(list, list[i].addr)
  {
  }

  lemma {:induction false} ListedIsFunction(list: seq<Breakpoint>, fns: set<int>, a: int)
    requires Listed(list, a) && forall i :: 0 <= i < |list| ==> list[i].addr in fns
    ensures a in fns
  {
  }

  /** The text after a run of calls, or None if one of them is not careful. */
  ghost function Prepared(
      t: Table, text: map<int, Byte>, ops: seq<Op>, fns: set<int>, endHandler: int): Option<(Table, map<int, Byte>)>
    decreases |ops|
  {
    if ops == [] then Some((t, text))
    else if !Careful(t, ops[0], fns, endHandler) then None
    else
      var r := Outcome(t, ops[0]);
      Prepared(r.table, Written(text, ops[0], r.opcode), ops[1..], fns, endHandler)
  }

  lemma {:induction false} CarefulHasOutcome(t: Table, op: Op, fns: set<int>, endHandler: int)
    requires Careful(t, op, fns, endHandler)
    ensures op.Remove? ==> t.list != []
  {
  }

  /** Over every run of careful calls the text traps exactly at the listed functions and at the end handler. */
  lemma {:induction false} RunKeepsPatched(
      t: Table, text: map<int, Byte>, ops: seq<Op>, fns: set<int>, endHandler: int)
    requires Consistent(t) && t.lastNum + |ops| < U32_RANGE && Patched(text, fns, t.list, endHandler)
    ensures match Prepared(t, text, ops, fns, endHandler)
            case None => true
            case Some(x) => Run(t, ops) == Some(x.0) && Consistent(x.0) && Patched(x.1, fns, x.0.list, endHandler)
    decreases |ops|
  {
    hide Consistent, Patched, Careful, Step, Outcome;
    if ops != [] && Careful(t, ops[0], fns, endHandler) {
      CarefulHasOutcome(t, ops[0], fns, endHandler);
      StepKeepsPatched(t, ops[0], text, fns, endHandler);
      var r := Outcome(t, ops[0]);
      RunKeepsPatched(r.table, Written(text, ops[0], r.opcode), ops[1..], fns, endHandler);
    }
  }

  /**
   From do_become_debugger on: the functions start with a push, lie apart, and have no push in front of them. Then
   whatever breakpoints have been set and removed with care, the text is as CallIsTransparent wants it.
   */
  lemma {:induction false} SessionIsPatched(text: map<int, Byte>, ops: seq<Op>, fns: set<int>, endHandler: int)
    requires |ops| < U32_RANGE && endHandler in fns && 0 !in fns
    requires forall a, b :: a in fns && b in fns && a < b ==> a + 2 <= b
    requires forall a :: a in fns ==>
        a in text && a + 1 in text && text[a] == PUSHRBP_OPCODE && Fetch(text, a - 1) != PUSHRBP_OPCODE
    ensures var session := Prepared(EMPTY, text[endHandler := INT3_OPCODE], ops, fns, endHandler);
            session.Some? ==> Patched(session.value.1, fns, session.value.0.list, endHandler)
  {
    RunKeepsPatched(EMPTY, text[endHandler := INT3_OPCODE], ops, fns, endHandler);
  }
}
