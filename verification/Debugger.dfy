/**
 The debugger's system calls and the trap handler on the kernel's own data: a linked list of
 breakpoint nodes, the fixed arrays of the debug record, and the debuggee's saved context.
 */
module Debugger {
  import opened Kernel
  import opened Debuggee
  import BreakpointTable

  class Node {
    var num: Word32
    var addr: int
    var next: Node?
    var endEnable: int

    constructor (num: Word32, addr: int, endEnable: int)
      ensures this.num == num && this.addr == addr && this.endEnable == endEnable && next == null
    {
      this.num, this.addr, this.endEnable, this.next := num, addr, endEnable, null;
    }
  }

  /** The debuggee: its memory and the registers saved at the trap. */
  class Context {
    var text: map<int, Byte>
    var words: map<int, int>
    var rip: int
    var rsp: int
    var rbp: int
    const stackTop: int

    constructor (text: map<int, Byte>, words: map<int, int>, rip: int, rsp: int, rbp: int, stackTop: int)
      ensures this.text == text && this.words == words && this.stackTop == stackTop
      ensures this.rip == rip && this.rsp == rsp && this.rbp == rbp
    {
      this.text, this.words, this.stackTop := text, words, stackTop;
      this.rip, this.rsp, this.rbp := rip, rsp, rbp;
    }
  }

  /** The nodes are exactly the list that starts at `head`; none occurs twice. */
  ghost predicate Linear(nodes: seq<Node>, head: Node?)
    reads nodes
  {
    && (if nodes == [] then head == null else head == nodes[0] && nodes[|nodes| - 1].next == null)
    && (forall i, j :: 0 <= i < j < |nodes| ==> nodes[i] != nodes[j])
    && (forall i :: 0 <= i < |nodes| - 1 ==> nodes[i].next == nodes[i + 1])
  }

  ghost function Content(node: Node): Breakpoint
    reads node
  {
    Breakpoint(node.num, node.addr, node.endEnable)
  }

  ghost function Contents(nodes: seq<Node>): (list: seq<Breakpoint>)
    reads nodes
    ensures |list| == |nodes| && forall i :: 0 <= i < |nodes| ==> list[i] == Content(nodes[i])
  {
    if nodes == [] then [] else [Content(nodes[0])] + Contents(nodes[1..])
  }

  lemma {:induction false} HeadIsNullIffEmpty(nodes: seq<Node>, head: Node?)
    requires Linear(nodes, head)
    ensures head == null <==> nodes == []
    ensures head != null ==> head == nodes[0]
    ensures nodes == [] ==> Contents(nodes) == []
  {
  }

  lemma {:induction false} NextOf(nodes: seq<Node>, head: Node?, i: nat)
    requires Linear(nodes, head) && i < |nodes|
    ensures nodes[i].next == if i + 1 < |nodes| then nodes[i + 1] else null
  {
  }

  lemma {:induction false} Singleton(node: Node)
    requires node.next == null
    ensures Linear([node], node) && Contents([node]) == [Content(node)]
  {
  }

  /** A list stays linear when the node behind position `i` is skipped. */
  lemma {:induction false} SkippedIsLinear(was: seq<Node>, i: nat)
    requires i + 1 < |was|
    requires forall a, b :: 0 <= a < b < |was| ==> was[a] != was[b]
    requires forall j :: 0 <= j < |was| - 1 && j != i ==> was[j].next == was[j + 1]
    requires was[i].next == if i + 2 < |was| then was[i + 2] else null
    requires i + 2 < |was| ==> was[|was| - 1].next == null
    ensures Linear(was[..i + 1] + was[i + 2..], was[0])
  {
    var nodes := was[..i + 1] + was[i + 2..];
    forall j | 0 <= j < |nodes| - 1 ensures nodes[j].next == nodes[j + 1] {
      var k := if j <= i then j else j + 1;
      assert nodes[j] == was[k];
    }
    forall a, b | 0 <= a < b < |nodes| ensures nodes[a] != nodes[b] {
      assert nodes[a] == was[if a <= i then a else a + 1] && nodes[b] == was[if b <= i then b else b + 1];
    }
    assert nodes[|nodes| - 1] == was[if i + 2 == |was| then i else |was| - 1];
  }

  lemma {:induction false} ContentsSkipped(was: seq<Node>, list: seq<Breakpoint>, i: nat)
    requires i + 1 < |was| == |list| && forall j :: 0 <= j < |was| ==> Content(was[j]) == list[j]
    ensures Contents(was[..i + 1] + was[i + 2..]) == list[..i + 1] + list[i + 2..]
  {
    var nodes, rest := was[..i + 1] + was[i + 2..], list[..i + 1] + list[i + 2..];
    forall j | 0 <= j < |nodes| ensures Contents(nodes)[j] == rest[j] {
      assert nodes[j] == was[if j <= i then j else j + 1];
    }
  }

  /** A list stays linear when a node is appended. */
  lemma {:induction false} ExtendedIsLinear(was: seq<Node>, added: Node)
    requires was != [] && added !in was && added.next == null && was[|was| - 1].next == added
    requires forall a, b :: 0 <= a < b < |was| ==> was[a] != was[b]
    requires forall j :: 0 <= j < |was| - 1 ==> was[j].next == was[j + 1]
    ensures Linear(was + [added], was[0])
  {
  }

  lemma {:induction false} ContentsExtended(was: seq<Node>, list: seq<Breakpoint>, added: Node)
    requires |was| == |list| && forall j :: 0 <= j < |was| ==> Content(was[j]) == list[j]
    ensures Contents(was + [added]) == list + [Content(added)]
  {
    var nodes := was + [added];
    forall j | 0 <= j < |nodes| ensures Contents(nodes)[j] == (list + [Content(added)])[j] {
    }
  }

  class DebugInfo {
    var head: Node?
    var breakpointCount: int
    var lastNum: Word32
    const endHandler: int
    const backtrace: array<int>
    const stack: array<StackElem>
    var stackCount: int
    var nxtInstr: Byte
    var rdxChange: int
    var rax: int
    var regs: Registers
    const ctx: Context
    var turn: Turn
    ghost var nodes: seq<Node>
    ghost var stops: seq<Stop>

    ghost predicate Valid()
      reads this, nodes
    {
      && Linear(nodes, head)
      && backtrace.Length == MAX_BACKTRACE && stack.Length == MAX_BACKTRACE
      && 0 <= stackCount <= MAX_BACKTRACE
    }

    ghost function Table(): BreakpointTable.Table
      reads this, nodes
    {
      BreakpointTable.Table(Contents(nodes), breakpointCount, lastNum)
    }

    /** The state in the terms of module Debuggee. */
    ghost function View(): Machine
      reads this, nodes, ctx, backtrace, stack
    {
      Machine(ctx.text, ctx.words, ctx.rip, ctx.rsp, ctx.rbp, ctx.stackTop, Contents(nodes), endHandler,
              backtrace[..], stack[..], stackCount, nxtInstr, rdxChange, rax, regs, turn, stops)
    }

    ghost predicate OnStack(addr: int)
      requires 0 <= stackCount <= stack.Length
      reads this, stack
    {
      exists i :: 0 <= i < stackCount && stack[i].startAddr == addr
    }

    /** do_become_debugger, for the debuggee that will be forked. */
    constructor (endHandler: int, ctx: Context)
      modifies ctx
      ensures Valid() && fresh(backtrace) && fresh(stack) && this.ctx == ctx && this.endHandler == endHandler
      ensures Table() == BreakpointTable.EMPTY && stackCount == 0 && rdxChange == 0 && turn == DebuggerRuns
          && stops == []
      ensures backtrace[..] == Padded([])
      ensures ctx.text == if endHandler != 0 then old(ctx.text)[endHandler := INT3_OPCODE] else old(ctx.text)
      ensures unchanged(ctx`words, ctx`rip, ctx`rsp, ctx`rbp)
    {
      head, breakpointCount, lastNum := null, 0, 0;
      this.endHandler, this.ctx := endHandler, ctx;
      backtrace := new int[MAX_BACKTRACE](_ => 0);
      stack := new StackElem[MAX_BACKTRACE](_ => StackElem(0, 0));
      stackCount, nxtInstr, rdxChange, turn := 0, 0, 0, DebuggerRuns;
      rax, regs := 0, Registers(0, 0, 0, 0);
      nodes, stops := [], [];
      new;
      if endHandler != 0 {
        ctx.text := ctx.text[endHandler := INT3_OPCODE];
      }
    }

    method SearchStack(addr: int) returns (onStack: bool)
      requires Valid()
      ensures onStack <==> OnStack(addr)
    {
      onStack := false;
      for i := 0 to stackCount
        invariant onStack <==> exists j :: 0 <= j < i && stack[j].startAddr == addr
      {
        if stack[i].startAddr == addr {
          onStack := true;
        }
      }
    }

    /** The walk of a set: stops at the breakpoint of `addr`, or else at the last node. */
    method Locate(addr: int) returns (node: Node, ghost i: nat)
      requires Valid() && head != null
      ensures i < |nodes| && nodes[i] == node
      ensures BreakpointTable.Find(Contents(nodes), addr) == if node.addr == addr then i else |nodes|
      ensures node.addr != addr ==> i == |nodes| - 1
    {
      node := head;
      i := 0;
      while node.next != null && node.addr != addr
        invariant i < |nodes| && nodes[i] == node
        invariant forall j :: 0 <= j < i ==> nodes[j].addr != addr
        decreases |nodes| - i
      {
        assert i < |nodes| - 1 && node.next == nodes[i + 1];
        node := node.next;
        i := i + 1;
      }
      assert i < |nodes| - 1 ==> node.next == nodes[i + 1];
      BreakpointTable.FindIs(Contents(nodes), addr, if node.addr == addr then i else |nodes|);
    }

    /** The walk of a remove that does not hit the head: stops in front of the node of `addr`, or at the last node. */
    method LocateBefore(addr: int) returns (node: Node, ghost i: nat)
      requires Valid() && head != null && head.addr != addr
      ensures i < |nodes| && nodes[i] == node
      ensures BreakpointTable.Find(Contents(nodes), addr) == i + 1
      ensures node.next == if i + 1 < |nodes| then nodes[i + 1] else null
    {
      node := head;
      i := 0;
      while node.next != null && node.next.addr != addr
        invariant i < |nodes| && nodes[i] == node
        invariant forall j :: 0 <= j <= i ==> nodes[j].addr != addr
        decreases |nodes| - i
      {
        assert i < |nodes| - 1 && node.next == nodes[i + 1];
        node := node.next;
        i := i + 1;
      }
      assert i < |nodes| - 1 ==> node.next == nodes[i + 1];
      BreakpointTable.FindIs(Contents(nodes), addr, i + 1);
    }

    method SetFlag(node: Node, ghost i: nat, flag: int)
      requires Linear(nodes, head) && i < |nodes| && nodes[i] == node
      modifies node`endEnable
      ensures Linear(nodes, head)
      ensures Contents(nodes) == old(Contents(nodes)[i := Contents(nodes)[i].(endEnable := flag)])
    {
      ghost var list := Contents(nodes);
      node.endEnable := flag;
      forall j | 0 <= j < |nodes| ensures Contents(nodes)[j] == list[i := list[i].(endEnable := flag)][j] {
        assert Contents(nodes)[j] == Content(nodes[j]);
        if j != i { assert nodes[j] != node; }
      }
    }

    method AppendAfter(last: Node, addr: int, flag: int)
      requires Linear(nodes, head) && nodes != [] && last == nodes[|nodes| - 1]
      modifies this`breakpointCount, this`lastNum, this`nodes, last`next
      ensures Linear(nodes, head) && forall n :: n in nodes && n !in old(nodes) ==> fresh(n)
      ensures Table() == BreakpointTable.Appended(old(Table()), addr, flag)
    {
      hide Contents;
      ghost var was, list := nodes, Contents(nodes);
      var added := new Node(AsU32(lastNum + 1), addr, flag);
      lastNum := added.num;
      breakpointCount := breakpointCount + 1;
      last.next := added;
      nodes := nodes + [added];
      forall j | 0 <= j < |was| - 1 ensures was[j].next == was[j + 1] {
        assert was[j] != last;
      }
      ExtendedIsLinear(was, added);
      ContentsExtended(was, list, added);
    }

    method UnlinkHead()
      requires Linear(nodes, head) && head != null
      modifies this`head, this`nodes
      ensures Linear(nodes, head) && nodes == old(nodes[1..])
      ensures Contents(nodes) == old(Contents(nodes)[1..])
    {
      assert 1 < |nodes| ==> nodes[0].next == nodes[1];
      head := head.next;
      nodes := nodes[1..];
    }

    /** Takes the node behind `prev` out of the list. */
    method UnlinkAfter(prev: Node, ghost i: nat)
      requires Linear(nodes, head) && i + 1 < |nodes| && nodes[i] == prev
      modifies this`nodes, prev`next
      ensures Linear(nodes, head) && nodes == old(nodes[..i + 1] + nodes[i + 2..])
      ensures Contents(nodes) == old(Contents(nodes)[..i + 1] + Contents(nodes)[i + 2..])
    {
      hide Contents;
      ghost var was, list := nodes, Contents(nodes);
      assert prev.next == was[i + 1];
      assert i + 2 < |was| ==> was[i + 1].next == was[i + 2];
      prev.next := prev.next.next;
      nodes := nodes[..i + 1] + nodes[i + 2..];
      forall j | 0 <= j < |was| - 1 && j != i ensures was[j].next == was[j + 1] {
        assert was[j] != prev;
      }
      SkippedIsLinear(was, i);
      ContentsSkipped(was, list, i);
    }

    method Patch(addr: int, opcode: Byte)
      requires Valid()
      modifies ctx`text
      ensures Valid() && Table() == old(Table())
      ensures ctx.text == old(ctx.text)[addr := opcode]
    {
      ctx.text := ctx.text[addr := opcode];
    }

    /** A set on a list that already has nodes. */
    method SetInList(addr: int, flag: int, allocOk: bool, onStack: bool) returns (ok: bool, push: bool)
      requires Valid() && head != null
      modifies this`breakpointCount, this`lastNum, this`nodes, nodes
      ensures Valid() && forall n :: n in nodes && n !in old(nodes) ==> fresh(n)
      ensures var r := BreakpointTable.AfterSet(old(Table()), addr, flag, onStack, allocOk);
              ok == r.ok && Table() == r.table && r.opcode == Some(if push then PUSHRBP_OPCODE else INT3_OPCODE)
    {
      hide Linear, Contents, BreakpointTable.Find;
      HeadIsNullIffEmpty(nodes, head);
      push := false;
      var node;
      ghost var i;
      node, i := Locate(addr);
      if node.addr == addr {
        if onStack && node.endEnable == 1 && flag == 0 {
          return false, false;
        } else if onStack && node.endEnable == 0 && flag == 1 {
          push := true;
        }
        SetFlag(node, i, flag);
        return true, push;
      }
      if breakpointCount == MAX_BREAKPOINTS {
        return false, false;
      }
      if !allocOk {
        return false, false;
      }
      AppendAfter(node, addr, flag);
      return true, false;
    }

    /** `allocOk` says whether the kernel heap can supply a node. */
    method SetBreakpoint(addr: int, flag: int, allocOk: bool) returns (ok: bool)
      requires Valid()
      modifies this`head, this`breakpointCount, this`lastNum, this`nodes, nodes, ctx`text
      ensures Valid() && forall n :: n in nodes && n !in old(nodes) ==> fresh(n)
      ensures var r := BreakpointTable.AfterSet(old(Table()), addr, flag, old(OnStack(addr)), allocOk);
              && ok == r.ok && Table() == r.table
              && r.opcode.Some? && ctx.text == old(ctx.text)[addr := r.opcode.value]
    {
      hide Linear, Contents;
      HeadIsNullIffEmpty(nodes, head);
      var onStack := SearchStack(addr);
      Patch(addr, INT3_OPCODE);
      if head == null {
        if !allocOk {
          return false;
        }
        lastNum := AsU32(lastNum + 1);
        breakpointCount := breakpointCount + 1;
        head := new Node(lastNum, addr, flag);
        nodes := [head];
        Singleton(head);
        return true;
      }
      var push;
      ok, push := SetInList(addr, flag, allocOk, onStack);
      if push {
        Patch(addr, PUSHRBP_OPCODE);
      }
    }

    /** Takes the node of `addr` out of the list unless a call is still redirected. */
    method RemoveFromList(addr: int, onStack: bool) returns (ok: bool)
      requires Valid() && head != null
      modifies this`head, this`nodes, nodes
      ensures Valid()
      ensures var r := BreakpointTable.AfterRemove(old(Table()), addr, onStack);
              && ok == r.ok && Table() == r.table.(count := old(breakpointCount))
    {
      hide Linear, Contents, BreakpointTable.Find;
      HeadIsNullIffEmpty(nodes, head);
      if head.addr == addr {
        BreakpointTable.FindIs(Contents(nodes), addr, 0);
        if head.endEnable == 1 && onStack {
          return false;
        }
        UnlinkHead();
      } else {
        var node;
        ghost var i;
        node, i := LocateBefore(addr);
        if node.next == null {
          return false;
        }
        if node.endEnable == 1 && onStack {
          return false;
        }
        UnlinkAfter(node, i);
      }
      return true;
    }

    /** Removing from an empty list would read through the null head, so callers must not. */
    method RemoveBreakpoint(addr: int) returns (ok: bool)
      requires Valid() && head != null
      modifies this`head, this`breakpointCount, this`nodes, nodes, ctx`text
      ensures Valid()
      ensures var r := BreakpointTable.AfterRemove(old(Table()), addr, old(OnStack(addr)));
              && ok == r.ok && Table() == r.table
              && ctx.text == (if r.opcode.Some? then old(ctx.text)[addr := r.opcode.value] else old(ctx.text))
    {
      hide Linear, Contents, BreakpointTable.Find;
      HeadIsNullIffEmpty(nodes, head);
      var onStack := SearchStack(addr);
      ok := RemoveFromList(addr, onStack);
      if ok {
        Patch(addr, PUSHRBP_OPCODE);
        breakpointCount := breakpointCount - 1;
      }
    }

    /** Copies the list, in order, to the caller's buffer. */
    method InfoBreakpoints(ubp: array<Breakpoint>) returns (n: nat)
      requires Valid() && |nodes| <= ubp.Length
      modifies ubp
      ensures n == |nodes| && ubp[..n] == Contents(nodes) && ubp[n..] == old(ubp[n..])
    {
      hide Contents;
      ghost var list := Contents(nodes);
      var bp := head;
      n := 0;
      while bp != null
        invariant n <= |nodes| && bp == (if n < |nodes| then nodes[n] else null)
        invariant forall j :: 0 <= j < n ==> ubp[j] == list[j]
        invariant forall j :: n <= j < ubp.Length ==> ubp[j] == old(ubp[j])
        decreases |nodes| - n
      {
        assert list[n] == Content(bp);
        assert n < |nodes| - 1 ==> bp.next == nodes[n + 1];
        ubp[n] := Breakpoint(bp.num, bp.addr, bp.endEnable);
        n := n + 1;
        bp := bp.next;
      }
    }

    // ----- the trap handler -----

    /** The list walk of the handler. */
    method FindHit(addr: int) returns (bp: Node?)
      requires Valid()
      ensures bp == if Hit(Contents(nodes), addr) < |nodes| then nodes[Hit(Contents(nodes), addr)] else null
    {
      bp := head;
      ghost var i: nat := 0;
      while bp != null && bp.addr != addr && bp.addr != addr - 1
        invariant i <= |nodes| && bp == (if i < |nodes| then nodes[i] else null)
        invariant forall j :: 0 <= j < i ==> nodes[j].addr != addr && nodes[j].addr != addr - 1
        decreases |nodes| - i
      {
        NextOf(nodes, head, i);
        bp := bp.next;
        i := i + 1;
      }
      HitIs(Contents(nodes), addr, i);
    }

    /**
     Clears the array, stores the first entries and walks the frame pointers from rbp. The walk ends
     because saved frame pointers increase.
     */
    method CaptureBacktrace(first: seq<int>)
      requires backtrace.Length == MAX_BACKTRACE && Linked(ctx.words, ctx.rbp, ctx.stackTop)
      requires |first + Walk(ctx.words, ctx.rbp, endHandler, ctx.stackTop)| <= MAX_BACKTRACE && |first| <= 2
      modifies backtrace
      ensures backtrace[..] == Padded(first + Walk(ctx.words, ctx.rbp, endHandler, ctx.stackTop))
    {
      ghost var all := first + Walk(ctx.words, ctx.rbp, endHandler, ctx.stackTop);
      for k := 0 to MAX_BACKTRACE
        invariant forall j :: 0 <= j < k ==> backtrace[j] == 0
      {
        backtrace[k] := 0;
      }
      for k := 0 to |first|
        invariant forall j :: 0 <= j < k ==> backtrace[j] == first[j]
        invariant forall j :: k <= j < MAX_BACKTRACE ==> backtrace[j] == 0
      {
        backtrace[k] := first[k];
      }
      var i := |first|;
      var rbp := ctx.rbp;
      while Load(ctx.words, rbp + 8) != END_ADDR
        invariant Linked(ctx.words, rbp, ctx.stackTop) && 0 <= i <= |all|
        invariant all[i..] == Walk(ctx.words, rbp, endHandler, ctx.stackTop)
        invariant forall j :: 0 <= j < i ==> backtrace[j] == all[j]
        invariant forall j :: i <= j < MAX_BACKTRACE ==> backtrace[j] == 0
        decreases ctx.stackTop - rbp
      {
        assert all[i] == all[i..][0] && all[i + 1..] == all[i..][1..];
        if Load(ctx.words, rbp + 8) == endHandler {
          backtrace[i] := Load(ctx.words, rbp + 16);
        } else {
          backtrace[i] := Load(ctx.words, rbp + 8);
        }
        i := i + 1;
        rbp := Load(ctx.words, rbp);
      }
      assert |all[i..]| == 0;
    }

    /** The search of the end handler for the record of the call that has just returned. */
    method FindRecord(ret: int) returns (i: int)
      requires stack.Length == MAX_BACKTRACE && 0 <= stackCount <= MAX_BACKTRACE
      ensures i == Topmost(stack[..], stackCount, ret)
    {
      i := stackCount - 1;
      while 0 <= i && stack[i].returnAddr != ret
        invariant -1 <= i < stackCount
        invariant Topmost(stack[..], stackCount, ret) == Topmost(stack[..], i + 1, ret)
      {
        i := i - 1;
      }
    }

    /** fill_debugee_regs */
    method FillDebugeeRegs()
      modifies this`regs
      ensures regs == Registers(ctx.rip, ctx.rsp, ctx.rbp, rdxChange)
    {
      regs := Registers(ctx.rip, ctx.rsp, ctx.rbp, rdxChange);
    }

    method PlantSecondTrap()
      modifies this`nxtInstr, this`turn, this`rax, this`regs, ctx`text, ctx`rip
      ensures nxtInstr == Fetch(old(ctx.text), old(ctx.rip)) && turn == DebuggerRuns
      ensures rax == ctx.rip && regs == Registers(ctx.rip, ctx.rsp, ctx.rbp, rdxChange)
      ensures ctx.text == old(ctx.text)[old(ctx.rip) := INT3_OPCODE][old(ctx.rip) - 1 := PUSHRBP_OPCODE]
      ensures ctx.rip == old(ctx.rip) - 1
    {
      nxtInstr := Fetch(ctx.text, ctx.rip);
      ctx.text := ctx.text[ctx.rip := INT3_OPCODE];
      ctx.rip := ctx.rip - 1;
      rax := ctx.rip;
      ctx.text := ctx.text[ctx.rip := PUSHRBP_OPCODE];
      FillDebugeeRegs();
      turn := DebuggerRuns;
    }

    method HandleSecondTrap()
      modifies this`turn, ctx`text, ctx`rip
      ensures View() == FinishStepOver(old(View()))
    {
      ctx.text := ctx.text[ctx.rip - 2 := INT3_OPCODE];
      ctx.text := ctx.text[ctx.rip - 1 := nxtInstr];
      ctx.rip := ctx.rip - 1;
      turn := DebuggeeRuns;
    }

    /** The part of an entry stop that does not depend on the breakpoint. */
    method StopAtEntry()
      requires Valid() && EntryFits(View())
      modifies this`nxtInstr, this`turn, this`rax, this`regs, this`stackCount, ctx`text, ctx`rip, backtrace, stack
      ensures Valid() && View() == EntryStop(old(View()), Breakpoint(0, 0, 0))
    {
      hide Walk, Linked, Linear, Contents, Padded;
      WalkIsEmptyIff(ctx.words, ctx.rbp, endHandler, ctx.stackTop);
      var at := ctx.rip - 1;
      var ret := Load(ctx.words, ctx.rsp);
      CaptureBacktrace([at, ret]);
      RecordCall(Load(ctx.words, ctx.rbp + 8) == END_ADDR, StackElem(at, ret));
      PlantSecondTrap();
    }

    method RedirectReturn()
      modifies this`rdxChange, ctx`rsp, ctx`words
      ensures View() == Redirected(old(View()))
    {
      ctx.rsp := ctx.rsp - 8;
      rdxChange := rdxChange + 8;
      ctx.words := ctx.words[ctx.rsp := endHandler];
    }

    method HandleEntry(endEnable: int, ghost bp: Breakpoint)
      requires Valid() && EntryFits(View()) && bp.endEnable == endEnable
      modifies this`nxtInstr, this`turn, this`rax, this`regs, this`stackCount, this`rdxChange, ctx, backtrace, stack
      ensures View() == EntryStop(old(View()), bp)
    {
      hide Linear, Contents, EntryFits, Walk, Linked, Padded;
      StopAtEntry();
      if endEnable == 1 {
        RedirectReturn();
      }
    }

    /** A call made by main starts the record anew, any other extends it. */
    method RecordCall(onlyMain: bool, elem: StackElem)
      requires stack.Length == MAX_BACKTRACE && 0 <= stackCount && (!onlyMain ==> stackCount < MAX_BACKTRACE)
      modifies this`stackCount, stack
      ensures var at := if onlyMain then 0 else old(stackCount);
              stackCount == at + 1 && stack[..] == old(stack[..])[at := elem]
    {
      if onlyMain {
        stackCount := 1;
        stack[0] := elem;
      } else {
        stack[stackCount] := elem;
        stackCount := stackCount + 1;
      }
    }

    method HandleEnd()
      requires Valid() && EndFits(View())
      modifies this`nxtInstr, this`turn, this`rax, this`regs, this`stackCount, this`rdxChange, ctx, backtrace
      ensures View() == EndStop(old(View()))
    {
      hide Walk, Linked, Linear, Contents, Padded, Topmost;
      var ret := Load(ctx.words, ctx.rsp);
      CaptureBacktrace([ret]);
      stackCount := FindRecord(ret);
      PlantSecondTrap();
      rdxChange := rdxChange - 8;
    }

    ghost method NoteStop()
      modifies this`stops
      ensures View() == Noted(old(View()))
    {
      if turn == DebuggerRuns {
        stops := stops + [Observed(View())];
      }
    }

    /** int3_handler; the arrays must have room for what this trap makes it write. */
    method Int3Handler()
      requires Valid() && TrapFits(View())
      modifies this`nxtInstr, this`turn, this`rax, this`regs, this`stackCount, this`rdxChange, this`stops, ctx,
        backtrace, stack
      ensures View() == Int3(old(View()))
    {
      hide Linear, Linked, Walk, EntryStop, EndStop, EntryFits, EndFits, Hit;
      var bp := FindHit(ctx.rip - 1);
      if bp != null {
        if Fetch(ctx.text, ctx.rip - 2) == PUSHRBP_OPCODE {
          HandleSecondTrap();
        } else {
          HandleEntry(bp.endEnable, Content(bp));
          NoteStop();
        }
      } else {
        if Fetch(ctx.text, ctx.rip - 2) == PUSHRBP_OPCODE {
          HandleSecondTrap();
        } else {
          HandleEnd();
          NoteStop();
        }
      }
    }

    /** do_backtrace copies up to the first zero, which must be inside the array. */
    method DoBacktrace(bt: array<int>) returns (n: nat)
      requires backtrace.Length == MAX_BACKTRACE && 0 in backtrace[..]
      requires MAX_BACKTRACE <= bt.Length && bt != backtrace
      modifies bt
      ensures n < MAX_BACKTRACE && backtrace[n] == 0 && 0 !in backtrace[..n] && bt[..n] == backtrace[..n]
      ensures bt[n..] == old(bt[n..]) && bt[..n] == Observed(View()).backtrace
    {
      ghost var end :| 0 <= end < MAX_BACKTRACE && backtrace[end] == 0;
      n := 0;
      while backtrace[n] != 0
        invariant n <= end && 0 !in backtrace[..n]
        invariant forall j :: 0 <= j < n ==> bt[j] == backtrace[j]
        invariant bt[n..] == old(bt[..])[n..]
        decreases MAX_BACKTRACE - n
      {
        bt[n] := backtrace[n];
        assert backtrace[..n + 1] == backtrace[..n] + [backtrace[n]];
        n := n + 1;
      }
      UpToZeroIs(backtrace[..], n);
    }

    /** do_info_registers */
    method InfoRegisters() returns (shown: Registers)
      ensures shown == regs
    {
      shown := regs;
    }

    /** do_wait_and_continue */
    method WaitAndContinue()
      modifies this`turn
      ensures View() == Continue(old(View()))
    {
      turn := DebuggeeRuns;
    }
  }

  lemma {:induction false} WalkIsEmptyIff(words: map<int, int>, rbp: int, endHandler: int, top: int)
    requires Linked(words, rbp, top)
    ensures |Walk(words, rbp, endHandler, top)| == 0 <==> Load(words, rbp + 8) == END_ADDR
  {
  }

  lemma {:induction false} HitIs(list: seq<Breakpoint>, addr: int, i: nat)
    requires i <= |list| && (i < |list| ==> list[i].addr == addr || list[i].addr == addr - 1)
    requires forall j :: 0 <= j < i ==> list[j].addr != addr && list[j].addr != addr - 1
    ensures Hit(list, addr) == i
  {
  }
}
