/**
 The debugged program as the trap handler sees it: text bytes, stack words, three registers,
 and the bookkeeping that the handler keeps on the debugger's side.
 */
module Debuggee {
  import opened Kernel

  const INT3_OPCODE: Byte := 0xCC
  const PUSHRBP_OPCODE: Byte := 0x55
  const END_ADDR: int := 0x10000003B
  const MAX_BACKTRACE: nat := 64
  const MAX_BREAKPOINTS: nat := 8

  datatype Breakpoint = Breakpoint(num: Word32, addr: int, endEnable: int)
  datatype StackElem = StackElem(startAddr: int, returnAddr: int)

  /** Which of the two processes of the session is scheduled. */
  datatype Turn = DebuggeeRuns | DebuggerRuns

  /** The debuggee's registers as do_info_registers shows them; of rdx, only what is added to it. */
  datatype Registers = Registers(rip: int, rsp: int, rbp: int, rdxChange: int)

  /**
   What the debugger's calls return when it is woken: the result of the wait, which is an address, the result of
   do_backtrace, and the rdx correction in the debuggee's registers.
   */
  datatype Stop = Stop(addr: int, backtrace: seq<int>, rdxChange: int)

  datatype Machine = Machine(
    text: map<int, Byte>, words: map<int, int>, rip: int, rsp: int, rbp: int, stackTop: int,
    bps: seq<Breakpoint>, endHandler: int, backtrace: seq<int>, stack: seq<StackElem>, stackCount: int,
    nxtInstr: Byte, rdxChange: int, rax: int, regs: Registers, turn: Turn, stops: seq<Stop>)

  function Fetch(text: map<int, Byte>, a: int): Byte { if a in text then text[a] else 0 }
  function Load(words: map<int, int>, a: int): int { if a in words then words[a] else 0 }

  // ----- the trap handler -----

  /** The breakpoint that the handler's list walk stops at, or the length of the list. */
  function Hit(bps: seq<Breakpoint>, addr: int): (i: nat)
    ensures i <= |bps|
    ensures i < |bps| ==> bps[i].addr == addr || bps[i].addr == addr - 1
    ensures forall j :: 0 <= j < i ==> bps[j].addr != addr && bps[j].addr != addr - 1
  {
    if bps == [] then 0
    else if bps[0].addr == addr || bps[0].addr == addr - 1 then 0
    else 1 + Hit(bps[1..], addr)
  }

  /** The return address of the frame at `rbp`, looking through a slot that the handler replaced. */
  function ReturnOf(words: map<int, int>, rbp: int, endHandler: int): int {
    if Load(words, rbp + 8) == endHandler then Load(words, rbp + 16) else Load(words, rbp + 8)
  }

  /** Saved frame pointers strictly increase up to main's frame, which is below the stack top. */
  predicate Linked(words: map<int, int>, rbp: int, top: int)
    decreases top - rbp
  {
    rbp < top &&
    (Load(words, rbp + 8) == END_ADDR || (rbp < Load(words, rbp) && Linked(words, Load(words, rbp), top)))
  }

  /** The return addresses that the frame-pointer walk collects. */
  function Walk(words: map<int, int>, rbp: int, endHandler: int, top: int): seq<int>
    requires Linked(words, rbp, top)
    decreases top - rbp
  {
    if Load(words, rbp + 8) == END_ADDR then []
    else [ReturnOf(words, rbp, endHandler)] + Walk(words, Load(words, rbp), endHandler, top)
  }

  function Padded(bt: seq<int>): seq<int> {
    if |bt| < MAX_BACKTRACE then bt + seq(MAX_BACKTRACE - |bt|, _ => 0) else bt
  }

  /** The entries in front of the first zero, all of them if there is none. */
  function UpToZero(a: seq<int>): seq<int> {
    if a == [] || a[0] == 0 then [] else [a[0]] + UpToZero(a[1..])
  }

  /** The entries in front of the first zero are what do_backtrace copies. */
  lemma {:induction false} UpToZeroIs(a: seq<int>, n: nat)
    requires n <= |a| && 0 !in a[..n] && (n == |a| || a[n] == 0)
    ensures UpToZero(a) == a[..n]
    decreases n
  {
    if n > 0 {
      assert a[0] in a[..n] && a[1..][..n - 1] == a[..n][1..];
      UpToZeroIs(a[1..], n - 1);
    }
  }

  /** The topmost recorded call that returns to `ret`, or -1. */
  function Topmost(stack: seq<StackElem>, count: int, ret: int): (i: int)
    requires count <= |stack|
    ensures -1 <= i
    ensures 0 <= i ==> i < count && stack[i].returnAddr == ret
    ensures forall j :: 0 <= j < count && i < j ==> stack[j].returnAddr != ret
    decreases count
  {
    if count <= 0 then -1
    else if stack[count - 1].returnAddr == ret then count - 1
    else Topmost(stack, count - 1, ret)
  }

  /** Second trap: both bytes are put back and the debuggee goes on behind the push. */
  function FinishStepOver(m: Machine): Machine {
    m.(text := m.text[m.rip - 2 := INT3_OPCODE][m.rip - 1 := m.nxtInstr], rip := m.rip - 1, turn := DebuggeeRuns)
  }

  /**
   First trap: save the byte behind the trap, plant the second trap there, put the push back, and hand the address
   and the registers to the debugger.
   */
  function BeginStepOver(m: Machine): Machine {
    m.(nxtInstr := Fetch(m.text, m.rip),
       text := m.text[m.rip := INT3_OPCODE][m.rip - 1 := PUSHRBP_OPCODE],
       rip := m.rip - 1, turn := DebuggerRuns,
       rax := m.rip - 1, regs := Registers(m.rip - 1, m.rsp, m.rbp, m.rdxChange))
  }

  function EntryBacktrace(m: Machine): seq<int>
    requires Linked(m.words, m.rbp, m.stackTop)
  {
    [m.rip - 1, Load(m.words, m.rsp)] + Walk(m.words, m.rbp, m.endHandler, m.stackTop)
  }

  function EndBacktrace(m: Machine): seq<int>
    requires Linked(m.words, m.rbp, m.stackTop)
  {
    [Load(m.words, m.rsp)] + Walk(m.words, m.rbp, m.endHandler, m.stackTop)
  }

  /** The end handler's address is slipped in below the true return address. */
  function Redirected(m: Machine): Machine {
    m.(rsp := m.rsp - 8, rdxChange := m.rdxChange + 8, words := m.words[m.rsp - 8 := m.endHandler])
  }

  predicate EntryFits(m: Machine) {
    && Linked(m.words, m.rbp, m.stackTop)
    && |m.stack| == MAX_BACKTRACE
    && |EntryBacktrace(m)| <= MAX_BACKTRACE
    && 0 <= m.stackCount <= MAX_BACKTRACE
    && (|EntryBacktrace(m)| > 2 ==> m.stackCount < MAX_BACKTRACE)
  }

  /** A breakpoint at a function's first byte was reached. */
  function EntryStop(m: Machine, bp: Breakpoint): Machine
    requires EntryFits(m)
  {
    var bt := EntryBacktrace(m);
    var elem := StackElem(m.rip - 1, Load(m.words, m.rsp));
    var at := if |bt| == 2 then 0 else m.stackCount;
    var stopped := BeginStepOver(m).(
      backtrace := Padded(bt), stack := m.stack[at := elem], stackCount := at + 1);
    if bp.endEnable == 1 then Redirected(stopped) else stopped
  }

  predicate EndFits(m: Machine) {
    && Linked(m.words, m.rbp, m.stackTop)
    && |EndBacktrace(m)| <= MAX_BACKTRACE
    && 0 <= m.stackCount <= |m.stack| == MAX_BACKTRACE
  }

  /** A redirected function has returned into the end handler. */
  function EndStop(m: Machine): Machine
    requires EndFits(m)
  {
    var bt := EndBacktrace(m);
    BeginStepOver(m).(
      backtrace := Padded(bt), stackCount := Topmost(m.stack, m.stackCount, Load(m.words, m.rsp)),
      rdxChange := m.rdxChange - 8)
  }

  predicate IsSecondTrap(m: Machine) { Fetch(m.text, m.rip - 2) == PUSHRBP_OPCODE }
  predicate IsListed(m: Machine) { Hit(m.bps, m.rip - 1) < |m.bps| }

  /** The arrays of the debugger's record have room for what this trap makes the handler write. */
  predicate TrapFits(m: Machine) {
    IsSecondTrap(m) || if IsListed(m) then EntryFits(m) else EndFits(m)
  }

  /** What the debugger's system calls return in the state `m`. */
  function Observed(m: Machine): Stop { Stop(m.rax, UpToZero(m.backtrace), m.regs.rdxChange) }

  /** A stop is what the debugger can observe once it has been woken. */
  function Noted(m: Machine): Machine {
    if m.turn == DebuggerRuns then m.(stops := m.stops + [Observed(m)]) else m
  }

  /** int3_handler: `m.rip` is already behind the trapping byte. */
  function Int3(m: Machine): Machine
    requires TrapFits(m)
  {
    if IsSecondTrap(m) then FinishStepOver(m)
    else if IsListed(m) then Noted(EntryStop(m, m.bps[Hit(m.bps, m.rip - 1)]))
    else Noted(EndStop(m))
  }

  // ----- the processor -----

  function Push(m: Machine, v: int): Machine {
    m.(rsp := m.rsp - 8, words := m.words[m.rsp - 8 := v])
  }

  /**
   One instruction at a patched address: a trap into the handler, or the push that the trap replaces.
   None means that the handler would have left its fixed-size arrays.
   */
  function Execute(m: Machine): Option<Machine> {
    if Fetch(m.text, m.rip) == INT3_OPCODE then
      var trapped := m.(rip := m.rip + 1);
      if TrapFits(trapped) then Some(Int3(trapped)) else None
    else if Fetch(m.text, m.rip) == PUSHRBP_OPCODE then Some(Push(m, m.rbp).(rip := m.rip + 1))
    else Some(m)
  }

  /** do_wait_and_continue: the debugger hands the processor back. */
  function Continue(m: Machine): Machine { m.(turn := DebuggeeRuns) }

  /** `mov rbp, rsp` and room for local variables. */
  function OpenFrame(m: Machine, locals: nat): Machine { m.(rbp := m.rsp, rsp := m.rsp - 8 * locals) }

  /** `leave; ret` */
  function LeaveAndReturn(m: Machine): Machine {
    m.(rsp := m.rbp + 16, rbp := Load(m.words, m.rbp), rip := Load(m.words, m.rbp + 8))
  }
}
