/**
 A debugged program run as a tree of function calls. Breakpoints replace the first byte of
 functions, and functions whose end is watched return through the end handler.
 */
module CallTree {
  import opened Kernel
  import opened Debuggee

  /**
   What a function body does: it calls the function at `entry` from just before `ret`, or it assigns to one of
   its own local variables.
   */
  datatype Action =
    | Invoke(entry: int, ret: int, locals: nat, body: seq<Action>)
    | Assign(local: nat, value: int)

  type Call = a: Action | a.Invoke? witness Invoke(0, 0, 0, [])

  /** An active call below main; `redirected` if its return slot holds the end handler. */
  datatype Frame = Frame(ret: int, redirected: bool)

  // ----- running -----

  /** Runs the patched instruction at rip; the debugger answers a stop by continuing. */
  function ThroughPatch(m: Machine): Option<Machine> {
    var once :- Execute(m);
    if once.turn == DebuggerRuns then
      var pushed :- Execute(Continue(once));
      Execute(pushed)
    else Some(once)
  }

  /** The epilogue of a function, and the end handler's own frame if that is where the return leads. */
  function FinishCall(done: Machine): Option<Machine> {
    var back := LeaveAndReturn(done);
    if back.rip == back.endHandler then
      var handled :- ThroughPatch(back);
      Some(LeaveAndReturn(OpenFrame(handled, 0)))
    else Some(back)
  }

  function RunCall(m: Machine, c: Call): Option<Machine>
    decreases c, 1
  {
    var entered :- ThroughPatch(Push(m, c.ret).(rip := c.entry));
    var done :- RunBody(OpenFrame(entered, c.locals), c.body);
    FinishCall(done)
  }

  /** Local variables are below the frame pointer. */
  function Local(rbp: int, local: nat): int { rbp - 8 * (local + 1) }

  function AssignLocal(m: Machine, local: nat, value: int): Machine {
    m.(words := m.words[Local(m.rbp, local) := value])
  }

  function RunBody(m: Machine, body: seq<Action>): Option<Machine>
    decreases body, 0
  {
    if body == [] then Some(m)
    else
      var next :- if body[0].Invoke? then RunCall(m, body[0]) else Some(AssignLocal(m, body[0].local, body[0].value));
      RunBody(next, body[1..])
  }

  /** The stack words if nothing but the body's own assignments happened. */
  function Assigned(words: map<int, int>, rbp: int, body: seq<Action>): map<int, int>
    decreases |body|
  {
    if body == [] then words
    else
      match body[0]
      case Invoke(_, _, _, _) => Assigned(words, rbp, body[1..])
      case Assign(local, value) => Assigned(words[Local(rbp, local) := value], rbp, body[1..])
  }

  // ----- what a run should look like -----

  predicate Listed(bps: seq<Breakpoint>, a: int) { exists i :: 0 <= i < |bps| && bps[i].addr == a }

  predicate EndWatched(bps: seq<Breakpoint>, a: int) {
    exists i :: 0 <= i < |bps| && bps[i].addr == a && bps[i].endEnable == 1
  }

  function Rets(frames: seq<Frame>): seq<int> {
    seq(|frames|, i requires 0 <= i < |frames| => frames[i].ret)
  }

  /** The return addresses, innermost first, that are hidden behind the end handler. */
  function Pending(frames: seq<Frame>): seq<int> {
    if frames == [] then []
    else (if frames[0].redirected then [frames[0].ret] else []) + Pending(frames[1..])
  }

  /** The stops of a call made below `callers` while `pending` calls are redirected. */
  function Trace(c: Call, bps: seq<Breakpoint>, endHandler: int, callers: seq<int>, pending: nat): seq<Stop>
    decreases c, 1
  {
    var inside := if EndWatched(bps, c.entry) then pending + 1 else pending;
    (if Listed(bps, c.entry) then [Stop(c.entry, [c.entry, c.ret] + callers, 8 * pending)] else [])
    + TraceAll(c.body, bps, endHandler, [c.ret] + callers, inside)
    + (if EndWatched(bps, c.entry) then [Stop(endHandler, [c.ret] + callers, 8 * inside)] else [])
  }

  function TraceAll(body: seq<Action>, bps: seq<Breakpoint>, endHandler: int, callers: seq<int>,
      pending: nat): seq<Stop>
    decreases body, 0
  {
    if body == [] then []
    else
      (if body[0].Invoke? then Trace(body[0], bps, endHandler, callers, pending) else [])
      + TraceAll(body[1..], bps, endHandler, callers, pending)
  }

  // ----- the record of calls -----

  /** The calls on the debugger's record. */
  function OnRecord(m: Machine): seq<StackElem> {
    if 0 <= m.stackCount <= |m.stack| then m.stack[..m.stackCount] else []
  }

  /**
   The record after an entry stop below `callers`; None if the backtrace or the record outgrows its array. A
   call made by main starts the record anew.
   */
  function AfterEntry(c: Call, bps: seq<Breakpoint>, callers: seq<int>, recs: seq<StackElem>): Option<seq<StackElem>> {
    if !Listed(bps, c.entry) then Some(recs)
    else if |callers| + 2 > MAX_BACKTRACE then None
    else if callers == [] then Some([StackElem(c.entry, c.ret)])
    else if |recs| < MAX_BACKTRACE then Some(recs + [StackElem(c.entry, c.ret)])
    else None
  }

  /** An end stop drops the topmost call with its return address and everything above that. */
  function AfterEnd(c: Call, bps: seq<Breakpoint>, recs: seq<StackElem>): seq<StackElem> {
    if EndWatched(bps, c.entry) && Topmost(recs, |recs|, c.ret) >= 0 then recs[..Topmost(recs, |recs|, c.ret)] else recs
  }

  /** The record after a whole call, None if an array is outgrown on the way. */
  function Recorded(c: Call, bps: seq<Breakpoint>, callers: seq<int>, recs: seq<StackElem>): Option<seq<StackElem>>
    decreases c, 1
  {
    var entered :- AfterEntry(c, bps, callers, recs);
    var done :- RecordedAll(c.body, bps, [c.ret] + callers, entered);
    Some(AfterEnd(c, bps, done))
  }

  function RecordedAll(body: seq<Action>, bps: seq<Breakpoint>, callers: seq<int>,
      recs: seq<StackElem>): Option<seq<StackElem>>
    decreases body, 0
  {
    if body == [] then Some(recs)
    else
      var next :- if body[0].Invoke? then Recorded(body[0], bps, callers, recs) else Some(recs);
      RecordedAll(body[1..], bps, callers, next)
  }

  function EntryStops(c: Call, bps: seq<Breakpoint>): nat
    decreases c, 1
  {
    (if Listed(bps, c.entry) then 1 else 0) + EntryStopsAll(c.body, bps)
  }

  function EntryStopsAll(body: seq<Action>, bps: seq<Breakpoint>): nat
    decreases body, 0
  {
    if body == [] then 0
    else
      (if body[0].Invoke? then EntryStops(body[0], bps) else 0)
      + EntryStopsAll(body[1..], bps)
  }

  function Height(c: Call): nat
    decreases c, 1
  {
    1 + HeightAll(c.body)
  }

  function HeightAll(body: seq<Action>): nat
    decreases body, 0
  {
    if body == [] then 0
    else if body[0].Invoke? && Height(body[0]) >= HeightAll(body[1..]) then Height(body[0])
    else HeightAll(body[1..])
  }

  // ----- the memory image -----

  /**
   The text of a program with functions `fns` and the given breakpoints set. Two functions are at least
   two bytes apart, and the byte before each of them is no push.
   */
  ghost predicate Patched(text: map<int, Byte>, fns: set<int>, bps: seq<Breakpoint>, endHandler: int) {
    && endHandler in fns && !Listed(bps, endHandler) && 0 !in fns
    && (forall i :: 0 <= i < |bps| ==> bps[i].addr in fns)
    && (forall i, j :: 0 <= i < j < |bps| ==> bps[i].addr != bps[j].addr)
    && (forall a, b :: a in fns && b in fns && a < b ==> a + 2 <= b)
    && forall a :: a in fns ==>
         && a in text && a + 1 in text
         && text[a] == (if a == endHandler || Listed(bps, a) then INT3_OPCODE else PUSHRBP_OPCODE)
         && Fetch(text, a - 1) != PUSHRBP_OPCODE
  }

  /** The frame pointers starting at `rbp` describe exactly `frames`, up to main's frame. */
  ghost predicate Chain(words: map<int, int>, rbp: int, top: int, frames: seq<Frame>, endHandler: int)
    decreases |frames|
  {
    && rbp < top
    && if frames == [] then Load(words, rbp + 8) == END_ADDR
       else
         && frames[0].ret != END_ADDR && frames[0].ret != endHandler && frames[0].ret != 0
         && Load(words, rbp + 8) == (if frames[0].redirected then endHandler else frames[0].ret)
         && (frames[0].redirected ==> Load(words, rbp + 16) == frames[0].ret)
         && rbp < Load(words, rbp)
         && Chain(words, Load(words, rbp), top, frames[1..], endHandler)
  }

  /** Every pending return address is on record, above all those pending longer. */
  ghost predicate Covers(stack: seq<StackElem>, pending: seq<int>)
    decreases |pending|
  {
    pending == [] ||
    exists k :: 0 <= k < |stack| && stack[k].returnAddr == pending[0] && Covers(stack[..k], pending[1..])
  }

  ghost predicate ValidCall(c: Call, fns: set<int>, endHandler: int)
    decreases c, 1
  {
    && c.entry in fns && c.entry != endHandler
    && c.ret != END_ADDR && c.ret != endHandler && c.ret != 0
    && ValidBody(c.body, fns, endHandler)
  }

  ghost predicate ValidBody(body: seq<Action>, fns: set<int>, endHandler: int)
    decreases body, 0
  {
    body == [] || ((body[0].Invoke? ==> ValidCall(body[0], fns, endHandler)) && ValidBody(body[1..], fns, endHandler))
  }

  /** The debuggee is between two instructions of the innermost of `frames`. */
  ghost predicate Running(m: Machine, fns: set<int>, frames: seq<Frame>) {
    && m.turn == DebuggeeRuns
    && Patched(m.text, fns, m.bps, m.endHandler) && m.endHandler != END_ADDR
    && Chain(m.words, m.rbp, m.stackTop, frames, m.endHandler)
    && m.rsp <= m.rbp
    && m.rdxChange == 8 * |Pending(frames)|
    && |m.stack| == MAX_BACKTRACE && 0 <= m.stackCount <= MAX_BACKTRACE
    && Covers(m.stack[..m.stackCount], Pending(frames))
  }

  /** The processor's and the debugger's state is as before, and so are the stack words from `lo` on. */
  ghost predicate Restored(before: Machine, after: Machine, lo: int) {
    && after.rsp == before.rsp && after.rbp == before.rbp && after.stackTop == before.stackTop
    && after.text == before.text
    && after.bps == before.bps && after.endHandler == before.endHandler
    && after.rdxChange == before.rdxChange && after.turn == before.turn
    && forall a :: lo <= a ==> Load(after.words, a) == Load(before.words, a)
  }

  /** A finished body leaves in its frame what it has assigned itself, and all else as it was. */
  ghost predicate BodyDone(before: Machine, after: Machine, body: seq<Action>) {
    && Restored(before, after, before.rbp)
    && forall a :: before.rsp <= a ==> Load(after.words, a) == Load(Assigned(before.words, before.rbp, body), a)
  }
}
