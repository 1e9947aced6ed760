/**
 The debugger is transparent to the calls of the debuggee, and it reports exactly the stops
 and the backtraces that the call tree prescribes.
 */
module CallTreeProofs {
  import opened Kernel
  import opened Debuggee
  import opened CallTree

  // ----- frame chain -----

  /** The frame-pointer walk ends, and it collects the true return address of every active call. */
  lemma {:induction false} WalkCollectsTrueReturns(
      words: map<int, int>, rbp: int, top: int, frames: seq<Frame>, endHandler: int)
    requires Chain(words, rbp, top, frames, endHandler) && endHandler != END_ADDR
    ensures Linked(words, rbp, top) && Walk(words, rbp, endHandler, top) == Rets(frames)
    decreases |frames|
  {
    if frames != [] {
      WalkCollectsTrueReturns(words, Load(words, rbp), top, frames[1..], endHandler);
      assert Rets(frames) == [frames[0].ret] + Rets(frames[1..]);
    }
  }

  /** Writes below the innermost frame do not disturb the chain. */
  lemma {:induction false} ChainReadsUpward(
      words: map<int, int>, other: map<int, int>, rbp: int, top: int, frames: seq<Frame>, endHandler: int)
    requires Chain(words, rbp, top, frames, endHandler)
    requires forall a :: rbp <= a ==> Load(other, a) == Load(words, a)
    ensures Chain(other, rbp, top, frames, endHandler)
    decreases |frames|
  {
    if frames != [] {
      ChainReadsUpward(words, other, Load(words, rbp), top, frames[1..], endHandler);
    }
  }

  lemma {:induction false} PendingOfCallee(frame: Frame, frames: seq<Frame>)
    ensures Pending([frame] + frames) == (if frame.redirected then [frame.ret] else []) + Pending(frames)
  {
    assert ([frame] + frames)[1..] == frames;
  }

  lemma {:induction false} PendingAreFrames(frames: seq<Frame>)
    ensures |Pending(frames)| <= |frames|
  {
    if frames != [] { PendingAreFrames(frames[1..]); }
  }

  // ----- the record of redirected calls -----

  lemma {:induction false} CoversLonger(stack: seq<StackElem>, longer: seq<StackElem>, pending: seq<int>)
    requires Covers(stack, pending) && stack <= longer
    ensures Covers(longer, pending)
  {
    if pending != [] {
      var k :| 0 <= k < |stack| && stack[k].returnAddr == pending[0] && Covers(stack[..k], pending[1..]);
      assert longer[..k] == stack[..k];
    }
  }

  lemma {:induction false} CoversPushed(stack: seq<StackElem>, elem: StackElem, pending: seq<int>)
    requires Covers(stack, pending)
    ensures Covers(stack + [elem], pending) && Covers(stack + [elem], [elem.returnAddr] + pending)
  {
    var longer := stack + [elem];
    CoversLonger(stack, longer, pending);
    assert longer[..|stack|] == stack && ([elem.returnAddr] + pending)[1..] == pending;
  }

  /** The end handler's search finds a record and keeps those of the calls that are still pending. */
  lemma {:induction false} CoversPopped(stack: seq<StackElem>, count: int, pending: seq<int>)
    requires 0 <= count <= |stack| && pending != [] && Covers(stack[..count], pending)
    ensures var i := Topmost(stack, count, pending[0]);
            0 <= i < count && Covers(stack[..i], pending[1..])
  {
    var k :| 0 <= k < count && stack[..count][k].returnAddr == pending[0] && Covers(stack[..count][..k], pending[1..]);
    var i := Topmost(stack, count, pending[0]);
    assert k <= i;
    assert stack[..count][..k] == stack[..k];
    CoversLonger(stack[..k], stack[..i], pending[1..]);
  }

  /** The search looks at the calls on record only. */
  lemma {:induction false} TopmostOnRecord(stack: seq<StackElem>, count: nat, ret: int)
    requires count <= |stack|
    ensures Topmost(stack[..count], count, ret) == Topmost(stack, count, ret)
  {
    TopmostOfPrefix(stack, count, count, ret);
  }

  lemma {:induction false} TopmostOfPrefix(stack: seq<StackElem>, n: nat, count: nat, ret: int)
    requires n <= count <= |stack|
    ensures Topmost(stack[..count], n, ret) == Topmost(stack, n, ret)
    decreases n
  {
    if n > 0 { TopmostOfPrefix(stack, n - 1, count, ret); }
  }

  // ----- stepping over a patched byte -----

  /** In the list walk, a function's address hits its own breakpoint and nothing else. */
  lemma {:induction false} HitIsOwnBreakpoint(m: Machine, fns: set<int>, a: int)
    requires Patched(m.text, fns, m.bps, m.endHandler) && a in fns
    ensures var i := Hit(m.bps, a);
            && (i < |m.bps| <==> Listed(m.bps, a)) && (i < |m.bps| <==> Hit(m.bps, a + 1) < |m.bps|)
            && (i < |m.bps| ==> m.bps[i].addr == a && (m.bps[i].endEnable == 1 <==> EndWatched(m.bps, a)))
    ensures EndWatched(m.bps, a) ==> Listed(m.bps, a)
  {
    var i, j := Hit(m.bps, a), Hit(m.bps, a + 1);
    if i < |m.bps| { assert m.bps[i].addr in fns; }
    if j < |m.bps| { assert m.bps[j].addr in fns; }
  }

  /**
   The handler tells the first trap from the second by the byte in front of it: the debugger is
   woken exactly when that byte is no push.
   */
  lemma {:induction false} DebuggerWokenIffNoPushBefore(m: Machine)
    requires m.turn == DebuggeeRuns && Fetch(m.text, m.rip) == INT3_OPCODE && Execute(m).Some?
    ensures Execute(m).value.turn == DebuggerRuns <==> Fetch(m.text, m.rip - 1) != PUSHRBP_OPCODE
    ensures Execute(m).value.stops == m.stops <==> Fetch(m.text, m.rip - 1) == PUSHRBP_OPCODE
  {
    hide Linked, Walk, Hit, Topmost, Padded;
    var trapped := m.(rip := m.rip + 1);
    assert IsSecondTrap(trapped) <==> Fetch(m.text, m.rip - 1) == PUSHRBP_OPCODE;
  }

  /**
   Stepping over a trap is transparent. Whatever stack words and records the first trap has changed, from
   there through the continue, the push and the second trap both text bytes get back their values from
   before the first trap, the push happens exactly once, and execution goes on at the next byte.
   */
  lemma {:induction false} StepOverIsTransparent(m: Machine, stopped: Machine)
    requires m.rip in m.text && m.rip + 1 in m.text && m.text[m.rip] == INT3_OPCODE
    requires Execute(m) == Some(stopped) && stopped.turn == DebuggerRuns
    ensures stopped.rip == m.rip && stopped.rbp == m.rbp && Fetch(m.text, m.rip - 1) != PUSHRBP_OPCODE
    ensures ThroughPatch(m) ==
            Some(Push(stopped, m.rbp).(text := m.text, rip := m.rip + 1, turn := DebuggeeRuns))
  {
    hide Linked, Walk, Hit, Topmost, Padded;
    if m.turn == DebuggeeRuns { DebuggerWokenIffNoPushBefore(m); }
    assert stopped.text == m.text[m.rip + 1 := INT3_OPCODE][m.rip := PUSHRBP_OPCODE];
    var pushed := Push(Continue(stopped), m.rbp).(rip := m.rip + 1);
    assert Execute(Continue(stopped)) == Some(pushed);
    SecondTrapFinishes(pushed);
    assert pushed.text[m.rip := INT3_OPCODE][m.rip + 1 := m.text[m.rip + 1]] == m.text;
  }

  lemma {:induction false} SecondTrapFinishes(m: Machine)
    requires Fetch(m.text, m.rip) == INT3_OPCODE && Fetch(m.text, m.rip - 1) == PUSHRBP_OPCODE
    ensures Execute(m) == Some(m.(text := m.text[m.rip - 1 := INT3_OPCODE][m.rip := m.nxtInstr], turn := DebuggeeRuns))
  {
    hide Linked, Walk, Hit, Topmost, Padded;
    assert IsSecondTrap(m.(rip := m.rip + 1));
  }

  // ----- entering a function -----

  /** A call has reached the byte behind the push of its entry. */
  ghost predicate Entered(m: Machine, e: Machine, c: Call, frames: seq<Frame>) {
    var watched := EndWatched(m.bps, c.entry);
    && e.text == m.text && e.rbp == m.rbp && e.rip == c.entry + 1
    && e.stackTop == m.stackTop && e.bps == m.bps && e.endHandler == m.endHandler && e.turn == m.turn
    && e.rsp == m.rsp - (if watched then 24 else 16)
    && Load(e.words, e.rsp) == m.rbp
    && Load(e.words, e.rsp + 8) == (if watched then m.endHandler else c.ret)
    && (watched ==> Load(e.words, e.rsp + 16) == c.ret)
    && (forall a :: m.rsp <= a ==> Load(e.words, a) == Load(m.words, a))
    && e.rdxChange == m.rdxChange + (if watched then 8 else 0)
    && e.stops == m.stops + (if Listed(m.bps, c.entry)
        then [Stop(c.entry, [c.entry, c.ret] + Rets(frames), m.rdxChange)] else [])
    && |e.stack| == MAX_BACKTRACE
    && 0 <= e.stackCount <= MAX_BACKTRACE
    && AfterEntry(c, m.bps, Rets(frames), OnRecord(m)) == Some(OnRecord(e))
    && Covers(e.stack[..e.stackCount], (if watched then [c.ret] else []) + Pending(frames))
  }

  lemma {:induction false} EnterPlain(m: Machine, fns: set<int>, frames: seq<Frame>, c: Call)
    requires Running(m, fns, frames) && ValidCall(c, fns, m.endHandler) && !Listed(m.bps, c.entry)
    ensures var e := ThroughPatch(Push(m, c.ret).(rip := c.entry)); e.Some? && Entered(m, e.value, c, frames)
  {
    HitIsOwnBreakpoint(m, fns, c.entry);
    var called := Push(m, c.ret).(rip := c.entry);
    assert Execute(called) == Some(Push(called, m.rbp).(rip := c.entry + 1));
    assert [] + Pending(frames) == Pending(frames);
  }

  /** Recording an entry stop keeps the pending calls on record. */
  lemma {:induction false} EntryRecorded(stack: seq<StackElem>, count: int, at: int, elem: StackElem, pending: seq<int>)
    requires 0 <= count <= |stack| && 0 <= at < |stack| && Covers(stack[..count], pending)
    requires at == count || (at == 0 && pending == [])
    ensures Covers(stack[at := elem][..at + 1], pending)
        && Covers(stack[at := elem][..at + 1], [elem.returnAddr] + pending)
    ensures stack[at := elem][..at + 1] == stack[..at] + [elem]
    ensures at == 0 ==> stack[..at] + [elem] == [elem]
  {
    assert stack[at := elem][..at + 1] == stack[..at] + [elem];
    CoversPushed(stack[..at], elem, pending);
  }

  /** What a debugger reads back from the array is what was captured, if that holds no zero. */
  lemma {:induction false} PaddedReadsBack(bt: seq<int>)
    requires 0 !in bt && |bt| <= MAX_BACKTRACE
    ensures UpToZero(Padded(bt)) == bt && |Padded(bt)| == MAX_BACKTRACE
  {
    assert forall k :: 0 <= k < |bt| ==> Padded(bt)[k] == bt[k];
    assert Padded(bt)[..|bt|] == bt;
    if |bt| < MAX_BACKTRACE { assert Padded(bt)[|bt|] == 0; }
    UpToZeroIs(Padded(bt), |bt|);
  }

  lemma {:induction false} ReturnsAreNotZero(
      words: map<int, int>, rbp: int, top: int, frames: seq<Frame>, endHandler: int)
    requires Chain(words, rbp, top, frames, endHandler)
    ensures 0 !in Rets(frames)
    decreases |frames|
  {
    if frames != [] {
      ReturnsAreNotZero(words, Load(words, rbp), top, frames[1..], endHandler);
      assert Rets(frames) == [frames[0].ret] + Rets(frames[1..]);
    }
  }

  /** The first trap of a call: the handler captures the true backtrace of the whole call stack. */
  lemma {:induction false} EntryCaptured(m: Machine, fns: set<int>, frames: seq<Frame>, c: Call, trapped: Machine)
    requires Running(m, fns, frames) && ValidCall(c, fns, m.endHandler) && Listed(m.bps, c.entry)
    requires trapped == Push(m, c.ret).(rip := c.entry + 1)
    ensures Linked(trapped.words, trapped.rbp, trapped.stackTop)
        && EntryBacktrace(trapped) == [c.entry, c.ret] + Rets(frames)
    ensures 0 !in [c.entry, c.ret] + Rets(frames)
    ensures EntryFits(trapped) <==> AfterEntry(c, m.bps, Rets(frames), OnRecord(m)).Some?
    ensures !IsSecondTrap(trapped) && IsListed(trapped)
    ensures var bp := m.bps[Hit(m.bps, c.entry)];
            bp.addr == c.entry && (bp.endEnable == 1 <==> EndWatched(m.bps, c.entry))
  {
    hide Covers;
    HitIsOwnBreakpoint(m, fns, c.entry);
    ReturnsAreNotZero(m.words, m.rbp, m.stackTop, frames, m.endHandler);
    ChainReadsUpward(m.words, trapped.words, m.rbp, m.stackTop, frames, m.endHandler);
    WalkCollectsTrueReturns(trapped.words, m.rbp, m.stackTop, frames, m.endHandler);
  }

  lemma {:induction false} PatchedAt(m: Machine, fns: set<int>, a: int)
    requires Patched(m.text, fns, m.bps, m.endHandler) && a in fns && Listed(m.bps, a)
    ensures a in m.text && a + 1 in m.text && m.text[a] == INT3_OPCODE
  {
  }

  /** Where an array is too small for an entry stop, the handler leaves it. */
  lemma {:induction false} EntryOverflows(m: Machine, fns: set<int>, frames: seq<Frame>, c: Call)
    requires Running(m, fns, frames) && ValidCall(c, fns, m.endHandler)
    requires AfterEntry(c, m.bps, Rets(frames), OnRecord(m)).None?
    ensures ThroughPatch(Push(m, c.ret).(rip := c.entry)) == None
  {
    hide Patched, Chain, Covers, Walk, Linked, Hit, Listed, EndWatched, Topmost, Rets;
    var called := Push(m, c.ret).(rip := c.entry);
    PatchedAt(m, fns, c.entry);
    EntryCaptured(m, fns, frames, c, called.(rip := c.entry + 1));
    assert Execute(called) == None;
  }

  /** The state in which an entry stop leaves the debuggee. */
  lemma {:induction false} EntryTraps(m: Machine, fns: set<int>, frames: seq<Frame>, c: Call) returns (stopped: Machine)
    requires Running(m, fns, frames) && ValidCall(c, fns, m.endHandler) && Listed(m.bps, c.entry)
    requires AfterEntry(c, m.bps, Rets(frames), OnRecord(m)).Some?
    ensures var called := Push(m, c.ret).(rip := c.entry);
            && called.rip in m.text && called.rip + 1 in m.text && m.text[called.rip] == INT3_OPCODE
            && Execute(called) == Some(stopped) && stopped.turn == DebuggerRuns
            && (if EndWatched(m.bps, c.entry)
                then stopped.rsp == called.rsp - 8 && stopped.rdxChange == m.rdxChange + 8
                     && stopped.words == called.words[called.rsp - 8 := m.endHandler]
                else stopped.rsp == called.rsp && stopped.rdxChange == m.rdxChange && stopped.words == called.words)
            && stopped.bps == m.bps && stopped.endHandler == m.endHandler && stopped.stackTop == m.stackTop
            && stopped.stops == m.stops + [Stop(c.entry, [c.entry, c.ret] + Rets(frames), m.rdxChange)]
            && var at := if |Rets(frames)| == 0 then 0 else m.stackCount;
            && at < |m.stack| && stopped.stack == m.stack[at := StackElem(c.entry, c.ret)]
            && stopped.stackCount == at + 1
  {
    hide Patched, Chain, Covers, Walk, Linked, Hit, Listed, EndWatched, Topmost, Rets, Padded, UpToZero;
    var called := Push(m, c.ret).(rip := c.entry);
    var trapped := called.(rip := c.entry + 1);
    PatchedAt(m, fns, c.entry);
    EntryCaptured(m, fns, frames, c, trapped);
    PaddedReadsBack([c.entry, c.ret] + Rets(frames));
    stopped := Noted(EntryStop(trapped, m.bps[Hit(m.bps, c.entry)]));
  }

  lemma {:induction false} EnterStopped(m: Machine, fns: set<int>, frames: seq<Frame>, c: Call)
    requires Running(m, fns, frames) && ValidCall(c, fns, m.endHandler) && Listed(m.bps, c.entry)
    requires AfterEntry(c, m.bps, Rets(frames), OnRecord(m)).Some?
    ensures var e := ThroughPatch(Push(m, c.ret).(rip := c.entry)); e.Some? && Entered(m, e.value, c, frames)
  {
    hide Patched, Chain, Covers, Listed, EndWatched, ThroughPatch, Execute, Rets;
    var called := Push(m, c.ret).(rip := c.entry);
    var stopped := EntryTraps(m, fns, frames, c);
    StepOverIsTransparent(called, stopped);
    var at := if |Rets(frames)| == 0 then 0 else m.stackCount;
    assert |Rets(frames)| == 0 ==> Pending(frames) == [] by { NoFramesNonePending(frames); }
    EntryRecorded(m.stack, m.stackCount, at, StackElem(c.entry, c.ret), Pending(frames));
    assert OnRecord(m) == m.stack[..m.stackCount];
    assert OnRecord(stopped) == m.stack[..at] + [StackElem(c.entry, c.ret)];
    assert [] + Pending(frames) == Pending(frames);
  }

  /** The array holds these entries and then zeros. */
  predicate ShowsExactly(a: seq<int>, entries: seq<int>) {
    |entries| <= |a| == MAX_BACKTRACE && a[..|entries|] == entries && 0 !in entries
    && forall i :: |entries| <= i < |a| ==> a[i] == 0
  }

  lemma {:induction false} PaddedShows(bt: seq<int>)
    requires 0 !in bt && |bt| <= MAX_BACKTRACE
    ensures ShowsExactly(Padded(bt), bt)
  {
  }

  /**
   What the debugger finds when a call has trapped at its entry: the address, the whole true backtrace, the
   registers of a call that has just been made, and the call on record, above all earlier ones unless main made it.
   */
  lemma {:induction false} EntryStopShows(
      m: Machine, fns: set<int>, frames: seq<Frame>, c: Call, stopped: Machine)
    requires Running(m, fns, frames) && ValidCall(c, fns, m.endHandler) && Listed(m.bps, c.entry)
    requires Execute(Push(m, c.ret).(rip := c.entry)) == Some(stopped)
    ensures ShowsExactly(stopped.backtrace, [c.entry, c.ret] + Rets(frames))
    ensures stopped.turn == DebuggerRuns && stopped.rax == c.entry
    ensures stopped.regs == Registers(c.entry, m.rsp - 8, m.rbp, 8 * |Pending(frames)|)
    ensures 0 < stopped.stackCount <= |stopped.stack|
    ensures stopped.stack[..stopped.stackCount] ==
            (if frames == [] then [] else m.stack[..m.stackCount]) + [StackElem(c.entry, c.ret)]
  {
    hide Patched, Chain, Covers, Walk, Linked, Hit, Listed, EndWatched, Topmost, Rets, Padded, UpToZero, ShowsExactly;
    var trapped := Push(m, c.ret).(rip := c.entry + 1);
    PatchedAt(m, fns, c.entry);
    EntryCaptured(m, fns, frames, c, trapped);
    assert EntryFits(trapped);
    PaddedShows([c.entry, c.ret] + Rets(frames));
    NoFramesNonePending(frames);
    var at := if frames == [] then 0 else m.stackCount;
    assert m.stack[at := StackElem(c.entry, c.ret)][..at + 1] == m.stack[..at] + [StackElem(c.entry, c.ret)];
    assert m.stack[..0] == [];
  }

  lemma {:induction false} NoFramesNonePending(frames: seq<Frame>)
    ensures |Rets(frames)| == |frames|
    ensures frames == [] ==> Pending(frames) == []
  {
  }

  // ----- returning through the end handler -----

  /** A redirected call has returned into the end handler, which has pushed rbp. */
  ghost predicate Handled(m: Machine, h: Machine, ret: int, frames: seq<Frame>) {
    && h.text == m.text && h.rbp == m.rbp && h.rip == m.endHandler + 1
    && h.stackTop == m.stackTop && h.bps == m.bps && h.endHandler == m.endHandler && h.turn == m.turn
    && h.rsp == m.rsp - 8 && Load(h.words, h.rsp) == m.rbp
    && (forall a :: m.rsp <= a ==> Load(h.words, a) == Load(m.words, a))
    && h.rdxChange == m.rdxChange - 8
    && h.stops == m.stops + [Stop(m.endHandler, [ret] + Rets(frames), m.rdxChange)]
    && h.stack == m.stack && 0 <= h.stackCount <= m.stackCount && h.stackCount <= |h.stack|
    && Topmost(OnRecord(m), |OnRecord(m)|, ret) == h.stackCount && OnRecord(h) == OnRecord(m)[..h.stackCount]
    && Covers(h.stack[..h.stackCount], Pending(frames))
  }

  /** The first trap of the end handler: again the true backtrace, now starting at the return address. */
  lemma {:induction false} EndCaptured(m: Machine, fns: set<int>, frames: seq<Frame>, ret: int, trapped: Machine)
    requires Patched(m.text, fns, m.bps, m.endHandler) && Chain(m.words, m.rbp, m.stackTop, frames, m.endHandler)
    requires m.endHandler != END_ADDR && m.rip == m.endHandler && trapped == m.(rip := m.rip + 1)
    requires Load(m.words, m.rsp) == ret && |frames| + 1 <= MAX_BACKTRACE
    requires |m.stack| == MAX_BACKTRACE && 0 <= m.stackCount <= MAX_BACKTRACE
    ensures EndFits(trapped) && EndBacktrace(trapped) == [ret] + Rets(frames) && 0 !in Rets(frames)
    ensures !IsSecondTrap(trapped) && !IsListed(trapped)
    ensures m.rip in m.text && m.rip + 1 in m.text && m.text[m.rip] == INT3_OPCODE
  {
    HitIsOwnBreakpoint(m, fns, m.endHandler);
    ReturnsAreNotZero(m.words, m.rbp, m.stackTop, frames, m.endHandler);
    WalkCollectsTrueReturns(m.words, m.rbp, m.stackTop, frames, m.endHandler);
  }

  lemma {:induction false} EndHandlerStops(m: Machine, fns: set<int>, frames: seq<Frame>, ret: int)
    requires m.turn == DebuggeeRuns && m.rip == m.endHandler && m.endHandler != END_ADDR
    requires Patched(m.text, fns, m.bps, m.endHandler) && Chain(m.words, m.rbp, m.stackTop, frames, m.endHandler)
    requires m.rsp <= m.rbp && Load(m.words, m.rsp) == ret && ret != 0
    requires |m.stack| == MAX_BACKTRACE && 0 <= m.stackCount <= MAX_BACKTRACE && |frames| + 1 <= MAX_BACKTRACE
    requires Covers(m.stack[..m.stackCount], [ret] + Pending(frames))
    ensures var h := ThroughPatch(m); h.Some? && Handled(m, h.value, ret, frames)
  {
    hide Patched, Chain, Covers, Walk, Linked, Hit, Listed, EndWatched, ThroughPatch, Topmost, Rets, Padded, UpToZero;
    var trapped := m.(rip := m.rip + 1);
    EndCaptured(m, fns, frames, ret, trapped);
    PaddedReadsBack([ret] + Rets(frames));
    var stopped := Noted(EndStop(trapped));
    assert Execute(m) == Some(stopped);
    StepOverIsTransparent(m, stopped);
    CoversPopped(m.stack, m.stackCount, [ret] + Pending(frames));
    TopmostOnRecord(m.stack, m.stackCount, ret);
    assert ([ret] + Pending(frames))[1..] == Pending(frames);
  }

  /**
   What the debugger finds when a redirected call has returned to `ret` into the end handler: the true backtrace
   from there on, and the record without that call's topmost entry and everything above it.
   */
  lemma {:induction false} EndStopShows(
      m: Machine, fns: set<int>, frames: seq<Frame>, ret: int, stopped: Machine)
    requires m.rip == m.endHandler && m.endHandler != END_ADDR
    requires Patched(m.text, fns, m.bps, m.endHandler) && Chain(m.words, m.rbp, m.stackTop, frames, m.endHandler)
    requires Load(m.words, m.rsp) == ret && ret != 0
    requires |m.stack| == MAX_BACKTRACE && 0 <= m.stackCount <= MAX_BACKTRACE && |frames| + 1 <= MAX_BACKTRACE
    requires Covers(m.stack[..m.stackCount], [ret] + Pending(frames))
    requires Execute(m) == Some(stopped)
    ensures ShowsExactly(stopped.backtrace, [ret] + Rets(frames))
    ensures stopped.turn == DebuggerRuns && stopped.rax == m.endHandler
    ensures stopped.regs == Registers(m.endHandler, m.rsp, m.rbp, m.rdxChange)
    ensures stopped.stack == m.stack && 0 <= stopped.stackCount < m.stackCount
    ensures m.stack[stopped.stackCount].returnAddr == ret
    ensures forall j :: stopped.stackCount < j < m.stackCount ==> m.stack[j].returnAddr != ret
  {
    hide Patched, Chain, Covers, Walk, Linked, Hit, Listed, EndWatched, Topmost, Rets, Padded, UpToZero, ShowsExactly;
    var trapped := m.(rip := m.rip + 1);
    EndCaptured(m, fns, frames, ret, trapped);
    PaddedShows([ret] + Rets(frames));
    CoversPopped(m.stack, m.stackCount, [ret] + Pending(frames));
    assert |[ret] + Rets(frames)| == 1 + |frames| by { NoFramesNonePending(frames); }
  }

  // ----- whole calls -----

  lemma {:induction false} FrameOpened(m: Machine, e: Machine, fns: set<int>, frames: seq<Frame>, c: Call)
    requires Running(m, fns, frames) && Entered(m, e, c, frames) && ValidCall(c, fns, m.endHandler)
    ensures Running(OpenFrame(e, c.locals), fns, [Frame(c.ret, EndWatched(m.bps, c.entry))] + frames)
  {
    hide Patched, Covers, Listed, EndWatched;
    var callee := Frame(c.ret, EndWatched(m.bps, c.entry));
    PendingOfCallee(callee, frames);
    ChainReadsUpward(m.words, e.words, m.rbp, m.stackTop, frames, m.endHandler);
    assert ([callee] + frames)[1..] == frames;
  }

  /** The preconditions of the end handler's stop, when a redirected call has just returned into it. */
  lemma {:induction false} ReturnedIntoHandler(
      m: Machine, e: Machine, done: Machine, fns: set<int>, frames: seq<Frame>, c: Call)
    requires Running(m, fns, frames) && Entered(m, e, c, frames) && EndWatched(m.bps, c.entry)
    requires ValidCall(c, fns, m.endHandler)
    requires Restored(OpenFrame(e, c.locals), done, e.rsp)
    requires Running(done, fns, [Frame(c.ret, true)] + frames)
    ensures var back := LeaveAndReturn(done);
            && back.turn == DebuggeeRuns && back.rip == back.endHandler == m.endHandler && m.endHandler != END_ADDR
            && c.ret != 0
            && Patched(back.text, fns, back.bps, back.endHandler)
            && Chain(back.words, back.rbp, back.stackTop, frames, back.endHandler)
            && back.rsp == m.rsp - 8 && back.rbp == m.rbp && back.rsp <= back.rbp && Load(back.words, back.rsp) == c.ret
            && back.rdxChange == m.rdxChange + 8 && back.text == m.text && back.bps == m.bps
            && back.stackTop == m.stackTop && back.stops == done.stops && OnRecord(back) == OnRecord(done)
            && |back.stack| == MAX_BACKTRACE && 0 <= back.stackCount <= MAX_BACKTRACE
            && Covers(back.stack[..back.stackCount], [c.ret] + Pending(frames))
            && forall a :: m.rsp <= a ==> Load(back.words, a) == Load(m.words, a)
  {
    hide Patched, Covers, Listed, EndWatched;
    PendingOfCallee(Frame(c.ret, true), frames);
    ChainReadsUpward(m.words, done.words, m.rbp, m.stackTop, frames, m.endHandler);
  }

  /** Leaving the end handler completes a redirected call. */
  lemma {:induction false} HandlerReturns(
      m: Machine, back: Machine, h: Machine, fns: set<int>, frames: seq<Frame>, ret: int)
    requires Running(m, fns, frames) && Handled(back, h, ret, frames)
    requires back.rsp == m.rsp - 8 && back.rbp == m.rbp && back.rdxChange == m.rdxChange + 8
    requires back.text == m.text && back.bps == m.bps && back.endHandler == m.endHandler && back.stackTop == m.stackTop
    requires back.turn == DebuggeeRuns && Load(back.words, back.rsp) == ret && |back.stack| == MAX_BACKTRACE
    requires forall a :: m.rsp <= a ==> Load(back.words, a) == Load(m.words, a)
    ensures var r := LeaveAndReturn(OpenFrame(h, 0));
            && r.rip == ret && Restored(m, r, m.rsp) && Running(r, fns, frames)
            && r.stops == h.stops && OnRecord(r) == OnRecord(h)
  {
    hide Patched, Covers, Listed, EndWatched;
    ChainReadsUpward(m.words, h.words, m.rbp, m.stackTop, frames, m.endHandler);
  }

  /** Returning from a call that was not redirected. */
  lemma {:induction false} PlainReturn(
      m: Machine, e: Machine, done: Machine, fns: set<int>, frames: seq<Frame>, c: Call)
    requires Running(m, fns, frames) && Entered(m, e, c, frames) && !EndWatched(m.bps, c.entry)
    requires ValidCall(c, fns, m.endHandler)
    requires Restored(OpenFrame(e, c.locals), done, e.rsp)
    requires Running(done, fns, [Frame(c.ret, false)] + frames)
    ensures var r := LeaveAndReturn(done);
            && r.rip == c.ret && r.rip != r.endHandler && Restored(m, r, m.rsp) && Running(r, fns, frames)
            && r.stops == done.stops && OnRecord(r) == OnRecord(done)
  {
    hide Patched, Covers, Listed, EndWatched;
    PendingOfCallee(Frame(c.ret, false), frames);
    assert [] + Pending(frames) == Pending(frames);
    ChainReadsUpward(m.words, done.words, m.rbp, m.stackTop, frames, m.endHandler);
  }

  lemma {:induction false} EnterCall(m: Machine, fns: set<int>, frames: seq<Frame>, c: Call)
    requires Running(m, fns, frames) && ValidCall(c, fns, m.endHandler)
    ensures var e := ThroughPatch(Push(m, c.ret).(rip := c.entry));
            if AfterEntry(c, m.bps, Rets(frames), OnRecord(m)).Some? then e.Some?
                && Entered(m, e.value, c, frames) else e.None?
  {
    hide Running, ValidCall, ThroughPatch, Entered;
    if AfterEntry(c, m.bps, Rets(frames), OnRecord(m)).None? {
      EntryOverflows(m, fns, frames, c);
    } else if Listed(m.bps, c.entry) {
      EnterStopped(m, fns, frames, c);
    } else {
      EnterPlain(m, fns, frames, c);
    }
  }

  /** From the end of a callee's body back to its caller. */
  lemma {:induction false} CallReturns(
      m: Machine, e: Machine, done: Machine, fns: set<int>, frames: seq<Frame>, c: Call)
    requires Running(m, fns, frames) && Entered(m, e, c, frames) && ValidCall(c, fns, m.endHandler)
    requires Restored(OpenFrame(e, c.locals), done, e.rsp)
    requires Running(done, fns, [Frame(c.ret, EndWatched(m.bps, c.entry))] + frames)
    requires EndWatched(m.bps, c.entry) ==> |frames| + 1 <= MAX_BACKTRACE
    ensures FinishCall(done).Some?
    ensures var r := FinishCall(done).value;
            && r.rip == c.ret && Restored(m, r, m.rsp) && Running(r, fns, frames)
            && OnRecord(r) == AfterEnd(c, m.bps, OnRecord(done))
            && r.stops == done.stops + (if EndWatched(m.bps, c.entry)
                                        then [Stop(m.endHandler, [c.ret] + Rets(frames), m.rdxChange + 8)] else [])
  {
    hide Running, Restored, Entered, Handled, ThroughPatch, EndWatched, Pending, Rets, OpenFrame, ValidCall,
        OnRecord, Topmost;
    var back := LeaveAndReturn(done);
    if EndWatched(m.bps, c.entry) {
      ReturnedIntoHandler(m, e, done, fns, frames, c);
      hide LeaveAndReturn;
      EndHandlerStops(back, fns, frames, c.ret);
      var h := ThroughPatch(back).value;
      HandledFacts(back, h, c.ret, frames);
      HandlerReturns(m, back, h, fns, frames, c.ret);
    } else {
      PlainReturn(m, e, done, fns, frames, c);
    }
  }

  /** What a function reads as its `k`-th stack argument once its frame is open. */
  function ArgumentSeen(framed: Machine, k: nat): int { Load(framed.words, framed.rbp + 16 + 8 * k) }

  /** What its caller has left on the stack as the `k`-th argument. */
  function ArgumentPassed(m: Machine, k: nat): int { Load(m.words, m.rsp + 8 * k) }

  /** What the function sees instead: nothing is shifted unless its return has been redirected. */
  function ArgumentExpected(m: Machine, c: Call, k: nat): int {
    if !EndWatched(m.bps, c.entry) then ArgumentPassed(m, k)
    else if k == 0 then c.ret
    else ArgumentPassed(m, k - 1)
  }

  /**
   Stack arguments are where transparency ends: a function whose end is watched sees its true return address as
   the first argument and every other argument one place late. It sees all of them in place exactly if its end
   is not watched, or they all happen to equal that address.
   */
  lemma {:induction false} ArgumentsInPlaceIff(m: Machine, fns: set<int>, frames: seq<Frame>, c: Call)
    requires Running(m, fns, frames) && ValidCall(c, fns, m.endHandler)
    requires AfterEntry(c, m.bps, Rets(frames), OnRecord(m)).Some?
    ensures ThroughPatch(Push(m, c.ret).(rip := c.entry)).Some?
    ensures var framed := OpenFrame(ThroughPatch(Push(m, c.ret).(rip := c.entry)).value, c.locals);
            && (forall k: nat :: ArgumentSeen(framed, k) == ArgumentExpected(m, c, k))
            && ((forall k: nat :: ArgumentSeen(framed, k) == ArgumentPassed(m, k)) <==>
                !EndWatched(m.bps, c.entry) || forall k: nat :: ArgumentPassed(m, k) == c.ret)
  {
    hide Running, ValidCall, EndWatched, Listed, ThroughPatch, Rets, AfterEntry, OnRecord, ArgumentSeen, ArgumentPassed;
    EnterCall(m, fns, frames, c);
    var e := ThroughPatch(Push(m, c.ret).(rip := c.entry)).value;
    var framed := OpenFrame(e, c.locals);
    forall k: nat ensures ArgumentSeen(framed, k) == ArgumentExpected(m, c, k) {
      ArgumentEntered(m, e, c, frames, k);
    }
    if EndWatched(m.bps, c.entry) {
      if forall k: nat :: ArgumentSeen(framed, k) == ArgumentPassed(m, k) {
        forall k: nat ensures ArgumentPassed(m, k) == c.ret {
          AllArgumentsEqual(m, framed, c, k);
        }
      }
      if forall k: nat :: ArgumentPassed(m, k) == c.ret {
        forall k: nat ensures ArgumentSeen(framed, k) == ArgumentPassed(m, k) {
          assert ArgumentSeen(framed, k) == ArgumentExpected(m, c, k) && ArgumentPassed(m, k) == c.ret;
          if k > 0 { assert ArgumentPassed(m, k - 1) == c.ret; }
        }
      }
    } else {
      forall k: nat ensures ArgumentSeen(framed, k) == ArgumentPassed(m, k) {
        assert ArgumentSeen(framed, k) == ArgumentExpected(m, c, k);
      }
    }
  }

  lemma {:induction false} ArgumentEntered(m: Machine, e: Machine, c: Call, frames: seq<Frame>, k: nat)
    requires Entered(m, e, c, frames)
    ensures ArgumentSeen(OpenFrame(e, c.locals), k) == ArgumentExpected(m, c, k)
  {
    hide EndWatched, Listed, Covers, AfterEntry;
    if EndWatched(m.bps, c.entry) {
      assert e.rsp + 16 + 8 * k == m.rsp + 8 * (k - 1);
    } else {
      assert e.rsp + 16 + 8 * k == m.rsp + 8 * k;
    }
  }

  lemma {:induction false} AllArgumentsEqual(m: Machine, framed: Machine, c: Call, k: nat)
    requires EndWatched(m.bps, c.entry)
    requires forall i: nat :: ArgumentSeen(framed, i) == ArgumentPassed(m, i)
    requires forall i: nat :: ArgumentSeen(framed, i) == ArgumentExpected(m, c, i)
    ensures ArgumentPassed(m, k) == c.ret
    decreases k
  {
    hide ArgumentSeen, ArgumentPassed, EndWatched;
    assert ArgumentSeen(framed, k) == ArgumentPassed(m, k);
    if k > 0 { AllArgumentsEqual(m, framed, c, k - 1); }
  }

  /** What a finished call or body owes to its caller and to the debugger, apart from the memory. */
  ghost predicate Completed(m: Machine, r: Machine, fns: set<int>, frames: seq<Frame>, trace: seq<Stop>,
      recs: seq<StackElem>) {
    && Running(r, fns, frames)
    && r.stops == m.stops + trace
    && OnRecord(r) == recs
  }

  /**
   The main result. For every call tree, every set of breakpoints and every subset of watched ends, a call
   made anywhere in the program comes back to its true caller with rsp, rbp, the text and all of the
   caller's stack, local variables included, as they were; on the way the debugger is woken exactly at
   the stops of Trace, where its calls return the address and the whole backtrace prescribed there, and
   rdx is corrected by 8 times the number of redirected calls at each of them. The only way to
   fail is to outgrow the 64 entries of the debugger's arrays, and Recorded tells when that happens.
   */
  lemma {:induction false} CallIsTransparent(m: Machine, fns: set<int>, frames: seq<Frame>, c: Call)
    requires Running(m, fns, frames) && ValidCall(c, fns, m.endHandler)
    ensures match Recorded(c, m.bps, Rets(frames), OnRecord(m))
            case None => RunCall(m, c) == None
            case Some(recs) =>
              && RunCall(m, c).Some? && RunCall(m, c).value.rip == c.ret && Restored(m, RunCall(m, c).value, m.rsp)
              && Completed(m, RunCall(m, c).value, fns, frames,
                           Trace(c, m.bps, m.endHandler, Rets(frames), |Pending(frames)|), recs)
    decreases c, 1
  {
    hide Running, Restored, Entered, ThroughPatch, Listed, EndWatched, Pending, Rets, OpenFrame, Push, FinishCall,
        AfterEntry, AfterEnd, OnRecord, BodyDone;
    EnterCall(m, fns, frames, c);
    if AfterEntry(c, m.bps, Rets(frames), OnRecord(m)).Some? {
      var e := ThroughPatch(Push(m, c.ret).(rip := c.entry)).value;
      FrameOpened(m, e, fns, frames, c);
      CalleeFacts(m, e, fns, frames, c);
      var framed := OpenFrame(e, c.locals);
      BodyIsTransparent(framed, fns, [Frame(c.ret, EndWatched(m.bps, c.entry))] + frames, c.body);
      if RunBody(framed, c.body).Some? {
        BodyRestores(framed, RunBody(framed, c.body).value, c.body);
        FramePointer(e, c.locals);
        CallReturns(m, e, RunBody(framed, c.body).value, fns, frames, c);
      }
    }
  }

  /** The parts of Entered that the induction needs. */
  lemma {:induction false} CalleeFacts(m: Machine, e: Machine, fns: set<int>, frames: seq<Frame>, c: Call)
    requires Running(m, fns, frames) && Entered(m, e, c, frames)
    ensures var watched, framed := EndWatched(m.bps, c.entry), OpenFrame(e, c.locals);
            && framed.bps == m.bps && framed.endHandler == m.endHandler
            && AfterEntry(c, m.bps, Rets(frames), OnRecord(m)) == Some(OnRecord(framed))
            && (watched ==> |frames| + 2 <= MAX_BACKTRACE)
            && framed.stops == m.stops + (if Listed(m.bps, c.entry)
                then [Stop(c.entry, [c.entry, c.ret] + Rets(frames), 8 * |Pending(frames)|)] else [])
            && |Pending([Frame(c.ret, watched)] + frames)| == |Pending(frames)| + (if watched then 1 else 0)
            && Rets([Frame(c.ret, watched)] + frames) == [c.ret] + Rets(frames)
            && m.rdxChange == 8 * |Pending(frames)|
  {
    WatchedAreListed(m.bps, c.entry);
    hide Patched, Covers, Chain, Listed, EndWatched;
    PendingOfCallee(Frame(c.ret, EndWatched(m.bps, c.entry)), frames);
  }

  lemma {:induction false} HandledFacts(back: Machine, h: Machine, ret: int, frames: seq<Frame>)
    requires Handled(back, h, ret, frames)
    ensures h.stops == back.stops + [Stop(back.endHandler, [ret] + Rets(frames), back.rdxChange)]
    ensures Topmost(OnRecord(back), |OnRecord(back)|, ret) == h.stackCount >= 0
    ensures h.stackCount <= |OnRecord(back)| && OnRecord(h) == OnRecord(back)[..h.stackCount]
  {
  }

  // ----- bodies -----

  /** Assignments to local variables do not reach the frame's saved registers or anything above. */
  lemma {:induction false} AssignedBelow(words: map<int, int>, rbp: int, body: seq<Action>)
    ensures forall a :: rbp <= a ==> Load(Assigned(words, rbp, body), a) == Load(words, a)
    decreases |body|
  {
    if body != [] {
      match body[0]
      case Invoke(_, _, _, _) => AssignedBelow(words, rbp, body[1..]);
      case Assign(local, value) => AssignedBelow(words[Local(rbp, local) := value], rbp, body[1..]);
    }
  }

  lemma {:induction false} AssignedAgree(words: map<int, int>, other: map<int, int>, rbp: int, lo: int,
      body: seq<Action>)
    requires forall a :: lo <= a ==> Load(words, a) == Load(other, a)
    ensures forall a :: lo <= a ==> Load(Assigned(words, rbp, body), a) == Load(Assigned(other, rbp, body), a)
    decreases |body|
  {
    if body != [] {
      match body[0]
      case Invoke(_, _, _, _) => AssignedAgree(words, other, rbp, lo, body[1..]);
      case Assign(local, value) =>
        var w, o := words[Local(rbp, local) := value], other[Local(rbp, local) := value];
        forall a | lo <= a ensures Load(w, a) == Load(o, a) {
          assert a != Local(rbp, local) ==> Load(w, a) == Load(words, a) && Load(o, a) == Load(other, a);
        }
        AssignedAgree(w, o, rbp, lo, body[1..]);
    }
  }

  lemma {:induction false} CallThenBody(m: Machine, next: Machine, last: Machine, body: seq<Action>)
    requires body != [] && body[0].Invoke? && m.rsp <= m.rbp
    requires Restored(m, next, m.rsp) && BodyDone(next, last, body[1..])
    ensures BodyDone(m, last, body)
  {
    AssignedAgree(next.words, m.words, m.rbp, m.rsp, body[1..]);
    hide Assigned;
    AssignedOfCall(m.words, m.rbp, body);
  }

  lemma {:induction false} AssignedOfCall(words: map<int, int>, rbp: int, body: seq<Action>)
    requires body != [] && body[0].Invoke?
    ensures Assigned(words, rbp, body) == Assigned(words, rbp, body[1..])
  {
  }

  lemma {:induction false} AssignThenBody(m: Machine, last: Machine, body: seq<Action>)
    requires body != [] && body[0].Assign?
    requires BodyDone(AssignLocal(m, body[0].local, body[0].value), last, body[1..])
    ensures BodyDone(m, last, body)
  {
  }

  lemma {:induction false} AssignKeepsRunning(m: Machine, fns: set<int>, frames: seq<Frame>, local: nat, value: int)
    requires Running(m, fns, frames)
    ensures Running(AssignLocal(m, local, value), fns, frames)
    ensures OnRecord(AssignLocal(m, local, value)) == OnRecord(m)
  {
    hide Patched, Covers;
    ChainReadsUpward(m.words, AssignLocal(m, local, value).words, m.rbp, m.stackTop, frames, m.endHandler);
  }

  lemma {:induction false} RunningFrame(m: Machine, fns: set<int>, frames: seq<Frame>)
    requires Running(m, fns, frames)
    ensures m.rsp <= m.rbp
  {
  }

  /**
   The same for the body of a function: afterwards its frame holds what it has assigned to its local variables
   itself, whatever calls and stops came in between.
   */
  lemma {:induction false} BodyIsTransparent(m: Machine, fns: set<int>, frames: seq<Frame>, body: seq<Action>)
    requires Running(m, fns, frames) && ValidBody(body, fns, m.endHandler)
    ensures match RecordedAll(body, m.bps, Rets(frames), OnRecord(m))
            case None => RunBody(m, body) == None
            case Some(recs) =>
              && RunBody(m, body).Some? && BodyDone(m, RunBody(m, body).value, body)
              && Completed(m, RunBody(m, body).value, fns, frames,
                           TraceAll(body, m.bps, m.endHandler, Rets(frames), |Pending(frames)|), recs)
    decreases body, 0
  {
    hide Running, RunCall, Trace, Recorded, ValidCall, Pending, Rets, OnRecord, BodyDone, Restored, Assigned;
    RunningFrame(m, fns, frames);
    if body == [] {
      assert m.stops + [] == m.stops;
      NothingDone(m);
    } else {
      if body[0].Invoke? {
        CallIsTransparent(m, fns, frames, body[0]);
        if RunCall(m, body[0]).Some? {
          var next := RunCall(m, body[0]).value;
          RestoredFacts(m, next, m.rsp);
          BodyIsTransparent(next, fns, frames, body[1..]);
          if RunBody(next, body[1..]).Some? {
            CallThenBody(m, next, RunBody(next, body[1..]).value, body);
          }
        }
      } else {
        var next := AssignLocal(m, body[0].local, body[0].value);
        AssignKeepsRunning(m, fns, frames, body[0].local, body[0].value);
        BodyIsTransparent(next, fns, frames, body[1..]);
        if RunBody(next, body[1..]).Some? {
          AssignThenBody(m, RunBody(next, body[1..]).value, body);
        }
      }
    }
  }

  lemma {:induction false} BodyRestores(before: Machine, after: Machine, body: seq<Action>)
    requires BodyDone(before, after, body)
    ensures Restored(before, after, before.rbp)
  {
  }

  lemma {:induction false} FramePointer(e: Machine, locals: nat)
    ensures OpenFrame(e, locals).rbp == e.rsp
  {
  }

  lemma {:induction false} NothingDone(m: Machine)
    ensures BodyDone(m, m, [])
  {
  }

  lemma {:induction false} RestoredFacts(before: Machine, after: Machine, lo: int)
    requires Restored(before, after, lo)
    ensures after.bps == before.bps && after.endHandler == before.endHandler
  {
  }

  /**
   A debugged call and the same call without any breakpoints leave the processor and the caller's
   stack in the same state.
   */
  lemma {:induction false} SameAsUndebugged(m: Machine, plain: Machine, fns: set<int>, frames: seq<Frame>, c: Call)
    requires Running(m, fns, frames) && Running(plain, fns, frames) && ValidCall(c, fns, m.endHandler)
    requires plain.bps == [] && plain.words == m.words && plain.rsp == m.rsp && plain.rbp == m.rbp
    requires plain.endHandler == m.endHandler
    requires Recorded(c, m.bps, Rets(frames), OnRecord(m)).Some?
    ensures RunCall(m, c).Some? && RunCall(plain, c).Some?
    ensures var r, p := RunCall(m, c).value, RunCall(plain, c).value;
            && r.rip == p.rip && r.rsp == p.rsp && r.rbp == p.rbp && p.stops == plain.stops
            && forall a :: m.rsp <= a ==> Load(r.words, a) == Load(p.words, a)
  {
    hide Running, RunCall, ValidCall, Recorded, Trace, Rets, Pending, OnRecord;
    NoStopsWithoutBreakpoints(c, m.endHandler, Rets(frames), |Pending(frames)|, OnRecord(plain));
    CallIsTransparent(m, fns, frames, c);
    CallIsTransparent(plain, fns, frames, c);
  }

  lemma {:induction false} NoStopsWithoutBreakpoints(
      c: Call, endHandler: int, callers: seq<int>, pending: nat, recs: seq<StackElem>)
    ensures Trace(c, [], endHandler, callers, pending) == [] && Recorded(c, [], callers, recs) == Some(recs)
    decreases c, 1
  {
    NoStopsWithoutBreakpointsAll(c.body, endHandler, [c.ret] + callers, pending, recs);
  }

  lemma {:induction false} NoStopsWithoutBreakpointsAll(
      body: seq<Action>, endHandler: int, callers: seq<int>, pending: nat, recs: seq<StackElem>)
    ensures TraceAll(body, [], endHandler, callers, pending) == [] && RecordedAll(body, [], callers, recs) == Some(recs)
    decreases body, 0
  {
    if body != [] {
      if body[0].Invoke? { NoStopsWithoutBreakpoints(body[0], endHandler, callers, pending, recs); }
      NoStopsWithoutBreakpointsAll(body[1..], endHandler, callers, pending, recs);
    }
  }

  // ----- when the arrays suffice -----

  /** A tree that is not too deep and has few entry stops outgrows neither array. */
  lemma {:induction false} FewStopsFit(c: Call, bps: seq<Breakpoint>, callers: seq<int>, recs: seq<StackElem>)
    requires |callers| + Height(c) <= MAX_BACKTRACE - 1 && |recs| + EntryStops(c, bps) <= MAX_BACKTRACE
    ensures Recorded(c, bps, callers, recs).Some?
    ensures |Recorded(c, bps, callers, recs).value| <= |recs| + EntryStops(c, bps)
    decreases c, 1
  {
    hide Listed, EndWatched;
    FewStopsFitAll(c.body, bps, [c.ret] + callers, AfterEntry(c, bps, callers, recs).value);
  }

  lemma {:induction false} FewStopsFitAll(body: seq<Action>, bps: seq<Breakpoint>, callers: seq<int>,
      recs: seq<StackElem>)
    requires |callers| + HeightAll(body) <= MAX_BACKTRACE - 1 && |recs| + EntryStopsAll(body, bps) <= MAX_BACKTRACE
    ensures RecordedAll(body, bps, callers, recs).Some?
    ensures |RecordedAll(body, bps, callers, recs).value| <= |recs| + EntryStopsAll(body, bps)
    decreases body, 0
  {
    if body != [] {
      var next := recs;
      if body[0].Invoke? {
        FewStopsFit(body[0], bps, callers, recs);
        next := Recorded(body[0], bps, callers, recs).value;
      }
      FewStopsFitAll(body[1..], bps, callers, next);
    }
  }

  /** Each stop in a function called by main starts the record anew, so main may call such functions forever. */
  lemma {:induction false} MainMayCallForever(body: seq<Action>, bps: seq<Breakpoint>, recs: seq<StackElem>)
    requires forall a :: a in body && a.Invoke? ==> Listed(bps, a.entry) && Recorded(a, bps, [], []).Some?
    ensures RecordedAll(body, bps, [], recs).Some?
    decreases |body|
  {
    hide Listed, EndWatched;
    if body != [] {
      var next := recs;
      if body[0].Invoke? {
        var c := body[0];
        assert body[0] in body && Recorded(c, bps, [], recs) == Recorded(c, bps, [], []);
        next := Recorded(c, bps, [], recs).value;
      }
      MainMayCallForever(body[1..], bps, next);
    }
  }

  // ----- entry and end stops match like brackets -----

  /**
   Replays stops against the return addresses of the watched calls that have been entered and not yet
   ended, innermost first: an entry of a watched function opens a bracket, an end must close the innermost.
   */
  ghost function Replay(stops: seq<Stop>, bps: seq<Breakpoint>, endHandler: int, open: seq<int>): Option<seq<int>> {
    if stops == [] then Some(open)
    else
      var stop := stops[0];
      if stop.addr == endHandler then
        if open != [] && stop.backtrace != [] && stop.backtrace[0] == open[0]
        then Replay(stops[1..], bps, endHandler, open[1..])
        else None
      else if EndWatched(bps, stop.addr) && |stop.backtrace| >= 2
      then Replay(stops[1..], bps, endHandler, [stop.backtrace[1]] + open)
      else Replay(stops[1..], bps, endHandler, open)
  }

  lemma {:induction false} ReplayConcat(
      a: seq<Stop>, b: seq<Stop>, bps: seq<Breakpoint>, endHandler: int, open: seq<int>)
    ensures Replay(a + b, bps, endHandler, open) ==
            match Replay(a, bps, endHandler, open) case None => None case Some(mid) => Replay(b, bps, endHandler, mid)
    decreases |a|
  {
    hide EndWatched;
    if a == [] {
      assert a + b == b;
    } else {
      assert (a + b)[1..] == a[1..] + b && (a + b)[0] == a[0];
      if a[0].addr == endHandler {
        if open != [] { ReplayConcat(a[1..], b, bps, endHandler, open[1..]); }
      } else {
        if |a[0].backtrace| >= 2 { ReplayConcat(a[1..], b, bps, endHandler, [a[0].backtrace[1]] + open); }
        ReplayConcat(a[1..], b, bps, endHandler, open);
      }
    }
  }

  lemma {:induction false} WatchedAreListed(bps: seq<Breakpoint>, a: int)
    ensures EndWatched(bps, a) ==> Listed(bps, a)
  {
  }

  /**
   Each watched call produces one entry stop and, after all stops below it, one end stop with its own return
   address.
   */
  lemma {:induction false} StopsAreBracketed(
      c: Call, bps: seq<Breakpoint>, fns: set<int>, endHandler: int, callers: seq<int>, pending: nat,
      open: seq<int>)
    requires ValidCall(c, fns, endHandler)
    ensures Replay(Trace(c, bps, endHandler, callers, pending), bps, endHandler, open) == Some(open)
    decreases c, 1
  {
    hide Listed, EndWatched;
    WatchedAreListed(bps, c.entry);
    var watched := EndWatched(bps, c.entry);
    var inside := if watched then pending + 1 else pending;
    var first := if Listed(bps, c.entry) then [Stop(c.entry, [c.entry, c.ret] + callers, 8 * pending)] else [];
    var mid := TraceAll(c.body, bps, endHandler, [c.ret] + callers, inside);
    var last := if watched then [Stop(endHandler, [c.ret] + callers, 8 * inside)] else [];
    var nested := if watched then [c.ret] + open else open;
    assert Replay(first, bps, endHandler, open) == Some(nested);
    StopsAreBracketedAll(c.body, bps, fns, endHandler, [c.ret] + callers, inside, nested);
    ReplayConcat(first, mid, bps, endHandler, open);
    ReplayConcat(first + mid, last, bps, endHandler, open);
    assert watched ==> nested[1..] == open;
    assert Replay(last, bps, endHandler, nested) == Some(open);
  }

  lemma {:induction false} StopsAreBracketedAll(
      body: seq<Action>, bps: seq<Breakpoint>, fns: set<int>, endHandler: int, callers: seq<int>, pending: nat,
      open: seq<int>)
    requires ValidBody(body, fns, endHandler)
    ensures Replay(TraceAll(body, bps, endHandler, callers, pending), bps, endHandler, open) == Some(open)
    decreases body, 0
  {
    hide Trace, EndWatched;
    if body != [] {
      var rest := TraceAll(body[1..], bps, endHandler, callers, pending);
      StopsAreBracketedAll(body[1..], bps, fns, endHandler, callers, pending, open);
      if body[0].Invoke? {
        StopsAreBracketed(body[0], bps, fns, endHandler, callers, pending, open);
        ReplayConcat(Trace(body[0], bps, endHandler, callers, pending), rest, bps, endHandler, open);
      } else {
        assert [] + rest == rest;
      }
    }
  }

  // ----- what do_backtrace returns -----

  /**
   Every stop of a call tree delivers its backtrace. `shown` is the handler's array at that stop, of which the stop
   notes the entries in front of the first zero: whatever do_backtrace may return on it is the whole backtrace, and
   it has the zero at which do_backtrace ends exactly if fewer than 64 entries were captured, which holds throughout
   a tree that is not too deep.
   */
  lemma {:induction false} StopsReadBack(
      c: Call, bps: seq<Breakpoint>, fns: set<int>, endHandler: int, callers: seq<int>, pending: nat, stop: Stop,
      shown: seq<int>)
    requires ValidCall(c, fns, endHandler) && 0 !in fns && 0 !in callers
    requires stop in Trace(c, bps, endHandler, callers, pending)
    requires |shown| == MAX_BACKTRACE && stop.backtrace == UpToZero(shown)
    ensures 0 in shown <==> |stop.backtrace| < MAX_BACKTRACE
    ensures forall n :: 0 <= n < |shown| && shown[n] == 0 && 0 !in shown[..n] ==> shown[..n] == stop.backtrace
    ensures |callers| + Height(c) <= MAX_BACKTRACE - 2 ==> 0 in shown
  {
    hide ValidCall, Trace;
    NoZeroStops(c, bps, fns, endHandler, callers, pending, stop);
    FirstZero(shown);
    forall n | 0 <= n < |shown| && shown[n] == 0 && 0 !in shown[..n] ensures shown[..n] == stop.backtrace {
      UpToZeroIs(shown, n);
    }
  }

  lemma {:induction false} FirstZero(a: seq<int>)
    ensures |UpToZero(a)| <= |a| && (0 in a <==> |UpToZero(a)| < |a|)
  {
    if a != [] && a[0] != 0 { FirstZero(a[1..]); }
  }

  lemma {:induction false} NoZeroStops(
      c: Call, bps: seq<Breakpoint>, fns: set<int>, endHandler: int, callers: seq<int>, pending: nat, stop: Stop)
    requires ValidCall(c, fns, endHandler) && 0 !in fns && 0 !in callers
    requires stop in Trace(c, bps, endHandler, callers, pending)
    ensures 0 !in stop.backtrace && |stop.backtrace| <= |callers| + Height(c) + 1
    decreases c, 1
  {
    hide Listed, EndWatched;
    var inside := if EndWatched(bps, c.entry) then pending + 1 else pending;
    if stop in TraceAll(c.body, bps, endHandler, [c.ret] + callers, inside) {
      NoZeroStopsAll(c.body, bps, fns, endHandler, [c.ret] + callers, inside, stop);
    }
  }

  lemma {:induction false} NoZeroStopsAll(
      body: seq<Action>, bps: seq<Breakpoint>, fns: set<int>, endHandler: int, callers: seq<int>, pending: nat,
      stop: Stop)
    requires ValidBody(body, fns, endHandler) && 0 !in fns && 0 !in callers
    requires stop in TraceAll(body, bps, endHandler, callers, pending)
    ensures 0 !in stop.backtrace && |stop.backtrace| <= |callers| + HeightAll(body) + 1
    decreases body, 0
  {
    if body[0].Invoke? && stop in Trace(body[0], bps, endHandler, callers, pending) {
      NoZeroStops(body[0], bps, fns, endHandler, callers, pending, stop);
    } else {
      NoZeroStopsAll(body[1..], bps, fns, endHandler, callers, pending, stop);
    }
  }
}
