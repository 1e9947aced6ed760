/** How a debugger and its debuggee hand the processor to each other. */
module DebugPair {
  import opened Kernel
  import opened Scheduler

  datatype Pair = Pair(debugger: nat, debuggee: nat)

  predicate Distinct(pair: Pair) {
    1 <= pair.debugger < MAX_PROCESSES && 1 <= pair.debuggee < MAX_PROCESSES && pair.debugger != pair.debuggee
  }

  predicate Awake(s: System, p: nat)
    requires WellFormed(s) && p < MAX_PROCESSES
  {
    s.states[p] == READY || s.states[p] == RUNNING
  }

  /** Whoever is current can run, and nobody else is RUNNING. */
  predicate OneRuns(s: System)
    requires WellFormed(s)
  {
    Awake(s, s.current) && forall p :: 0 <= p < MAX_PROCESSES && s.states[p] == RUNNING ==> p == s.current
  }

  /** `turn` is the one of the pair that is READY or RUNNING; the other waits, and neither is asleep. */
  predicate Holds(s: System, pair: Pair, turn: nat)
    requires WellFormed(s) && Distinct(pair)
  {
    && OneRuns(s)
    && (turn == pair.debugger || turn == pair.debuggee)
    && Awake(s, turn)
    && s.states[Other(pair, turn)] == WAITING
    && s.sleep[pair.debugger] == 0 && s.sleep[pair.debuggee] == 0
  }

  function Other(pair: Pair, turn: nat): nat {
    if turn == pair.debugger then pair.debuggee else pair.debugger
  }

  // ----- the steps -----

  /** Hand-over inside a call or a trap: `from` waits, `to` is READY and scheduled at once. */
  function HandOver(s: System, from: nat, to: nat): System
    requires WellFormed(s) && from < MAX_PROCESSES && to < MAX_PROCESSES
  {
    Schedule(s.(states := s.states[from := WAITING][to := READY]), to)
  }

  /** The fork handler: the child's context is a copy of its parent's, except that it waits. */
  function Forked(s: System, pair: Pair): System
    requires WellFormed(s) && Distinct(pair)
  {
    s.(states := s.states[pair.debuggee := WAITING],
       sleep := s.sleep[pair.debuggee := s.sleep[pair.debugger]])
  }

  /** The current context ends; `woken` is its parent, if the exit handler wakes one. */
  function Ended(s: System, woken: Option<nat>): (t: System)
    requires WellFormed(s) && (woken.Some? ==> woken.value < MAX_PROCESSES)
    ensures WellFormed(t)
  {
    var states := if woken.Some? then s.states[woken.value := READY] else s.states;
    s.(states := states[s.current := UNUSED])
  }

  /** Nobody but the swapper is left. */
  predicate OnlySwapperLeft(states: seq<State>)
    requires |states| == MAX_PROCESSES
  {
    forall p :: 1 <= p < MAX_PROCESSES ==> states[p] == UNUSED
  }

  function Exited(s: System, woken: Option<nat>): System
    requires WellFormed(s) && (woken.Some? ==> woken.value < MAX_PROCESSES)
  {
    var t := Ended(s, woken);
    Schedule(t, Pick(t.states, t.current))
  }

  datatype Event =
    | WaitAndContinue
    | TrapStops
    | TrapStepsOver
    | TimerTick
    | ThirdExits(woken: Option<nat>)
    | ThirdSleeps(ticks: nat)
    | ThirdHandsOver(from: nat, to: nat)

  /** Neither of the pair. */
  predicate IsThird(pair: Pair, p: nat) { p < MAX_PROCESSES && p != pair.debugger && p != pair.debuggee }

  predicate Enabled(s: System, pair: Pair, e: Event)
    requires WellFormed(s) && Distinct(pair)
  {
    match e
    case WaitAndContinue => s.current == pair.debugger
    case TrapStops => s.current == pair.debuggee
    case TrapStepsOver => s.current == pair.debuggee
    case TimerTick => true
    case ThirdExits(woken) =>
      && s.current != 0 && IsThird(pair, s.current)
      && (woken.Some? ==> woken.value != s.current && IsThird(pair, woken.value))
    case ThirdSleeps(_) => s.current != 0 && IsThird(pair, s.current)
    case ThirdHandsOver(from, to) =>
      from != to && IsThird(pair, from) && IsThird(pair, to) && (s.current == from || s.current == to)
  }

  /** The current context falls asleep. */
  function Asleep(s: System, ticks: nat): System
    requires WellFormed(s)
  {
    var states := s.states[s.current := WAITING];
    Schedule(s.(states := states, sleep := s.sleep[s.current := ticks]), Pick(states, s.current))
  }

  function Step(s: System, pair: Pair, e: Event): (t: System)
    requires WellFormed(s) && Distinct(pair) && Enabled(s, pair, e)
    ensures WellFormed(t)
  {
    match e
    case WaitAndContinue => HandOver(s, pair.debugger, pair.debuggee)
    case TrapStops => HandOver(s, pair.debuggee, pair.debugger)
    case TrapStepsOver => HandOver(s, pair.debugger, pair.debuggee)
    case TimerTick => Ticked(s)
    case ThirdExits(woken) => Exited(s, woken)
    case ThirdSleeps(ticks) => Asleep(s, ticks)
    case ThirdHandsOver(from, to) => HandOver(s, from, to)
  }

  /** Only a wait hands the turn to the debuggee, and only a stop gives it back. */
  function TurnAfter(pair: Pair, turn: nat, e: Event): nat {
    match e
    case WaitAndContinue => pair.debuggee
    case TrapStops => pair.debugger
    case _ => turn
  }

  // ----- what the steps keep -----

  /** The session begins with the debugger's turn. */
  lemma {:induction false} ForkBegins(s: System, pair: Pair)
    requires WellFormed(s) && Distinct(pair) && OneRuns(s)
    requires s.current == pair.debugger && s.sleep[pair.debugger] == 0
    ensures WellFormed(Forked(s, pair)) && Holds(Forked(s, pair), pair, pair.debugger)
  {
    assert Forked(s, pair).states[pair.debuggee] == WAITING;
  }

  lemma {:induction false} TickKeeps(s: System, pair: Pair, turn: nat)
    requires WellFormed(s) && Distinct(pair) && Holds(s, pair, turn)
    ensures Holds(Ticked(s), pair, turn)
  {
    hide Pick;
    PickZeroIff(Requeued(s).states, s.current);
    assert Requeued(s).states[turn] == READY;
    assert forall p :: 0 <= p < MAX_PROCESSES ==> Requeued(s).states[p] != RUNNING;
  }

  lemma {:induction false} ThirdExitKeeps(s: System, pair: Pair, turn: nat, woken: Option<nat>)
    requires WellFormed(s) && Distinct(pair) && Holds(s, pair, turn) && Enabled(s, pair, ThirdExits(woken))
    ensures Holds(Exited(s, woken), pair, turn) && !OnlySwapperLeft(Ended(s, woken).states)
  {
    hide Pick;
    var ended := Ended(s, woken).states;
    assert ended[turn] == READY;
    PickZeroIff(ended, s.current);
  }

  lemma {:induction false} ThirdSleepKeeps(s: System, pair: Pair, turn: nat, ticks: nat)
    requires WellFormed(s) && Distinct(pair) && Holds(s, pair, turn) && Enabled(s, pair, ThirdSleeps(ticks))
    ensures WellFormed(Asleep(s, ticks)) && Holds(Asleep(s, ticks), pair, turn)
  {
    hide Pick;
    var states := s.states[s.current := WAITING];
    assert states[turn] == READY;
    PickZeroIff(states, s.current);
  }

  lemma {:induction false} StepKeeps(s: System, pair: Pair, turn: nat, e: Event)
    requires WellFormed(s) && Distinct(pair) && Holds(s, pair, turn) && Enabled(s, pair, e)
    ensures Holds(Step(s, pair, e), pair, TurnAfter(pair, turn, e))
  {
    hide Ticked, Exited, Asleep;
    match e {
      case TimerTick => TickKeeps(s, pair, turn);
      case ThirdExits(woken) => ThirdExitKeeps(s, pair, turn, woken);
      case ThirdSleeps(ticks) => ThirdSleepKeeps(s, pair, turn, ticks);
      case _ =>
    }
  }

  ghost predicate Possible(s: System, pair: Pair, events: seq<Event>)
    requires WellFormed(s) && Distinct(pair)
    decreases |events|
  {
    events != [] ==> Enabled(s, pair, events[0]) && Possible(Step(s, pair, events[0]), pair, events[1..])
  }

  function Run(s: System, pair: Pair, events: seq<Event>): (t: System)
    requires WellFormed(s) && Distinct(pair) && Possible(s, pair, events)
    ensures WellFormed(t)
    decreases |events|
  {
    if events == [] then s else Run(Step(s, pair, events[0]), pair, events[1..])
  }

  function TurnAfterAll(pair: Pair, turn: nat, events: seq<Event>): nat
    decreases |events|
  {
    if events == [] then turn else TurnAfterAll(pair, TurnAfter(pair, turn, events[0]), events[1..])
  }

  /**
   From the fork to the debuggee's exit exactly one of the pair is READY or RUNNING, which one is decided by
   the waits and stops alone, and no two contexts are RUNNING.
   */
  lemma {:induction false} RunKeeps(s: System, pair: Pair, turn: nat, events: seq<Event>)
    requires WellFormed(s) && Distinct(pair) && Holds(s, pair, turn) && Possible(s, pair, events)
    ensures Holds(Run(s, pair, events), pair, TurnAfterAll(pair, turn, events))
    decreases |events|
  {
    if events != [] {
      StepKeeps(s, pair, turn, events[0]);
      RunKeeps(Step(s, pair, events[0]), pair, TurnAfter(pair, turn, events[0]), events[1..]);
    }
  }

  /** Waits and stops alternate: a second wait cannot come before a stop, nor a second stop before a wait. */
  lemma {:induction false} WaitsAndStopsAlternate(s: System, pair: Pair, turn: nat, e: Event)
    requires WellFormed(s) && Distinct(pair) && Holds(s, pair, turn) && Enabled(s, pair, e)
    ensures e == WaitAndContinue ==> turn == pair.debugger
    ensures e == TrapStops || e == TrapStepsOver ==> turn == pair.debuggee
  {
    assert Awake(s, s.current);
  }

  /**
   A wait puts the debuggee on the processor at once and a stop the debugger, with the other one waiting; a trap that
   is stepped over leaves the debuggee there. Nobody else notices.
   */
  lemma {:induction false} HandOverIsImmediate(s: System, pair: Pair, turn: nat, e: Event)
    requires WellFormed(s) && Distinct(pair) && Holds(s, pair, turn) && Enabled(s, pair, e)
    requires e == WaitAndContinue || e == TrapStops || e == TrapStepsOver
    ensures var t := Step(s, pair, e);
            && t.current == (if e == TrapStops then pair.debugger else pair.debuggee)
            && t.states[t.current] == RUNNING && t.states[Other(pair, t.current)] == WAITING && t.sleep == s.sleep
            && forall p :: 0 <= p < MAX_PROCESSES && IsThird(pair, p) ==> t.states[p] == s.states[p]
  {
  }

  /** The one whose turn it is gets the processor within MAX_PROCESSES - 1 ticks. */
  lemma {:induction false} TurnIsTaken(s: System, pair: Pair, turn: nat) returns (n: nat)
    requires WellFormed(s) && Distinct(pair) && Holds(s, pair, turn)
    ensures n < MAX_PROCESSES && Ticks(s, n).current == turn
  {
    n := 0;
    if s.current != turn { n := ReadyRunsSoon(s, turn); }
  }

  /**
   What an exit does: the context is gone, its parent is READY if it is woken and still there, the others are as they
   were, and the lowest READY context after the one that has ended runs, the swapper without any.
   */
  lemma {:induction false} ExitDoes(s: System, woken: Option<nat>, p: nat)
    requires WellFormed(s) && (woken.Some? ==> woken.value < MAX_PROCESSES) && p < MAX_PROCESSES
    ensures var ended, t := Ended(s, woken), Exited(s, woken);
            && ended.states[p] == (if p == s.current then UNUSED else if woken == Some(p) then READY else s.states[p])
            && ended.sleep == s.sleep && ended.current == s.current && t.sleep == s.sleep
            && t.current == Pick(ended.states, s.current) && t.states == ended.states[t.current := RUNNING]
    ensures OnlySwapperLeft(Ended(s, woken).states) <==>
            forall q :: 1 <= q < MAX_PROCESSES ==> Ended(s, woken).states[q] == UNUSED
  {
    hide Pick;
  }

  /** When the debuggee exits, the debugger is awake again, the slot is free, and somebody can run. */
  lemma {:induction false} ExitWakesDebugger(s: System, pair: Pair)
    requires WellFormed(s) && Distinct(pair) && Holds(s, pair, pair.debuggee) && s.current == pair.debuggee
    ensures var t := Exited(s, Some(pair.debugger));
            WellFormed(t) && OneRuns(t) && Awake(t, pair.debugger) && t.states[pair.debuggee] == UNUSED
            && t.sleep[pair.debugger] == 0 && !OnlySwapperLeft(Ended(s, Some(pair.debugger)).states)
  {
    hide Pick;
    assert Ended(s, Some(pair.debugger)).states[pair.debugger] == READY;
    PickZeroIff(s.states[pair.debugger := READY][pair.debuggee := UNUSED], s.current);
  }

  // ----- the handlers -----

  /** Who debugs whom: the pid in a context's debug record, None without a record, and the parents' pids. */
  class Links {
    const debuggee: array<Option<nat>>
    const parent: array<nat>

    constructor (debuggee: array<Option<nat>>, parent: array<nat>)
      requires debuggee.Length == MAX_PROCESSES && parent.Length == MAX_PROCESSES
      requires forall p :: 0 <= p < MAX_PROCESSES ==> parent[p] < MAX_PROCESSES
      requires forall p :: 0 <= p < MAX_PROCESSES && debuggee[p].Some? ==> debuggee[p].value < MAX_PROCESSES
      ensures this.debuggee == debuggee && this.parent == parent && Valid()
    {
      this.debuggee, this.parent := debuggee, parent;
    }

    ghost predicate Valid()
      reads debuggee, parent
    {
      && debuggee.Length == MAX_PROCESSES && parent.Length == MAX_PROCESSES
      && (forall p :: 0 <= p < MAX_PROCESSES ==> parent[p] < MAX_PROCESSES)
      && (forall p :: 0 <= p < MAX_PROCESSES && debuggee[p].Some? ==> debuggee[p].value < MAX_PROCESSES)
    }

    /** The records of both contexts name the pair. */
    ghost predicate Connect(pair: Pair)
      requires Valid() && Distinct(pair)
      reads debuggee, parent
    {
      debuggee[pair.debugger] == Some(pair.debuggee) && debuggee[pair.debuggee] == None
      && parent[pair.debuggee] == pair.debugger
    }

    /** Whom an exit of `p` wakes: a context without a debug record wakes its parent. */
    ghost function Woken(p: nat): Option<nat>
      requires Valid() && p < MAX_PROCESSES
      reads debuggee, parent
    {
      if debuggee[p] == None then Some(parent[p]) else None
    }
  }

  /** debugger_on_fork, for a child that is a copy of a debugger; it connects the two. */
  method DebuggerOnFork(ctxs: Contexts, links: Links, child: nat)
    requires ctxs.Valid() && links.Valid() && child < MAX_PROCESSES
    requires links.debuggee[links.parent[child]].Some?
    requires Distinct(Pair(links.parent[child], child)) && links.parent != ctxs.sleep
    modifies ctxs.states, ctxs.sleep, links.debuggee
    ensures ctxs.Valid() && ctxs.View() == Forked(old(ctxs.View()), Pair(links.parent[child], child))
    ensures links.Valid() && links.Connect(Pair(links.parent[child], child))
    ensures forall p :: 0 <= p < MAX_PROCESSES && p != child && p != links.parent[child] ==>
              links.debuggee[p] == old(links.debuggee[p])
  {
    ctxs.sleep[child] := ctxs.sleep[links.parent[child]];
    links.debuggee[child] := None;
    ctxs.states[child] := WAITING;
    links.debuggee[links.parent[child]] := Some(child);
  }

  method DoWaitAndContinue(ctxs: Contexts, links: Links, ghost pair: Pair)
    requires ctxs.Valid() && links.Valid() && Distinct(pair) && links.Connect(pair) && ctxs.current == pair.debugger
    modifies ctxs, ctxs.states
    ensures ctxs.Valid() && ctxs.View() == Step(old(ctxs.View()), pair, WaitAndContinue)
  {
    var debuggee := links.debuggee[ctxs.current].value;
    ctxs.states[ctxs.current] := WAITING;
    ctxs.states[debuggee] := READY;
    ctxs.SwitchTo(debuggee);
  }

  /** The end of the trap handler: `stops` tells whether it goes to the debugger or steps over. */
  method LeaveTrap(ctxs: Contexts, links: Links, ghost pair: Pair, stops: bool)
    requires ctxs.Valid() && links.Valid() && Distinct(pair) && links.Connect(pair) && ctxs.current == pair.debuggee
    modifies ctxs, ctxs.states
    ensures ctxs.Valid()
    ensures ctxs.View() == Step(old(ctxs.View()), pair, if stops then TrapStops else TrapStepsOver)
  {
    var parent := links.parent[ctxs.current];
    if stops {
      ctxs.states[ctxs.current] := WAITING;
      ctxs.states[parent] := READY;
      ctxs.SwitchTo(parent);
    } else {
      ctxs.states[parent] := WAITING;
      ctxs.states[ctxs.current] := READY;
      ctxs.SwitchTo(ctxs.current);
    }
  }

  /** do_exit; it shuts the machine down instead of scheduling if only the swapper is left. */
  method DoExit(ctxs: Contexts, links: Links) returns (shutdown: bool)
    requires ctxs.Valid() && links.Valid()
    modifies ctxs, ctxs.states
    ensures ctxs.Valid()
    ensures var was, woken := old(ctxs.View()), links.Woken(old(ctxs.current));
            && shutdown == OnlySwapperLeft(Ended(was, woken).states)
            && ctxs.View() == if shutdown then Ended(was, woken) else Exited(was, woken)
  {
    if links.debuggee[ctxs.current] == None {
      ctxs.states[links.parent[ctxs.current]] := READY;
    }
    ctxs.states[ctxs.current] := UNUSED;
    ghost var ended := ctxs.View();
    var ctr := 1;
    while ctr < MAX_PROCESSES && ctxs.states[ctr] == UNUSED
      invariant 1 <= ctr <= MAX_PROCESSES && forall p :: 1 <= p < ctr ==> ended.states[p] == UNUSED
    {
      ctr := ctr + 1;
    }
    shutdown := ctr == MAX_PROCESSES;
    if !shutdown {
      assert ended.states[ctr] != UNUSED;
      var next := PickNextContext(ctxs.states[..], ctxs.current);
      ctxs.SwitchTo(next);
    }
  }
}
