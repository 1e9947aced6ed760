/** The round-robin choice of the next context. */
module Scheduler {
  import opened Kernel

  datatype State = UNUSED | NEW | READY | RUNNING | WAITING | EXITING

  /** The pid that the search looks at after `k` others: upwards from `cur + 1`, wrapping past the swapper to 1. */
  function Candidate(cur: nat, k: nat): (pid: nat)
    requires cur < MAX_PROCESSES && k < MAX_PROCESSES - 1
    ensures 1 <= pid < MAX_PROCESSES
  {
    if cur + 1 + k < MAX_PROCESSES then cur + 1 + k else cur + 2 + k - MAX_PROCESSES
  }

  /** How many candidates the search from `cur` looks at before it comes to `p`. */
  function Distance(cur: nat, p: nat): (d: nat)
    requires cur < MAX_PROCESSES && 1 <= p < MAX_PROCESSES
    ensures d < MAX_PROCESSES - 1 && Candidate(cur, d) == p
    ensures forall k: nat :: k < MAX_PROCESSES - 1 && Candidate(cur, k) == p ==> k == d
  {
    if cur < p then p - cur - 1 else p + MAX_PROCESSES - 2 - cur
  }

  /** The cyclically first READY context after `cur`, not counting the first `k` candidates; 0 if there is none. */
  function PickFrom(states: seq<State>, cur: nat, k: nat): (pid: nat)
    requires |states| == MAX_PROCESSES && cur < MAX_PROCESSES && k < MAX_PROCESSES
    ensures pid < MAX_PROCESSES
    decreases MAX_PROCESSES - k
  {
    if k == MAX_PROCESSES - 1 then 0
    else if states[Candidate(cur, k)] == READY then Candidate(cur, k)
    else PickFrom(states, cur, k + 1)
  }

  function Pick(states: seq<State>, cur: nat): (pid: nat)
    requires |states| == MAX_PROCESSES && cur < MAX_PROCESSES
    ensures pid < MAX_PROCESSES
  {
    PickFrom(states, cur, 0)
  }

  /** The search with its wrap-around and its two special exits ends, and finds that context. */
  method PickNextContext(states: seq<State>, cur: nat) returns (next: nat)
    requires |states| == MAX_PROCESSES && cur < MAX_PROCESSES
    ensures next == Pick(states, cur)
  {
    var pid := if cur + 1 == MAX_PROCESSES then 1 else cur + 1;
    ghost var k: nat := 0;
    while pid != 0
      invariant k < MAX_PROCESSES && Pick(states, cur) == PickFrom(states, cur, k)
      invariant pid == 0 <==> k == MAX_PROCESSES - 1
      invariant pid != 0 ==> pid == Candidate(cur, k)
      decreases MAX_PROCESSES - k
    {
      if states[pid] == READY {
        return pid;
      }
      pid := pid + 1;
      k := k + 1;
      if pid == cur + 1 {
        pid := 0;
      }
      if pid == MAX_PROCESSES {
        pid := 1;
        if cur == 0 {
          break;
        }
      }
    }
    return 0;
  }

  /** The choice is READY, and no READY context comes before it in the cycle. */
  lemma {:induction false} PickIsFirstReady(states: seq<State>, cur: nat, k: nat, p: nat)
    requires |states| == MAX_PROCESSES && cur < MAX_PROCESSES && k < MAX_PROCESSES && 1 <= p < MAX_PROCESSES
    requires states[p] == READY && k <= Distance(cur, p)
    ensures var next := PickFrom(states, cur, k);
            next != 0 && states[next] == READY && k <= Distance(cur, next) <= Distance(cur, p)
    decreases MAX_PROCESSES - k
  {
    if states[Candidate(cur, k)] != READY {
      PickIsFirstReady(states, cur, k + 1, p);
    }
  }

  lemma {:induction false} NoneReady(states: seq<State>, cur: nat, k: nat)
    requires |states| == MAX_PROCESSES && cur < MAX_PROCESSES && k < MAX_PROCESSES
    requires forall p :: 1 <= p < MAX_PROCESSES ==> states[p] != READY
    ensures PickFrom(states, cur, k) == 0
    decreases MAX_PROCESSES - k
  {
    if k < MAX_PROCESSES - 1 { NoneReady(states, cur, k + 1); }
  }

  /** The swapper runs exactly when nobody else is READY; otherwise a READY context does. */
  lemma {:induction false} PickZeroIff(states: seq<State>, cur: nat)
    requires |states| == MAX_PROCESSES && cur < MAX_PROCESSES
    ensures Pick(states, cur) == 0 <==> forall p :: 1 <= p < MAX_PROCESSES ==> states[p] != READY
    ensures Pick(states, cur) != 0 ==> states[Pick(states, cur)] == READY
  {
    if p :| 1 <= p < MAX_PROCESSES && states[p] == READY {
      PickIsFirstReady(states, cur, 0, p);
    } else {
      NoneReady(states, cur, 0);
    }
  }

  predicate ReadyBetween(states: seq<State>, lo: nat, hi: nat) {
    exists p :: lo <= p < hi <= |states| && states[p] == READY
  }

  /** The choice is the lowest READY pid above the current one, or else the lowest one from 1 on, or else 0. */
  lemma {:induction false} PickIsLowestReady(states: seq<State>, cur: nat)
    requires |states| == MAX_PROCESSES && cur < MAX_PROCESSES
    ensures var next := Pick(states, cur);
            if ReadyBetween(states, cur + 1, MAX_PROCESSES)
            then cur < next && states[next] == READY && !ReadyBetween(states, cur + 1, next)
            else if ReadyBetween(states, 1, MAX_PROCESSES)
            then 1 <= next <= cur && states[next] == READY && !ReadyBetween(states, 1, next)
            else next == 0
  {
    PickZeroIff(states, cur);
    var next := Pick(states, cur);
    if p :| 1 <= p < MAX_PROCESSES && states[p] == READY {
      forall p | 1 <= p < MAX_PROCESSES && states[p] == READY ensures Distance(cur, next) <= Distance(cur, p) {
        PickIsFirstReady(states, cur, 0, p);
      }
    }
  }

  /** Whoever is chosen instead of `p` is nearer to `p` in the cycle. */
  lemma {:induction false} ChoiceIsNearer(states: seq<State>, cur: nat, p: nat)
    requires |states| == MAX_PROCESSES && cur < MAX_PROCESSES && 1 <= p < MAX_PROCESSES && states[p] == READY
    ensures var next := Pick(states, cur);
            next == p || (1 <= next < MAX_PROCESSES && Distance(next, p) < Distance(cur, p))
  {
    PickIsFirstReady(states, cur, 0, p);
  }

  /** `p` is chosen at one of the dispatches, which see these states one after the other. */
  ghost predicate Dispatched(history: seq<seq<State>>, cur: nat, p: nat)
    requires cur < MAX_PROCESSES && forall h :: h in history ==> |h| == MAX_PROCESSES
    decreases |history|
  {
    history != [] && (Pick(history[0], cur) == p || Dispatched(history[1..], Pick(history[0], cur), p))
  }

  lemma {:induction false} DispatchedWithinDistance(history: seq<seq<State>>, cur: nat, p: nat)
    requires cur < MAX_PROCESSES && 1 <= p < MAX_PROCESSES
    requires forall h :: h in history ==> |h| == MAX_PROCESSES && h[p] == READY
    requires |history| > Distance(cur, p)
    ensures Dispatched(history, cur, p)
    decreases |history|
  {
    assert history[0] in history;
    ChoiceIsNearer(history[0], cur, p);
    if Pick(history[0], cur) != p {
      DispatchedWithinDistance(history[1..], Pick(history[0], cur), p);
    }
  }

  /**
   Round robin starves nobody: a context that stays READY is chosen within MAX_PROCESSES - 1 dispatches,
   whatever the other contexts do in between and whoever was running first.
   */
  lemma {:induction false} NobodyStarves(history: seq<seq<State>>, cur: nat, p: nat)
    requires cur < MAX_PROCESSES && 1 <= p < MAX_PROCESSES
    requires forall h :: h in history ==> |h| == MAX_PROCESSES && h[p] == READY
    requires |history| >= MAX_PROCESSES - 1
    ensures Dispatched(history[..MAX_PROCESSES - 1], cur, p)
  {
    DispatchedWithinDistance(history[..MAX_PROCESSES - 1], cur, p);
  }

  // ----- the contexts and the timer -----

  /** What the scheduler sees of the contexts: states, remaining sleep, and who is current. */
  datatype System = System(states: seq<State>, sleep: seq<nat>, current: nat)

  predicate WellFormed(s: System) {
    |s.states| == MAX_PROCESSES && |s.sleep| == MAX_PROCESSES && s.current < MAX_PROCESSES
  }

  predicate Sleeps(s: System, p: nat)
    requires WellFormed(s) && p < MAX_PROCESSES
  {
    s.states[p] == WAITING && s.sleep[p] > 0
  }

  function Schedule(s: System, next: nat): System
    requires WellFormed(s) && next < MAX_PROCESSES
  {
    s.(states := s.states[next := RUNNING], current := next)
  }

  /** One tick off every sleeper; whoever has none left is READY. */
  function Accounted(s: System): (t: System)
    requires WellFormed(s)
    ensures WellFormed(t)
  {
    s.(states := seq(MAX_PROCESSES, p requires 0 <= p < MAX_PROCESSES =>
                     if Sleeps(s, p) && s.sleep[p] == 1 then READY else s.states[p]),
       sleep := seq(MAX_PROCESSES, p requires 0 <= p < MAX_PROCESSES =>
                    if Sleeps(s, p) then s.sleep[p] - 1 else s.sleep[p]))
  }

  /** The states that the timer's search sees: the interrupted context is READY again. */
  function Requeued(s: System): (t: System)
    requires WellFormed(s)
    ensures WellFormed(t) && t.current == s.current
  {
    var t := Accounted(s);
    t.(states := t.states[s.current := READY])
  }

  /** A timer tick; a context that is chosen over itself goes on without being marked RUNNING. */
  function Ticked(s: System): (t: System)
    requires WellFormed(s)
    ensures WellFormed(t)
  {
    var t := Requeued(s);
    var next := Pick(t.states, t.current);
    if next == t.current then t else Schedule(t, next)
  }

  /** The state after `n` timer ticks during which nobody makes a system call. */
  function Ticks(s: System, n: nat): (t: System)
    requires WellFormed(s)
    ensures WellFormed(t)
    decreases n
  {
    if n == 0 then s else Ticks(Ticked(s), n - 1)
  }

  /**
   What a tick does to every context: one off each sleep, READY for who has none left and for the interrupted one,
   RUNNING for the one that is chosen, unless it is chosen over itself, and nothing else.
   */
  lemma {:induction false} TickDoes(s: System, p: nat)
    requires WellFormed(s) && p < MAX_PROCESSES
    ensures var t, wakes := Ticked(s), s.states[p] == WAITING && s.sleep[p] == 1;
            && t.sleep[p] == (if s.states[p] == WAITING && s.sleep[p] > 0 then s.sleep[p] - 1 else s.sleep[p])
            && t.states[p] == (if p == t.current && p != s.current then RUNNING
                               else if p == s.current || wakes then READY
                               else s.states[p])
    ensures Ticked(s).current == Pick(Requeued(s).states, s.current)
    ensures Requeued(s).states[p] == if p == s.current || (s.states[p] == WAITING && s.sleep[p] == 1)
                                     then READY else s.states[p]
  {
    hide Pick;
  }

  lemma {:induction false} TickOnSleeper(s: System, p: nat)
    requires WellFormed(s) && 1 <= p < MAX_PROCESSES && p != s.current && Sleeps(s, p)
    ensures var t := Ticked(s);
            t.sleep[p] == s.sleep[p] - 1 && (if s.sleep[p] > 1 then t.states[p] == WAITING && t.current != p
                                             else t.states[p] == (if t.current == p then RUNNING else READY))
  {
    PickZeroIff(Requeued(s).states, s.current);
  }

  /** A sleeper keeps waiting for exactly the ticks it asked for, and can run from then on. */
  lemma {:induction false} SleepLastsExactly(s: System, p: nat, n: nat)
    requires WellFormed(s) && 1 <= p < MAX_PROCESSES && p != s.current && Sleeps(s, p) && n <= s.sleep[p]
    ensures var t := Ticks(s, n);
            t.sleep[p] == s.sleep[p] - n && (if n < s.sleep[p] then t.states[p] == WAITING && t.current != p
                                             else t.states[p] == (if t.current == p then RUNNING else READY))
    decreases n
  {
    hide Ticked;
    if n > 0 {
      TickOnSleeper(s, p);
      if n == 1 {
        assert Ticks(s, 1) == Ticks(Ticked(s), 0);
      } else {
        SleepLastsExactly(Ticked(s), p, n - 1);
      }
    }
  }

  lemma {:induction false} TickOnReady(s: System, p: nat)
    requires WellFormed(s) && 1 <= p < MAX_PROCESSES && s.states[p] == READY && p != s.current
    ensures var t := Ticked(s);
            if t.current == p then t.states[p] == RUNNING
            else t.states[p] == READY && Distance(t.current, p) < Distance(s.current, p)
  {
    ChoiceIsNearer(Requeued(s).states, s.current, p);
  }

  /** A READY context gets the processor within MAX_PROCESSES - 1 ticks. */
  lemma {:induction false} ReadyRunsSoon(s: System, p: nat) returns (n: nat)
    requires WellFormed(s) && 1 <= p < MAX_PROCESSES && s.states[p] == READY && p != s.current
    ensures 0 < n <= Distance(s.current, p) + 1 <= MAX_PROCESSES - 1
    ensures Ticks(s, n).current == p && Ticks(s, n).states[p] == RUNNING
    decreases Distance(s.current, p)
  {
    hide Ticked, Distance;
    TickOnReady(s, p);
    if Ticked(s).current == p {
      n := 1;
      assert Ticks(s, 1) == Ticks(Ticked(s), 0);
    } else {
      n := ReadyRunsSoon(Ticked(s), p);
      n := n + 1;
    }
  }

  class Contexts {
    const states: array<State>
    const sleep: array<nat>
    var current: nat

    constructor (states: array<State>, sleep: array<nat>, current: nat)
      requires states.Length == MAX_PROCESSES && sleep.Length == MAX_PROCESSES && current < MAX_PROCESSES
      ensures this.states == states && this.sleep == sleep && this.current == current && Valid()
    {
      this.states, this.sleep, this.current := states, sleep, current;
    }

    ghost predicate Valid()
      reads this
    {
      states.Length == MAX_PROCESSES && sleep.Length == MAX_PROCESSES && current < MAX_PROCESSES
    }

    ghost function View(): (s: System)
      requires Valid()
      reads this, states, sleep
      ensures WellFormed(s)
    {
      System(states[..], sleep[..], current)
    }

    method SwitchTo(next: nat)
      requires Valid() && next < MAX_PROCESSES
      modifies this, states
      ensures Valid() && View() == Schedule(old(View()), next)
    {
      current := next;
      states[next] := RUNNING;
    }

    method AccountSleep()
      requires Valid()
      modifies states, sleep
      ensures Valid() && View() == Accounted(old(View()))
    {
      var ctr := 0;
      while ctr < MAX_PROCESSES
        invariant 0 <= ctr <= MAX_PROCESSES
        invariant forall p :: 0 <= p < ctr ==> (
          states[p] == Accounted(old(View())).states[p] && sleep[p] == Accounted(old(View())).sleep[p])
        invariant forall p :: ctr <= p < MAX_PROCESSES ==> (
          states[p] == old(states[p]) && sleep[p] == old(sleep[p]))
      {
        if states[ctr] == WAITING && sleep[ctr] > 0 {
          sleep[ctr] := sleep[ctr] - 1;
          if sleep[ctr] == 0 {
            states[ctr] := READY;
          }
        }
        ctr := ctr + 1;
      }
      assert states[..] == Accounted(old(View())).states;
      assert sleep[..] == Accounted(old(View())).sleep;
    }

    method HandleTimerTick()
      requires Valid()
      modifies this, states, sleep
      ensures Valid() && View() == Ticked(old(View()))
    {
      AccountSleep();
      states[current] := READY;
      assert View() == Requeued(old(View()));
      var next := PickNextContext(states[..], current);
      if next != current {
        SwitchTo(next);
      }
    }
  }
}
