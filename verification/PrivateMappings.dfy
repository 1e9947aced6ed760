/** The records of thread-private areas: four per thread, claimed first-fit, found again by start and length. */
module PrivateMappings {
  import opened Kernel
  import opened PageTables
  import opened PrivateMemory
  import opened PrivateSwitch
  import ThreadTable

  /** The first record without an owner. */
  function FirstUnused(areas: seq<Area>): (i: nat)
    ensures i <= |areas| && (i < |areas| ==> !areas[i].owned) && forall j :: 0 <= j < i ==> areas[j].owned
  {
    if areas == [] || !areas[0].owned then 0 else 1 + FirstUnused(areas[1..])
  }

  /** Length 0 asks for any length. */
  predicate Matches(a: Area, start: int, length: int) {
    a.owned && a.start == start && (length == 0 || a.length == length)
  }

  function FirstMatch(areas: seq<Area>, start: int, length: int): (i: nat)
    ensures i <= |areas| && (i < |areas| ==> Matches(areas[i], start, length))
    ensures forall j :: 0 <= j < i ==> !Matches(areas[j], start, length)
  {
    if areas == [] || Matches(areas[0], start, length) then 0 else 1 + FirstMatch(areas[1..], start, length)
  }

  /** The first used thread with a matching record, and that record. */
  function FindMapped(threads: seq<Thread>, start: int, length: int): Option<(nat, nat)> {
    if threads == [] then None
    else
      var i := FirstMatch(threads[0].areas, start, length);
      if threads[0].used && i < |threads[0].areas| then Some((0, i))
      else
        var rest :- FindMapped(threads[1..], start, length);
        Some((rest.0 + 1, rest.1))
  }

  function SetArea(threads: seq<Thread>, t: nat, i: nat, a: Area): seq<Thread>
    requires t < |threads| && i < |threads[t].areas|
  {
    threads[t := threads[t].(areas := threads[t].areas[i := a])]
  }

  /** Thread `t` records an area; a thread with four areas cannot. */
  function AfterMap(threads: seq<Thread>, t: nat, a: Area): Option<seq<Thread>>
    requires t < |threads|
  {
    var i := FirstUnused(threads[t].areas);
    if i < |threads[t].areas| then Some(SetArea(threads, t, i, a.(owned := true))) else None
  }

  /** Where an unmap finds its record: the process searches all threads, a thread only itself. */
  function Target(threads: seq<Thread>, caller: Option<nat>, start: int, length: int): Option<(nat, nat)> {
    match caller
    case None => FindMapped(threads, start, length)
    case Some(t) =>
      if t >= |threads| then None else
      var i := FirstMatch(threads[t].areas, start, length);
      if i < |threads[t].areas| then Some((t, i)) else None
  }

  function Disowned(a: Area): Area { a.(owned := false) }

  // ----- what the table keeps -----

  /** No area of a live thread overlaps the new one; the kernel's area list sees to that. */
  ghost predicate Apart(threads: seq<Thread>, a: Area) {
    forall t, i :: Active(threads, t, i) ==> Disjoint(threads[t].areas[i], a)
  }

  predicate Owns(areas: seq<Area>, addr: int) { exists i :: 0 <= i < |areas| && Covers(areas[i], addr) }

  lemma {:induction false} OwnsAfter(areas: seq<Area>, i: nat, a: Area, addr: int)
    requires i < |areas| && !areas[i].owned
    ensures Owns(areas[i := a.(owned := true)], addr) <==> a.start <= addr < a.start + a.length || Owns(areas, addr)
  {
    var now := areas[i := a.(owned := true)];
    if a.start <= addr < a.start + a.length {
      assert Covers(now[i], addr);
    } else if j :| 0 <= j < |areas| && Covers(areas[j], addr) {
      assert Covers(now[j], addr);
    }
  }

  /** Recording an area that overlaps none keeps the layout, and it fails exactly when the thread has four. */
  lemma {:induction false} MapKeepsLaid(threads: seq<Thread>, t: nat, a: Area)
    requires Laid(threads) && t < |threads| && threads[t].used && InRange(a) && Apart(threads, a)
    ensures AfterMap(threads, t, a).None? <==> forall i :: 0 <= i < MAX_PRIVATE_AREAS ==> threads[t].areas[i].owned
    ensures AfterMap(threads, t, a).Some? ==>
              Laid(AfterMap(threads, t, a).value)
              && forall addr :: Owns(AfterMap(threads, t, a).value[t].areas, addr) <==>
                   (a.start <= addr < a.start + a.length || Owns(threads[t].areas, addr))
  {
    hide InRange, Disjoint;
    var i := FirstUnused(threads[t].areas);
    if i < |threads[t].areas| {
      var after := AfterMap(threads, t, a).value;
      var now := after[t].areas;
      assert now[i] == a.(owned := true) && forall j :: 0 <= j < MAX_PRIVATE_AREAS && j != i ==>
          now[j] == threads[t].areas[j];
      SameRange(a, a.(owned := true));
      forall addr ensures Owns(now, addr) <==> (a.start <= addr < a.start + a.length || Owns(threads[t].areas, addr)) {
        OwnsAfter(threads[t].areas, i, a, addr);
      }
      forall u, j, v, k | Active(after, u, j) && Active(after, v, k) && (u != v || j != k)
        ensures Disjoint(after[u].areas[j], after[v].areas[k])
      {
        if u == t && j == i {
          DisjointCommutes(a, after[v].areas[k]);
        }
      }
    }
  }

  /** The record that takes the area is the first free one of that thread; it holds what was asked for. */
  lemma {:induction false} MapRecordsWhatWasAsked(threads: seq<Thread>, t: nat, a: Area)
    requires t < |threads|
    ensures match AfterMap(threads, t, a)
            case None => forall i :: 0 <= i < |threads[t].areas| ==> threads[t].areas[i].owned
            case Some(after) =>
              exists i :: 0 <= i < |threads[t].areas| && !threads[t].areas[i].owned
                  && (forall j :: 0 <= j < i ==> threads[t].areas[j].owned)
                  && after == threads[t := threads[t].(areas :=
                                threads[t].areas[i := Area(true, a.start, a.length, a.flags)])]
  {
    var i := FirstUnused(threads[t].areas);
    if i < |threads[t].areas| { assert !threads[t].areas[i].owned; }
  }

  lemma {:induction false} SameRange(a: Area, b: Area)
    requires b == a.(owned := true)
    ensures InRange(a) <==> InRange(b)
    ensures forall c :: (Disjoint(a, c) <==> Disjoint(b, c)) && (Disjoint(c, a) <==> Disjoint(c, b))
  {
  }

  lemma {:induction false} DisjointCommutes(a: Area, b: Area)
    ensures Disjoint(a, b) <==> Disjoint(b, a)
  {
  }

  lemma {:induction false} FoundIsActive(threads: seq<Thread>, start: int, length: int)
    ensures match FindMapped(threads, start, length)
            case None => forall t, i :: Active(threads, t, i) ==> !Matches(threads[t].areas[i], start, length)
            case Some(x) => Active(threads, x.0, x.1) && Matches(threads[x.0].areas[x.1], start, length)
    decreases |threads|
  {
    if threads != [] {
      FoundIsActive(threads[1..], start, length);
      forall t, i | Active(threads, t, i) && t > 0 ensures Active(threads[1..], t - 1, i) {
      }
    }
  }

  /** The record that an unmap asks for: owned, at that start, and of that length unless the length is 0. */
  predicate AskedFor(a: Area, start: int, length: int) {
    a.owned && a.start == start && (length != 0 ==> length == a.length)
  }

  predicate Searched(threads: seq<Thread>, caller: Option<nat>, t: int)
    requires 0 <= t < |threads|
  {
    if caller == None then threads[t].used else caller == Some(t)
  }

  /**
   An unmap finds a record only if it is asked for, the process in a slot in use and a thread in its own, and it
   finds none only if there is no such record.
   */
  lemma {:induction false} UnmapFindsWhatIsAskedFor(threads: seq<Thread>, caller: Option<nat>, start: int, length: int)
    requires caller.Some? ==> caller.value < |threads|
    ensures match Target(threads, caller, start, length)
            case None =>
              forall t, i :: 0 <= t < |threads| && 0 <= i < |threads[t].areas| && Searched(threads, caller, t) ==>
                !AskedFor(threads[t].areas[i], start, length)
            case Some(x) =>
              && x.0 < |threads| && x.1 < |threads[x.0].areas| && AskedFor(threads[x.0].areas[x.1], start, length)
              && Searched(threads, caller, x.0)
  {
    FoundIsActive(threads, start, length);
    if caller == None && FindMapped(threads, start, length) == None {
      forall t, i | 0 <= t < |threads| && 0 <= i < |threads[t].areas| && threads[t].used
        ensures !AskedFor(threads[t].areas[i], start, length)
      {
        assert threads[t].areas[i].owned ==> Active(threads, t, i);
      }
    }
  }

  /** Non-empty disjoint areas have distinct starts. */
  lemma {:induction false} StartsDiffer(a: Area, b: Area)
    requires Disjoint(a, b) && a.length > 0 && b.length > 0
    ensures a.start != b.start
  {
  }

  /**
   Unmapping an area that a live thread has recorded, by the process or by that thread under its pid, finds
   that record and no other, and releasing it keeps the layout.
   */
  lemma {:induction false} UnmapReleasesExactly(threads: seq<Thread>, t: nat, i: nat, byProcess: bool)
    requires Laid(threads) && Active(threads, t, i)
    requires forall u, j :: Active(threads, u, j) ==> threads[u].areas[j].length > 0
    ensures var a := threads[t].areas[i];
            && Target(threads, Caller(threads, threads[t].pid, byProcess), a.start, a.length) == Some((t, i))
            && Laid(SetArea(threads, t, i, Disowned(a)))
  {
    ThreadTable.LookupsAgree(threads, t);
    hide InRange, Disjoint, SetArea;
    var a := threads[t].areas[i];
    forall u, j | Active(threads, u, j) && (u != t || j != i) ensures threads[u].areas[j].start != a.start {
      StartsDiffer(threads[u].areas[j], a);
    }
    if byProcess {
      FoundIsActive(threads, a.start, a.length);
    }
    DisownKeepsLaid(threads, t, i);
  }

  /** Releasing a record takes exactly its addresses from its thread, and nothing from the others. */
  lemma {:induction false} ReleaseTakesItsAddresses(threads: seq<Thread>, t: nat, i: nat, u: nat, addr: int)
    requires Laid(threads) && Active(threads, t, i) && u < |threads| && threads[u].used
    ensures var a, after := threads[t].areas[i], SetArea(threads, t, i, Disowned(threads[t].areas[i]));
            && |after| == |threads| && after[u].pid == threads[u].pid && after[u].used
            && (Owns(after[u].areas, addr) <==>
                Owns(threads[u].areas, addr) && !(u == t && a.start <= addr < a.start + a.length))
  {
    hide InRange;
    var after := SetArea(threads, t, i, Disowned(threads[t].areas[i]));
    if j :| 0 <= j < |threads[u].areas| && Covers(threads[u].areas[j], addr) {
      assert Active(threads, u, j);
      if u != t || j != i { assert Covers(after[u].areas[j], addr); }
    }
    if j :| 0 <= j < |after[u].areas| && Covers(after[u].areas[j], addr) {
      assert Active(threads, u, j) && Covers(threads[u].areas[j], addr);
      assert Owns(threads[u].areas, addr);
      if u == t { assert j != i && Disjoint(threads[t].areas[i], threads[t].areas[j]); }
    }
  }

  /** A thread that does not own the area cannot unmap it. */
  lemma {:induction false} OthersCannotUnmap(threads: seq<Thread>, t: nat, i: nat, u: nat)
    requires Laid(threads) && Active(threads, t, i) && u < |threads| && threads[u].used && u != t
    requires forall v, j :: Active(threads, v, j) ==> threads[v].areas[j].length > 0
    ensures var a := threads[t].areas[i];
            Target(threads, Caller(threads, threads[u].pid, false), a.start, a.length) == None
  {
    ThreadTable.LookupsAgree(threads, u);
    hide InRange, Disjoint;
    var a := threads[t].areas[i];
    forall j | 0 <= j < |threads[u].areas| && threads[u].areas[j].owned ensures threads[u].areas[j].start != a.start {
      assert Active(threads, u, j);
      StartsDiffer(threads[u].areas[j], a);
    }
  }

  lemma {:induction false} DisownKeepsLaid(threads: seq<Thread>, t: nat, i: nat)
    requires Laid(threads) && Active(threads, t, i)
    ensures Laid(SetArea(threads, t, i, Disowned(threads[t].areas[i])))
  {
    hide InRange, Disjoint;
    var after := SetArea(threads, t, i, Disowned(threads[t].areas[i]));
    forall u, j | Active(after, u, j) ensures Active(threads, u, j) && after[u].areas[j] == threads[u].areas[j] {
    }
  }

  // ----- the calls -----

  method FindUnusedMap(areas: seq<Area>) returns (i: nat)
    ensures i == FirstUnused(areas)
  {
    i := 0;
    while i < |areas| && areas[i].owned
      invariant i <= |areas| && FirstUnused(areas) == i + FirstUnused(areas[i..])
    {
      assert areas[i..][1..] == areas[i + 1..];
      i := i + 1;
    }
  }

  method FindMap(areas: seq<Area>, start: int, length: int) returns (i: nat)
    ensures i == FirstMatch(areas, start, length)
  {
    i := 0;
    while i < |areas| && !Matches(areas[i], start, length)
      invariant i <= |areas| && FirstMatch(areas, start, length) == i + FirstMatch(areas[i..], start, length)
    {
      assert areas[i..][1..] == areas[i + 1..];
      i := i + 1;
    }
  }

  /** handle_thread_private_mmap, called by the context `pid`, which must be a thread. */
  method MapPrivate(threads: array<Thread>, pid: Word32, isThread: bool, start: int, length: int, prot: int)
    returns (ok: bool)
    requires threads.Length == MAX_THREADS
    modifies threads
    ensures var was, t := old(threads[..]), ThreadTable.FirstWithPid(old(threads[..]), pid);
            var a := Area(true, start, length, prot);
            && (ok <==> isThread && t < MAX_THREADS && AfterMap(was, t, a).Some?)
            && threads[..] == if ok then AfterMap(was, t, a).value else was
  {
    if !isThread {
      return false;
    }
    var t := ThreadTable.FindThread(threads, pid);
    if t == MAX_THREADS {
      return false;
    }
    var i := FindUnusedMap(threads[t].areas);
    if i == |threads[t].areas| {
      return false;
    }
    threads[t] := threads[t].(areas := threads[t].areas[i := Area(true, start, length, prot)]);
    return true;
  }

  /** find_thread_from_address */
  method FindThreadFromAddress(threads: array<Thread>, start: int, length: int) returns (found: Option<(nat, nat)>)
    ensures found == FindMapped(threads[..], start, length)
  {
    var t := 0;
    while t < threads.Length
      invariant 0 <= t <= threads.Length
      invariant FindMapped(threads[..], start, length) ==
                match FindMapped(threads[t..], start, length) case None => None case Some(x) => Some((x.0 + t, x.1))
    {
      assert threads[t..][1..] == threads[t + 1..];
      if threads[t].used {
        var i := FindMap(threads[t].areas, start, length);
        if i < |threads[t].areas| {
          return Some((t, i));
        }
      }
      t := t + 1;
    }
    return None;
  }

  datatype Unmapped = Released | NotOurs | Segfault

  /** The slot in whose name a context unmaps; None for the process. */
  function Caller(threads: seq<Thread>, pid: Word32, isProcess: bool): Option<nat> {
    if isProcess then None else Some(ThreadTable.FirstWithPid(threads, pid))
  }

  /** handle_thread_private_unmmap, called by the context `pid`. */
  method UnmapPrivate(threads: array<Thread>, pid: Word32, isProcess: bool, start: int, length: int)
    returns (r: Unmapped)
    requires threads.Length == MAX_THREADS
    modifies threads
    ensures match Target(old(threads[..]), Caller(old(threads[..]), pid, isProcess), start, length)
            case None => r == (if isProcess then NotOurs else Segfault) && threads[..] == old(threads[..])
            case Some(x) =>
              && r == Released && x.0 < threads.Length && x.1 < |old(threads[..])[x.0].areas|
              && threads[..] == SetArea(old(threads[..]), x.0, x.1, Disowned(old(threads[..])[x.0].areas[x.1]))
  {
    FoundIsActive(threads[..], start, length);
    var t, i: nat;
    if isProcess {
      var found := FindThreadFromAddress(threads, start, length);
      if found.None? {
        return NotOurs;
      }
      t, i := found.value.0, found.value.1;
    } else {
      t := ThreadTable.FindThread(threads, pid);
      if t == MAX_THREADS {
        return Segfault;
      }
      i := FindMap(threads[t].areas, start, length);
      if i == |threads[t].areas| {
        return Segfault;
      }
    }
    threads[t] := threads[t].(areas := threads[t].areas[i := Disowned(threads[t].areas[i])]);
    return Released;
  }
}
