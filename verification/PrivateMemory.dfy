/** Thread-private areas: who may fault a page in, and what a context switch makes of the page permissions. */
module PrivateMemory {
  import opened Kernel
  import opened PageTables

  const MAX_THREADS: nat := 4
  const MAX_PRIVATE_AREAS: nat := 4

  const TP_SIBLINGS_NOACCESS: int := 0x10
  const TP_SIBLINGS_RDONLY: int := 0x20

  datatype Area = Area(owned: bool, start: int, length: int, flags: int)
  datatype Thread = Thread(pid: Word32, used: bool, areas: seq<Area>)

  /** `flags & 0x70` */
  function Access(flags: int): int { flags / 0x10 % 8 * 0x10 }

  /** Bits 4, 5 and 6 in their places. */
  lemma {:induction false} AccessIsThreeBits(flags: int)
    ensures Access(flags) == 0x10 * (flags / 0x10 % 2) + 0x20 * (flags / 0x20 % 2) + 0x40 * (flags / 0x40 % 2)
  {
    var q, h := flags / 0x10, flags / 0x10 / 2;
    assert flags / 0x20 == h && flags / 0x40 == h / 2;
    LowBit(q, 4);
    LowBit(h, 2);
  }

  lemma {:induction false} LowBit(x: int, m: int)
    requires m == 2 || m == 4
    ensures x % (2 * m) == x % 2 + 2 * (x / 2 % m)
  {
    var y := x / 2;
    RemainderIs(x, 2 * m, y / m, x % 2 + 2 * (y % m));
  }

  /** The permission bits that a sibling's pages get. */
  function SharingCode(flags: int): int {
    if Access(flags) == TP_SIBLINGS_NOACCESS then 1 else if Access(flags) == TP_SIBLINGS_RDONLY then 5 else 7
  }

  function PageCount(a: Area): int { a.length / PAGE_SIZE }

  function PagePath(a: Area, k: int): Path { PathOf(a.start + k * PAGE_SIZE) }

  predicate Covers(a: Area, addr: int) { a.owned && a.start <= addr < a.start + a.length }

  predicate WellShaped(threads: seq<Thread>) {
    |threads| == MAX_THREADS && forall t :: 0 <= t < |threads| ==> |threads[t].areas| == MAX_PRIVATE_AREAS
  }

  // ----- the fault decision -----

  function FirstArea(areas: seq<Area>, addr: int): (j: nat)
    ensures j <= |areas|
    ensures j < |areas| ==> Covers(areas[j], addr)
    ensures forall i :: 0 <= i < j ==> !Covers(areas[i], addr)
  {
    if areas == [] || Covers(areas[0], addr) then 0 else 1 + FirstArea(areas[1..], addr)
  }

  /** The search for the owner gives up at the first unused thread slot. */
  function FindOwner(threads: seq<Thread>, addr: int): Option<(nat, nat)> {
    if threads == [] || !threads[0].used then None
    else
      var j := FirstArea(threads[0].areas, addr);
      if j < |threads[0].areas| then Some((0, j))
      else
        var rest :- FindOwner(threads[1..], addr);
        Some((rest.0 + 1, rest.1))
  }

  datatype Verdict = NotPrivate | Killed | Granted

  /** `isOwner` holds for the owning thread and for the process itself; bit 0 of the error code is the present bit. */
  function Judge(a: Area, isOwner: bool, errorCode: nat): Verdict {
    if isOwner then Granted
    else if Access(a.flags) == TP_SIBLINGS_NOACCESS then Killed
    else if Access(a.flags) == TP_SIBLINGS_RDONLY && errorCode % 2 == 1 then Killed
    else Granted
  }

  /** The rule of the specification: siblings may not write a read-only area; bit 1 is the write bit. */
  function JudgeAsSpecified(a: Area, isOwner: bool, errorCode: nat): Verdict {
    if isOwner then Granted
    else if Access(a.flags) == TP_SIBLINGS_NOACCESS then Killed
    else if Access(a.flags) == TP_SIBLINGS_RDONLY && errorCode / 2 % 2 == 1 then Killed
    else Granted
  }

  /**
   The handler tests the present bit where it means the write bit, so it follows the rule exactly when the
   area is not read-only for a sibling or both bits agree.
   */
  lemma {:induction false} JudgementFollowsRuleIff(a: Area, isOwner: bool, errorCode: nat)
    ensures Judge(a, isOwner, errorCode) == JudgeAsSpecified(a, isOwner, errorCode) <==>
            isOwner || Access(a.flags) != TP_SIBLINGS_RDONLY || errorCode % 2 == errorCode / 2 % 2
  {
    assert errorCode / 2 % 2 == 0 || errorCode / 2 % 2 == 1;
  }

  predicate OwnsAt(th: Thread, addr: int) { exists j :: 0 <= j < |th.areas| && Covers(th.areas[j], addr) }

  /** The search finds an owner exactly if a used thread owns the address and no slot in front of it is unused. */
  lemma {:induction false} OwnerFoundIff(threads: seq<Thread>, addr: int)
    ensures FindOwner(threads, addr).Some? <==>
            exists t :: 0 <= t < |threads| && OwnsAt(threads[t], addr) && forall s :: 0 <= s <= t ==> threads[s].used
    decreases |threads|
  {
    if threads != [] && threads[0].used {
      var rest := threads[1..];
      assert forall s :: 0 < s < |threads| ==> threads[s] == rest[s - 1];
      OwnerFoundIff(rest, addr);
      if FirstArea(threads[0].areas, addr) < |threads[0].areas| {
        assert OwnsAt(threads[0], addr);
      }
      if t :| 0 <= t < |threads| && OwnsAt(threads[t], addr) && forall s :: 0 <= s <= t ==> threads[s].used {
        if t > 0 { assert OwnsAt(rest[t - 1], addr) && forall s :: 0 <= s <= t - 1 ==> rest[s].used; }
      }
      if t :| 0 <= t < |rest| && OwnsAt(rest[t], addr) && forall s :: 0 <= s <= t ==> rest[s].used {
        assert OwnsAt(threads[t + 1], addr) && forall s :: 0 <= s <= t + 1 ==> threads[s].used;
      }
    }
  }

  /**
   The search as the handler runs it. If the first slot is unused the area's index is never set, and the code
   goes on with whatever it holds, which is `unset`.
   */
  function Search(threads: seq<Thread>, addr: int, unset: nat): Option<(nat, nat)>
    requires threads != []
  {
    if threads[0].used then FindOwner(threads, addr) else if unset == MAX_PRIVATE_AREAS then None else Some((0, unset))
  }

  /** The search depends on the unset index exactly if the first slot is unused and the index is not the bound. */
  lemma {:induction false} SearchIsOwnerIff(threads: seq<Thread>, addr: int, unset: nat)
    requires threads != []
    ensures Search(threads, addr, unset) == FindOwner(threads, addr) <==> threads[0].used || unset == MAX_PRIVATE_AREAS
  {
  }

  /** The handler's verdict for a fault of the context `current` of the process `process`. */
  function FaultVerdict(
      threads: seq<Thread>, current: Word32, process: Word32, addr: int, errorCode: nat, unset: nat): Verdict
    requires WellShaped(threads) && (threads[0].used || unset <= MAX_PRIVATE_AREAS)
  {
    SearchInTable(threads, addr, unset);
    match Search(threads, addr, unset)
    case None => NotPrivate
    case Some(x) => Judge(threads[x.0].areas[x.1], threads[x.0].pid == current || process == current, errorCode)
  }

  lemma {:induction false} SearchInTable(threads: seq<Thread>, addr: int, unset: nat)
    requires WellShaped(threads) && (threads[0].used || unset <= MAX_PRIVATE_AREAS)
    ensures Search(threads, addr, unset).Some? ==>
              Search(threads, addr, unset).value.0 < |threads|
                  && Search(threads, addr, unset).value.1 < MAX_PRIVATE_AREAS
  {
    OwnerInTable(threads, addr);
  }

  lemma {:induction false} OwnerInTable(threads: seq<Thread>, addr: int)
    requires forall t :: 0 <= t < |threads| ==> |threads[t].areas| == MAX_PRIVATE_AREAS
    ensures FindOwner(threads, addr).Some? ==>
            FindOwner(threads, addr).value.0 < |threads| && FindOwner(threads, addr).value.1 < MAX_PRIVATE_AREAS
    decreases |threads|
  {
    if threads != [] { OwnerInTable(threads[1..], addr); }
  }

  // ----- rewriting the leaves of an area -----

  /** One page of do_page_walk: a present leaf keeps its frame and gets new flags. */
  function Recode(mem: Frames, root: int, p: Path, code: int): Frames
    requires Translate(mem, root, p).Some? && LeafTable(mem, root, p).value in mem
    requires 0 <= p.i4 < |mem[LeafTable(mem, root, p).value]|
  {
    SetEntry(mem, LeafTable(mem, root, p).value, p.i4, MakeEntry(Pfn(Translate(mem, root, p).value), code))
  }

  /** The walk changes pages `k` to the end of the area, up to the first unmapped one. */
  ghost function WalkFrom(mem: Frames, root: int, level: map<int, int>, a: Area, k: int, code: int): Frames
    requires Tree(mem, root, level) && code % 2 == 1 && 0 <= code < PAGE_SIZE && 0 <= a.start && 0 <= k
    decreases PageCount(a) - k
  {
    if k >= PageCount(a) || Translate(mem, root, PagePath(a, k)).None? then mem
    else
      RecodeOne(mem, root, level, PagePath(a, k), code, PagePath(a, k));
      WalkFrom(Recode(mem, root, PagePath(a, k), code), root, level, a, k + 1, code)
  }

  lemma {:induction false} RecodeOne(mem: Frames, root: int, level: map<int, int>, p: Path, code: int, q: Path)
    requires Tree(mem, root, level) && code % 2 == 1 && 0 <= code < PAGE_SIZE
    requires Translate(mem, root, p).Some? && ValidPath(p)
    ensures LeafTable(mem, root, p).value in mem && p.i4 < |mem[LeafTable(mem, root, p).value]|
    ensures var after := Recode(mem, root, p, code);
            && Tree(after, root, level)
            && Translate(after, root, q) ==
               (if q == p then Some(MakeEntry(Pfn(Translate(mem, root, p).value), code)) else Translate(mem, root, q))
  {
    var e := MakeEntry(Pfn(Translate(mem, root, p).value), code);
    EntryDecodes(Pfn(Translate(mem, root, p).value), code);
    LeafWrite(mem, root, level, p, e, q);
  }

  /** Leaf frame numbers have at most 20 bits, so that rewriting a leaf keeps its frame. */
  ghost predicate Bounded(mem: Frames, root: int) {
    forall p :: Translate(mem, root, p).Some? ==> 0 <= Translate(mem, root, p).value / PAGE_SIZE < MAX_PFN
  }

  /** Exactly the same pages are mapped, to the same frames. */
  ghost predicate SameFrames(mem: Frames, after: Frames, root: int) {
    forall p :: if Translate(mem, root, p).Some?
                then Translate(after, root, p).Some?
                    && Pfn(Translate(after, root, p).value) == Pfn(Translate(mem, root, p).value)
                else Translate(after, root, p).None?
  }

  /** The mapped pages of the area come before its unmapped ones. */
  ghost predicate PopulatedInOrder(mem: Frames, root: int, a: Area) {
    forall k, l :: 0 <= k < l < PageCount(a) && Translate(mem, root, PagePath(a, l)).Some? ==>
      Translate(mem, root, PagePath(a, k)).Some?
  }

  /** The present, write and user bits of an entry. */
  function Permissions(e: int): int { e % 8 }

  /** All mapped pages of the area have these permission bits; the processor may have set others. */
  ghost predicate HasCode(mem: Frames, root: int, a: Area, code: int) {
    forall k :: 0 <= k < PageCount(a) && Translate(mem, root, PagePath(a, k)).Some? ==>
      Permissions(Translate(mem, root, PagePath(a, k)).value) == code
  }

  /** The area consists of pages of the 48-bit address space. */
  predicate InRange(a: Area) {
    && 0 <= a.start && 0 <= a.length && a.start % PAGE_SIZE == 0 && a.length % PAGE_SIZE == 0
    && a.start + a.length <= 0x1_0000_0000_0000
  }

  ghost predicate Disjoint(a: Area, b: Area) {
    a.start + a.length <= b.start || b.start + b.length <= a.start
  }

  lemma {:induction false} PageNumber(a: Area, k: int)
    requires InRange(a) && 0 <= k < PageCount(a)
    ensures (a.start + k * PAGE_SIZE) / PAGE_SIZE % 0x10_0000_0000 == a.start / PAGE_SIZE + k
  {
    var s := a.start / PAGE_SIZE;
    assert a.start + k * PAGE_SIZE == (s + k) * PAGE_SIZE;
    assert (s + k) * PAGE_SIZE / PAGE_SIZE == s + k;
    assert (s + PageCount(a)) * PAGE_SIZE <= 0x10_0000_0000 * PAGE_SIZE;
  }

  lemma {:induction false} PagesOfPaths(a: Area, k: int, b: Area, l: int)
    requires InRange(a) && InRange(b) && 0 <= k < PageCount(a) && 0 <= l < PageCount(b)
    requires PagePath(a, k) == PagePath(b, l)
    ensures a.start / PAGE_SIZE + k == b.start / PAGE_SIZE + l
  {
    hide PathOf;
    SamePathIffSamePage(a.start + k * PAGE_SIZE, b.start + l * PAGE_SIZE);
    PageNumber(a, k);
    PageNumber(b, l);
  }

  /** A page belongs to one area only, and once. */
  lemma {:induction false} PagePathsDistinct(a: Area, k: int, b: Area, l: int)
    requires InRange(a) && InRange(b) && 0 <= k < PageCount(a) && 0 <= l < PageCount(b)
    requires (a == b && k != l) || Disjoint(a, b)
    ensures PagePath(a, k) != PagePath(b, l)
  {
    if PagePath(a, k) == PagePath(b, l) {
      PagesOfPaths(a, k, b, l);
      assert false;
    }
  }

  lemma {:induction false} RecodeKeeps(mem: Frames, root: int, level: map<int, int>, p: Path, code: int)
    requires Tree(mem, root, level) && Bounded(mem, root) && code % 2 == 1 && 0 <= code < PAGE_SIZE
    requires Translate(mem, root, p).Some? && ValidPath(p)
    ensures LeafTable(mem, root, p).value in mem && p.i4 < |mem[LeafTable(mem, root, p).value]|
    ensures var after := Recode(mem, root, p, code);
            && Tree(after, root, level) && Bounded(after, root) && SameFrames(mem, after, root)
            && (forall q :: q != p ==> Translate(after, root, q) == Translate(mem, root, q))
            && Translate(after, root, p).Some? && Flags(Translate(after, root, p).value) == code
  {
    RecodeOne(mem, root, level, p, code, p);
    var after := Recode(mem, root, p, code);
    var e := Translate(mem, root, p).value;
    hide Tree, Recode, Translate, LeafTable;
    forall q ensures Translate(after, root, q) == if q == p
        then Some(MakeEntry(Pfn(e), code)) else Translate(mem, root, q) {
      RecodeOne(mem, root, level, p, code, q);
    }
    EntryDecodes(Pfn(e), code);
    assert Pfn(e) == e / PAGE_SIZE;
    assert MakeEntry(Pfn(e), code) / PAGE_SIZE == Pfn(e);
  }

  ghost predicate Walkable(mem: Frames, root: int, level: map<int, int>, a: Area, code: int) {
    Tree(mem, root, level) && Bounded(mem, root) && InRange(a) && code % 2 == 1 && 0 <= code < PAGE_SIZE
  }

  /** One page of the walk. */
  lemma {:induction false} WalkStep(mem: Frames, root: int, level: map<int, int>, a: Area, k: int, code: int)
    requires Walkable(mem, root, level, a, code)
    requires 0 <= k < PageCount(a) && Translate(mem, root, PagePath(a, k)).Some?
    ensures var p := PagePath(a, k);
            && LeafTable(mem, root, p).value in mem && 0 <= p.i4 < |mem[LeafTable(mem, root, p).value]|
            && var next := Recode(mem, root, p, code);
            && Walkable(next, root, level, a, code) && SameFrames(mem, next, root)
            && WalkFrom(mem, root, level, a, k, code) == WalkFrom(next, root, level, a, k + 1, code)
            && (forall q :: q != p ==> Translate(next, root, q) == Translate(mem, root, q))
            && Translate(next, root, p).Some? && Flags(Translate(next, root, p).value) == code
  {
    PathIsValid(a.start + k * PAGE_SIZE);
    RecodeKeeps(mem, root, level, PagePath(a, k), code);
  }

  lemma {:induction false} WalkStops(mem: Frames, root: int, level: map<int, int>, a: Area, k: int, code: int)
    requires Walkable(mem, root, level, a, code) && 0 <= k
    requires k >= PageCount(a) || Translate(mem, root, PagePath(a, k)).None?
    ensures WalkFrom(mem, root, level, a, k, code) == mem
  {
  }

  lemma {:induction false} DistinctFromLater(mem: Frames, root: int, level: map<int, int>, a: Area, k: int, code: int)
    requires Walkable(mem, root, level, a, code) && 0 <= k < PageCount(a)
    ensures forall i :: k < i < PageCount(a) ==> PagePath(a, i) != PagePath(a, k)
  {
    forall i | k < i < PageCount(a) ensures PagePath(a, i) != PagePath(a, k) { PagePathsDistinct(a, i, a, k); }
  }

  /** A walk keeps the tree and the frame of every page. */
  lemma {:induction false} WalkKeepsFrames(mem: Frames, root: int, level: map<int, int>, a: Area, k: int, code: int)
    requires Walkable(mem, root, level, a, code) && 0 <= k
    ensures var after := WalkFrom(mem, root, level, a, k, code);
            Walkable(after, root, level, a, code) && SameFrames(mem, after, root)
    decreases PageCount(a) - k
  {
    hide Walkable, PagePath, PageCount, Recode, WalkFrom, Translate, Tree, LeafTable;
    if k < PageCount(a) && Translate(mem, root, PagePath(a, k)).Some? {
      WalkStep(mem, root, level, a, k, code);
      WalkKeepsFrames(Recode(mem, root, PagePath(a, k), code), root, level, a, k + 1, code);
    } else {
      WalkStops(mem, root, level, a, k, code);
    }
  }

  /** A walk leaves every page outside its area alone. */
  lemma {:induction false} WalkSparesOthers(
      mem: Frames, root: int, level: map<int, int>, a: Area, k: int, code: int, q: Path)
    requires Walkable(mem, root, level, a, code) && 0 <= k
    requires forall j :: k <= j < PageCount(a) ==> PagePath(a, j) != q
    ensures Translate(WalkFrom(mem, root, level, a, k, code), root, q) == Translate(mem, root, q)
    decreases PageCount(a) - k
  {
    hide Walkable, PagePath, PageCount, Recode, WalkFrom, Translate, Tree, LeafTable;
    if k < PageCount(a) && Translate(mem, root, PagePath(a, k)).Some? {
      WalkStep(mem, root, level, a, k, code);
      WalkSparesOthers(Recode(mem, root, PagePath(a, k), code), root, level, a, k + 1, code, q);
    } else {
      WalkStops(mem, root, level, a, k, code);
    }
  }

  /** A walk gives page `j` the new bits exactly if all pages from `k` to `j` are mapped. */
  lemma {:induction false} WalkRecodes(mem: Frames, root: int, level: map<int, int>, a: Area, k: int, code: int, j: int)
    requires Walkable(mem, root, level, a, code) && 0 <= k <= j < PageCount(a)
    ensures var after := WalkFrom(mem, root, level, a, k, code);
            if forall i :: k <= i <= j ==> Translate(mem, root, PagePath(a, i)).Some?
            then Translate(after, root, PagePath(a, j)).Some?
                && Flags(Translate(after, root, PagePath(a, j)).value) == code
            else Translate(after, root, PagePath(a, j)) == Translate(mem, root, PagePath(a, j))
    decreases PageCount(a) - k
  {
    hide Walkable, PagePath, PageCount, Recode, WalkFrom, Translate, Tree, LeafTable;
    if Translate(mem, root, PagePath(a, k)).Some? {
      WalkStep(mem, root, level, a, k, code);
      DistinctFromLater(mem, root, level, a, k, code);
      var next := Recode(mem, root, PagePath(a, k), code);
      if j == k {
        WalkSparesOthers(next, root, level, a, k + 1, code, PagePath(a, k));
      } else {
        WalkRecodes(next, root, level, a, k + 1, code, j);
      }
    } else {
      WalkStops(mem, root, level, a, k, code);
    }
  }

  /** An area populated in order has the new bits throughout after a walk. */
  lemma {:induction false} WalkSetsCode(mem: Frames, root: int, level: map<int, int>, a: Area, code: int)
    requires Walkable(mem, root, level, a, code) && PopulatedInOrder(mem, root, a) && code < 8
    ensures HasCode(WalkFrom(mem, root, level, a, 0, code), root, a, code)
  {
    hide PagePath, PageCount, WalkFrom, Translate, Flags, Permissions, Tree, LeafTable, Pfn;
    WalkKeepsFrames(mem, root, level, a, 0, code);
    var after := WalkFrom(mem, root, level, a, 0, code);
    forall j | 0 <= j < PageCount(a) && Translate(after, root, PagePath(a, j)).Some?
      ensures Permissions(Translate(after, root, PagePath(a, j)).value) == code
    {
      WalkRecodes(mem, root, level, a, 0, code, j);
      PermissionsOfFlags(Translate(after, root, PagePath(a, j)).value);
    }
  }

  lemma {:induction false} PermissionsOfFlags(e: int)
    ensures Permissions(e) == Flags(e) % 8
  {
    var q, r := e / PAGE_SIZE, e % PAGE_SIZE;
    assert e == PAGE_SIZE * q + r;
    assert e == 8 * (512 * q + r / 8) + r % 8;
    RemainderIs(e, 8, 512 * q + r / 8, r % 8);
  }

  lemma {:induction false} PathIsValid(addr: int)
    ensures ValidPath(PathOf(addr))
  {
  }
}
