/**
 4-level paging (Intel SDM Volume 3A, section 4.5) as the thread-private handlers use it: page-table
 frames of 512 words, the walk that installs missing tables, and the leaf rewrite of a permission change.
 */
module PageTables {
  import opened Kernel

  const ENTRIES: int := 512
  const PAGE_SIZE: int := 4096
  const MAX_PFN: int := 0x100000

  /** The words of every page-table frame, by frame number. */
  type Frames = map<int, seq<int>>

  // ----- entries -----

  predicate Present(e: int) { e % 2 == 1 }

  /** `entry >> PTE_SHIFT` kept in a u32. */
  function Pfn(e: int): Word32 { AsU32(e / PAGE_SIZE) }

  function Flags(e: int): int { e % PAGE_SIZE }

  /** `(pfn << PTE_SHIFT) | flags`: the shift is done in 32 bits, and the flags fit below it. */
  function MakeEntry(pfn: Word32, flags: int): int { AsU32(pfn * PAGE_SIZE) + flags }

  /** An entry gives its frame number back exactly when the number has at most 20 bits. */
  lemma {:induction false} EntryDecodes(pfn: Word32, flags: int)
    requires 0 <= flags < PAGE_SIZE && flags % 2 == 1
    ensures Present(MakeEntry(pfn, flags)) && Flags(MakeEntry(pfn, flags)) == flags
    ensures Pfn(MakeEntry(pfn, flags)) == pfn <==> pfn < MAX_PFN
  {
    var low := pfn % MAX_PFN;
    assert pfn * PAGE_SIZE == (pfn / MAX_PFN) * U32_RANGE + low * PAGE_SIZE;
    assert AsU32(pfn * PAGE_SIZE) == low * PAGE_SIZE;
    assert (low * PAGE_SIZE + flags) / PAGE_SIZE == low;
  }

  // ----- index splitting -----

  /** The four 9-bit table indices of an address. */
  datatype Path = Path(i1: int, i2: int, i3: int, i4: int)

  function PathOf(addr: int): Path {
    Path(addr / 0x80_0000_0000 % ENTRIES, addr / 0x4000_0000 % ENTRIES, addr / 0x20_0000 % ENTRIES,
        addr / 0x1000 % ENTRIES)
  }

  ghost predicate ValidPath(p: Path) {
    0 <= p.i1 < ENTRIES && 0 <= p.i2 < ENTRIES && 0 <= p.i3 < ENTRIES && 0 <= p.i4 < ENTRIES
  }

  lemma {:induction false} SplitNine(x: int, y: int, m: int)
    requires m > 0
    ensures x % (ENTRIES * m) == y % (ENTRIES * m) <==> x % ENTRIES == y % ENTRIES && x / ENTRIES % m == y / ENTRIES % m
  {
    Digits(x, m);
    Digits(y, m);
  }

  lemma {:induction false} Digits(x: int, m: int)
    requires m > 0
    ensures x % (ENTRIES * m) == ENTRIES * (x / ENTRIES % m) + x % ENTRIES
    ensures 0 <= x % ENTRIES < ENTRIES
  {
    var q, r := x / ENTRIES, x % ENTRIES;
    var qq, qr := q / m, q % m;
    assert q == m * qq + qr;
    assert x == ENTRIES * m * qq + (ENTRIES * qr + r) by {
      assert ENTRIES * q == ENTRIES * (m * qq + qr) == ENTRIES * m * qq + ENTRIES * qr;
    }
    assert 0 <= ENTRIES * qr + r < ENTRIES * m;
    RemainderIs(x, ENTRIES * m, qq, ENTRIES * qr + r);
  }

  lemma {:induction false} Multiples(d: int, k: int)
    requires d > 0
    ensures 1 <= k ==> d <= d * k
    ensures k <= -1 ==> d * k <= -d
  {
  }

  lemma {:induction false} RemainderIs(x: int, d: int, q: int, r: int)
    requires d > 0 && x == d * q + r && 0 <= r < d
    ensures x % d == r
  {
    var q', r' := x / d, x % d;
    assert x == d * q' + r';
    assert d * (q - q') == r' - r;
    Multiples(d, q - q');
  }

  /** Two addresses have the same four indices exactly when bits 12 to 47 agree. */
  lemma {:induction false} SamePathIffSamePage(a: int, b: int)
    requires 0 <= a && 0 <= b
    ensures PathOf(a) == PathOf(b) <==> a / PAGE_SIZE % 0x10_0000_0000 == b / PAGE_SIZE % 0x10_0000_0000
    ensures ValidPath(PathOf(a))
  {
    var x, y := a / PAGE_SIZE, b / PAGE_SIZE;
    assert a / 0x20_0000 == x / 512 && a / 0x4000_0000 == x / 512 / 512 && a / 0x80_0000_0000 == x / 512 / 512 / 512;
    assert b / 0x20_0000 == y / 512 && b / 0x4000_0000 == y / 512 / 512 && b / 0x80_0000_0000 == y / 512 / 512 / 512;
    SplitNine(x, y, 0x800_0000);
    SplitNine(x / 512, y / 512, 0x4_0000);
    SplitNine(x / 512 / 512, y / 512 / 512, 512);
  }

  /** The indices are the nine-bit digits of the page number, the first one on top. */
  lemma {:induction false} PathIsPageNumber(a: int)
    requires 0 <= a
    ensures var p := PathOf(a);
            ((p.i1 * ENTRIES + p.i2) * ENTRIES + p.i3) * ENTRIES + p.i4 == a / PAGE_SIZE % 0x10_0000_0000
  {
    var x := a / PAGE_SIZE;
    assert a / 0x20_0000 == x / 512 && a / 0x4000_0000 == x / 512 / 512 && a / 0x80_0000_0000 == x / 512 / 512 / 512;
    Digits(x, 0x800_0000);
    Digits(x / 512, 0x4_0000);
    Digits(x / 512 / 512, 512);
  }

  // ----- the tree -----

  function Entry(mem: Frames, f: int, i: int): int {
    if f in mem && 0 <= i < |mem[f]| then mem[f][i] else 0
  }

  function SetEntry(mem: Frames, f: int, i: int, e: int): Frames
    requires f in mem && 0 <= i < |mem[f]|
  {
    mem[f := mem[f][i := e]]
  }

  function Child(mem: Frames, f: int, i: int): Option<int> {
    if Present(Entry(mem, f, i)) then Some(Pfn(Entry(mem, f, i))) else None
  }

  /** The last-level table of a path, if all three tables above it are present. */
  function LeafTable(mem: Frames, root: int, p: Path): Option<int> {
    var l2 :- Child(mem, root, p.i1);
    var l3 :- Child(mem, l2, p.i2);
    Child(mem, l3, p.i3)
  }

  /** What the processor's walk finds: the leaf entry, if present. */
  function Translate(mem: Frames, root: int, p: Path): Option<int> {
    var l4 :- LeafTable(mem, root, p);
    if Present(Entry(mem, l4, p.i4)) then Some(Entry(mem, l4, p.i4)) else None
  }

  ghost predicate IsUpperTable(level: map<int, int>, f: int) { f in level && level[f] < 4 }

  /** Every present entry of an upper table leads to a table one level down. */
  ghost predicate Descends(mem: Frames, level: map<int, int>) {
    forall f, i :: IsUpperTable(level, f) && Child(mem, f, i).Some? ==>
      Child(mem, f, i).value in level && level[Child(mem, f, i).value] == level[f] + 1
  }

  /** No two entries lead to the same table. */
  ghost predicate Unshared(mem: Frames, level: map<int, int>) {
    forall f, i, g, j :: IsUpperTable(level, f) && IsUpperTable(level, g)
        && Child(mem, f, i).Some? && Child(mem, f, i) == Child(mem, g, j)
      ==> f == g && i == j
  }

  /** The table frames form a tree below the root, with known levels. */
  ghost predicate Tree(mem: Frames, root: int, level: map<int, int>) {
    && root in level && level[root] == 1
    && (forall f :: f in level ==> f in mem && |mem[f]| == ENTRIES && 1 <= level[f] <= 4)
    && Descends(mem, level) && Unshared(mem, level)
  }

  /** A walk stays inside the tree, one level per step. */
  lemma {:induction false} LeafTableInTree(mem: Frames, root: int, level: map<int, int>, p: Path)
    requires Tree(mem, root, level) && LeafTable(mem, root, p).Some?
    ensures var l4 := LeafTable(mem, root, p).value; l4 in level && level[l4] == 4
  {
    hide Present, Pfn;
    var l2 := Child(mem, root, p.i1).value;
    var l3 := Child(mem, l2, p.i2).value;
    assert level[l2] == 2 && level[l3] == 3;
  }

  /** Since no table is shared, the last-level table determines the upper three indices. */
  lemma {:induction false} LeafTableOfOnePath(mem: Frames, root: int, level: map<int, int>, p: Path, q: Path)
    requires Tree(mem, root, level)
    requires LeafTable(mem, root, p).Some? && LeafTable(mem, root, p) == LeafTable(mem, root, q)
    ensures p.i1 == q.i1 && p.i2 == q.i2 && p.i3 == q.i3
  {
    hide Present, Pfn;
    var l2, m2 := Child(mem, root, p.i1).value, Child(mem, root, q.i1).value;
    var l3, m3 := Child(mem, l2, p.i2).value, Child(mem, m2, q.i2).value;
    assert level[l2] == 2 && level[l3] == 3 && level[m2] == 2 && level[m3] == 3;
  }

  /** What the page-table allocator hands out. */
  function ZeroFrame(): (frame: seq<int>)
    ensures |frame| == ENTRIES && forall i :: 0 <= i < |frame| ==> frame[i] == 0
  {
    seq(512, _ => 0)
  }

  /** A new, zeroed table hung below entry `i` of `f`. */
  function Hang(mem: Frames, f: int, i: int, pfn: Word32): Frames
    requires f in mem && 0 <= i < |mem[f]|
  {
    SetEntry(mem, f, i, MakeEntry(pfn, 7))[pfn := ZeroFrame()]
  }

  lemma {:induction false} HangEntries(mem: Frames, f: int, i: int, pfn: Word32)
    requires f in mem && 0 <= i < |mem[f]| && pfn !in mem && pfn < MAX_PFN
    ensures var after := Hang(mem, f, i, pfn);
            && (forall g, j :: Entry(after, g, j) == if g == f && j == i then MakeEntry(pfn, 7) else Entry(mem, g, j))
            && (forall g, j :: Child(after, g, j) == if g == f && j == i then Some(pfn) else Child(mem, g, j))
            && (forall j :: Entry(after, pfn, j) == 0 && Child(after, pfn, j) == None)
            && (forall g :: g in mem ==> g in after && |after[g]| == |mem[g]|)
            && pfn in after && |after[pfn]| == ENTRIES
  {
    EntryDecodes(pfn, 7);
  }

  /** Hanging an empty table keeps the tree. */
  lemma {:induction false} HangKeepsTree(mem: Frames, root: int, level: map<int, int>, f: int, i: int, pfn: Word32)
    requires Tree(mem, root, level) && f in level && level[f] < 4 && 0 <= i < ENTRIES
    requires !Present(Entry(mem, f, i)) && pfn !in mem && pfn < MAX_PFN
    ensures Tree(Hang(mem, f, i, pfn), root, level[pfn := level[f] + 1])
    ensures Child(Hang(mem, f, i, pfn), f, i) == Some(pfn)
  {
    HangEntries(mem, f, i, pfn);
    assert Child(mem, f, i) == None;
    hide Hang, Entry, Child, Present;
    assert IsUpperTable(level, f);
    forall g, j | IsUpperTable(level[pfn := level[f] + 1], g) && Child(Hang(mem, f, i, pfn), g, j).Some?
      ensures (g == f && j == i) || (IsUpperTable(level, g) && Child(mem, g, j).Some? && Child(mem, g, j).value != pfn)
    {
      if !(g == f && j == i) {
        assert IsUpperTable(level, g) && Child(mem, g, j).value in level;
      }
    }
  }

  /** An empty table changes no translation: what was unmapped below entry `i` still is. */
  lemma {:induction false} HangKeepsTranslations(
      mem: Frames, root: int, level: map<int, int>, f: int, i: int, pfn: Word32, p: Path)
    requires Tree(mem, root, level) && f in level && level[f] < 4 && 0 <= i < ENTRIES
    requires !Present(Entry(mem, f, i)) && pfn !in mem && pfn < MAX_PFN
    ensures Translate(Hang(mem, f, i, pfn), root, p) == Translate(mem, root, p)
  {
    HangEntries(mem, f, i, pfn);
    assert Child(mem, f, i) == None;
    hide Hang, Entry, Child, Pfn;
  }

  /** Writing one leaf changes the translation of its own path only, and keeps the tree. */
  lemma {:induction false} LeafWrite(mem: Frames, root: int, level: map<int, int>, p: Path, e: int, q: Path)
    requires Tree(mem, root, level) && ValidPath(p) && LeafTable(mem, root, p).Some? && Present(e)
    ensures var f := LeafTable(mem, root, p).value;
            && f in mem && p.i4 < |mem[f]|
            && var after := SetEntry(mem, f, p.i4, e);
            && Tree(after, root, level)
            && LeafTable(after, root, q) == LeafTable(mem, root, q)
            && Translate(after, root, q) == (if q == p then Some(e) else Translate(mem, root, q))
  {
    LeafTableInTree(mem, root, level, p);
    var f := LeafTable(mem, root, p).value;
    var after := SetEntry(mem, f, p.i4, e);
    assert forall g, j :: Entry(after, g, j) == if g == f && j == p.i4 then e else Entry(mem, g, j);
    hide Present, Pfn, Entry, SetEntry;
    assert forall g, j :: g in level && level[g] < 4 ==> Child(after, g, j) == Child(mem, g, j);
    LeafTableAgrees(mem, after, root, level, q);
    if LeafTable(mem, root, q) == Some(f) {
      LeafTableOfOnePath(mem, root, level, p, q);
    }
  }

  lemma {:induction false} LeafTableAgrees(mem: Frames, after: Frames, root: int, level: map<int, int>, q: Path)
    requires Tree(mem, root, level)
    requires forall g, j :: g in level && level[g] < 4 ==> Child(after, g, j) == Child(mem, g, j)
    ensures LeafTable(after, root, q) == LeafTable(mem, root, q)
  {
    hide Present, Pfn;
    if Child(mem, root, q.i1).Some? {
      var l2 := Child(mem, root, q.i1).value;
      assert level[l2] == 2;
      if Child(mem, l2, q.i2).Some? {
        assert level[Child(mem, l2, q.i2).value] == 3;
      }
    }
  }
}
