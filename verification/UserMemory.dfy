/** The check of the caller's buffer in front of a pipe transfer. */
module UserMemory {
  import opened Kernel

  const MM_SEG_STACK: nat := 3
  const MAX_MM_SEGS: nat := 4

  type Word64 = w: int | 0 <= w < 0x1_0000_0000_0000_0000

  datatype Segment = Segment(start: Word64, end: Word64, nextFree: Word64, flags: nat)

  /** The linked list of areas. */
  datatype VmArea = NoArea | VmArea(start: Word64, end: Word64, flags: nat, next: VmArea)

  datatype UserMap = UserMap(mms: seq<Segment>, areas: VmArea)

  /** The addresses from `start` up to, but not including, `end`. */
  datatype Span = Span(start: Word64, end: Word64, flags: nat)

  /** `flags & bit` for the read bit 1 and the write bit 2. */
  predicate Permits(flags: nat, bit: nat)
    requires bit == 1 || bit == 2
  {
    flags / bit % 2 == 1
  }

  /** `buff + count - 1` in 64 bits. */
  function LastByte(buff: Word64, count: Word32): Word64 { (buff + count - 1) % U64_RANGE }

  /** The comparison that the check makes: it admits `end` itself as the last byte. */
  predicate Admits(s: Span, buff: Word64, count: Word32) {
    s.start <= buff && LastByte(buff, count) <= s.end
  }

  /** All segments but the stack end at `next_free`. */
  function SegmentSpan(i: nat, m: Segment): Span {
    Span(m.start, if i != MM_SEG_STACK then m.nextFree else m.end, m.flags)
  }

  function AreaSpans(a: VmArea): seq<Span> {
    match a
    case NoArea => []
    case VmArea(start, end, flags, next) => [Span(start, end, flags)] + AreaSpans(next)
  }

  /** The segments, then the areas in the order of the list. */
  function Spans(m: UserMap): (spans: seq<Span>)
    ensures |spans| >= |m.mms|
  {
    seq(|m.mms|, i requires 0 <= i < |m.mms| => SegmentSpan(i, m.mms[i])) + AreaSpans(m.areas)
  }

  /** The first span that admits the range decides. */
  predicate FirstPermits(spans: seq<Span>, buff: Word64, count: Word32, bit: nat)
    requires bit == 1 || bit == 2
  {
    spans != []
    && if Admits(spans[0], buff, count)
        then Permits(spans[0].flags, bit) else FirstPermits(spans[1..], buff, count, bit)
  }

  lemma {:induction false} FirstPermitsSkips(spans: seq<Span>, i: nat, buff: Word64, count: Word32, bit: nat)
    requires (bit == 1 || bit == 2) && i <= |spans|
    requires forall j :: 0 <= j < i ==> !Admits(spans[j], buff, count)
    ensures FirstPermits(spans, buff, count, bit) == FirstPermits(spans[i..], buff, count, bit)
    decreases i
  {
    if i == 0 {
      assert spans[0..] == spans;
    } else {
      FirstPermitsSkips(spans[1..], i - 1, buff, count, bit);
      assert spans[1..][i - 1..] == spans[i..];
    }
  }

  method IsValidMemRange(m: UserMap, buff: Word64, count: Word32, bit: nat) returns (ok: bool)
    requires |m.mms| == MAX_MM_SEGS && (bit == 1 || bit == 2)
    ensures ok == FirstPermits(Spans(m), buff, count, bit)
  {
    var i := 0;
    while i < MAX_MM_SEGS
      invariant i <= MAX_MM_SEGS && forall j :: 0 <= j < i ==> !Admits(Spans(m)[j], buff, count)
    {
      FirstPermitsSkips(Spans(m), i, buff, count, bit);
      assert Spans(m)[i..][0] == Spans(m)[i] == SegmentSpan(i, m.mms[i]);
      if i != MM_SEG_STACK {
        if buff >= m.mms[i].start && LastByte(buff, count) <= m.mms[i].nextFree {
          return Permits(m.mms[i].flags, bit);
        }
      } else {
        if buff >= m.mms[i].start && LastByte(buff, count) <= m.mms[i].end {
          return Permits(m.mms[i].flags, bit);
        }
      }
      i := i + 1;
    }
    FirstPermitsSkips(Spans(m), i, buff, count, bit);
    assert Spans(m)[i..] == AreaSpans(m.areas);
    var area := m.areas;
    while area != NoArea
      invariant FirstPermits(AreaSpans(area), buff, count, bit) == FirstPermits(Spans(m), buff, count, bit)
      decreases area
    {
      if buff >= area.start && LastByte(buff, count) <= area.end {
        return Permits(area.flags, bit);
      }
      assert AreaSpans(area)[1..] == AreaSpans(area.next);
      area := area.next;
    }
    return false;
  }

  // ----- what the check means -----

  predicate InRange(a: int, buff: Word64, count: Word32) { buff <= a < buff + count }

  predicate Inside(s: Span, buff: Word64, count: Word32) { s.start <= buff && buff + count <= s.end }

  lemma {:induction false} InsideIsEveryByte(s: Span, buff: Word64, count: Word32)
    requires count > 0
    ensures Inside(s, buff, count) <==> forall a: int :: InRange(a, buff, count) ==> s.start <= a < s.end
  {
    assert InRange(buff, buff, count) && InRange(buff + count - 1, buff, count);
  }

  /** The last byte lies just behind the span, or its address wraps around to below the span's end. */
  predicate Overshoots(s: Span, buff: Word64, count: Word32) {
    s.start <= buff && if buff + count <= U64_RANGE then buff + count - 1 == s.end else LastByte(buff, count) <= s.end
  }

  /** The comparison says that all bytes are inside, exactly if the range does not overshoot. */
  lemma {:induction false} TestIsContainmentIff(s: Span, buff: Word64, count: Word32)
    requires count > 0
    ensures (Admits(s, buff, count) <==> Inside(s, buff, count)) <==> !Overshoots(s, buff, count)
    ensures Admits(s, buff, count) <==> Inside(s, buff, count) || Overshoots(s, buff, count)
  {
    if buff + count <= U64_RANGE {
      assert LastByte(buff, count) == buff + count - 1;
    }
  }

  /** No address belongs to two spans; they may be adjacent. */
  ghost predicate Separate(spans: seq<Span>) {
    forall i, j :: 0 <= i < j < |spans| ==> spans[i].end <= spans[j].start || spans[j].end <= spans[i].start
  }

  /** Some span with the permission holds every byte. */
  predicate Mapped(spans: seq<Span>, buff: Word64, count: Word32, bit: nat)
    requires bit == 1 || bit == 2
  {
    exists i :: 0 <= i < |spans| && Permits(spans[i].flags, bit) && Inside(spans[i], buff, count)
  }

  /** Span `i` is the first that admits the range, and the range overshoots it. */
  predicate DecidedByOvershoot(spans: seq<Span>, i: nat, buff: Word64, count: Word32)
    requires i < |spans|
  {
    Overshoots(spans[i], buff, count) && forall j :: 0 <= j < i ==> !Admits(spans[j], buff, count)
  }

  /** The areas of the list, in its order. */
  function AreaList(a: VmArea): seq<VmArea> {
    match a case NoArea => [] case VmArea(_, _, _, next) => [a] + AreaList(next)
  }

  lemma {:induction false} AreaSpansAre(a: VmArea)
    ensures |AreaSpans(a)| == |AreaList(a)|
    ensures forall i :: 0 <= i < |AreaList(a)| ==>
              AreaList(a)[i].VmArea?
              && AreaSpans(a)[i] == Span(AreaList(a)[i].start, AreaList(a)[i].end, AreaList(a)[i].flags)
  {
    if a != NoArea { AreaSpansAre(a.next); }
  }

  /**
   What counts as mapped: a segment from its start to its next free address, the stack to its end, and the areas of
   the list, each with its own flags.
   */
  lemma {:induction false} MappedMeans(m: UserMap, buff: Word64, count: Word32, bit: nat)
    requires |m.mms| == MAX_MM_SEGS && (bit == 1 || bit == 2)
    ensures Mapped(Spans(m), buff, count, bit) <==>
            || (exists i :: 0 <= i < 3 && SegmentHolds(m.mms[i], m.mms[i].nextFree, buff, count, bit))
            || SegmentHolds(m.mms[3], m.mms[3].end, buff, count, bit)
            || (exists a :: a in AreaList(m.areas) && AreaHolds(a, buff, count, bit))
  {
    AreaSpansAre(m.areas);
    var spans, list := Spans(m), AreaList(m.areas);
    forall i | 0 <= i < |spans| ensures Holds(spans[i], buff, count, bit) <==>
        if i < 3 then SegmentHolds(m.mms[i], m.mms[i].nextFree, buff, count, bit)
        else if i == 3 then SegmentHolds(m.mms[3], m.mms[3].end, buff, count, bit)
        else AreaHolds(list[i - MAX_MM_SEGS], buff, count, bit) {
      assert i >= MAX_MM_SEGS ==> spans[i] == AreaSpans(m.areas)[i - MAX_MM_SEGS];
    }
    MappedIsHolds(spans, buff, count, bit);
    hide Spans, AreaSpans, AreaList, Holds, Mapped, SegmentHolds, AreaHolds;
    if a :| a in list && AreaHolds(a, buff, count, bit) {
      var j :| 0 <= j < |list| && list[j] == a;
      assert Holds(spans[MAX_MM_SEGS + j], buff, count, bit);
    }
  }

  predicate Holds(s: Span, buff: Word64, count: Word32, bit: nat)
    requires bit == 1 || bit == 2
  {
    Permits(s.flags, bit) && Inside(s, buff, count)
  }

  lemma {:induction false} MappedIsHolds(spans: seq<Span>, buff: Word64, count: Word32, bit: nat)
    requires bit == 1 || bit == 2
    ensures Mapped(spans, buff, count, bit) <==> exists i :: 0 <= i < |spans| && Holds(spans[i], buff, count, bit)
  {
    if i :| 0 <= i < |spans| && Permits(spans[i].flags, bit) && Inside(spans[i], buff, count) {
      assert Holds(spans[i], buff, count, bit);
    }
    if i :| 0 <= i < |spans| && Holds(spans[i], buff, count, bit) {
      assert Permits(spans[i].flags, bit) && Inside(spans[i], buff, count);
    }
  }

  predicate SegmentHolds(s: Segment, end: Word64, buff: Word64, count: Word32, bit: nat)
    requires bit == 1 || bit == 2
  {
    s.start <= buff && buff + count <= end && s.flags / bit % 2 == 1
  }

  predicate AreaHolds(a: VmArea, buff: Word64, count: Word32, bit: nat)
    requires bit == 1 || bit == 2
  {
    a.VmArea? && a.start <= buff && buff + count <= a.end && a.flags / bit % 2 == 1
  }

  lemma {:induction false} FirstAdmitting(spans: seq<Span>, buff: Word64, count: Word32, bit: nat) returns (i: nat)
    requires bit == 1 || bit == 2
    ensures i <= |spans| && forall j :: 0 <= j < i ==> !Admits(spans[j], buff, count)
    ensures i < |spans| ==> Admits(spans[i], buff, count)
    ensures FirstPermits(spans, buff, count, bit) <==> i < |spans| && Permits(spans[i].flags, bit)
    decreases |spans|
  {
    if spans == [] || Admits(spans[0], buff, count) {
      i := 0;
    } else {
      i := FirstAdmitting(spans[1..], buff, count, bit);
      assert forall j :: 0 <= j < |spans| - 1 ==> spans[1..][j] == spans[j + 1];
      i := i + 1;
    }
  }

  lemma {:induction false} InsideOneOnly(spans: seq<Span>, i: nat, j: nat, buff: Word64, count: Word32)
    requires Separate(spans) && i < |spans| && j < |spans| && count > 0
    requires Inside(spans[i], buff, count) && Inside(spans[j], buff, count)
    ensures i == j
  {
  }

  /**
   For every range of at least one byte and every map whose spans share no address, the check gives the right
   answer if and only if no overshot span decides it, or that span's permission happens to be the right answer:
   it permits exactly if a later span with the permission holds the range.
   */
  lemma {:induction false} CheckIsRightIff(spans: seq<Span>, buff: Word64, count: Word32, bit: nat)
    requires (bit == 1 || bit == 2) && count > 0 && Separate(spans)
    ensures (FirstPermits(spans, buff, count, bit) <==> Mapped(spans, buff, count, bit)) <==>
            forall i :: 0 <= i < |spans| && DecidedByOvershoot(spans, i, buff, count) ==>
              (Permits(spans[i].flags, bit) <==>
               exists k :: i < k < |spans| && Permits(spans[k].flags, bit) && Inside(spans[k], buff, count))
  {
    hide Permits, Separate, LastByte, Overshoots, FirstPermits;
    var f := FirstAdmitting(spans, buff, count, bit);
    forall j | 0 <= j < |spans|
      ensures Admits(spans[j], buff, count) <==> Inside(spans[j], buff, count) || Overshoots(spans[j], buff, count)
    {
      TestIsContainmentIff(spans[j], buff, count);
    }
    if f < |spans| && Inside(spans[f], buff, count) {
      InsideNotOvershot(spans[f], buff, count);
      forall k | 0 <= k < |spans| && Inside(spans[k], buff, count) ensures k == f {
        InsideOneOnly(spans, k, f, buff, count);
      }
    } else if f < |spans| {
      assert DecidedByOvershoot(spans, f, buff, count);
    }
  }

  lemma {:induction false} InsideNotOvershot(s: Span, buff: Word64, count: Word32)
    requires count > 0 && Inside(s, buff, count)
    ensures !Overshoots(s, buff, count)
  {
  }

  /** A range that starts inside a span and ends one byte behind it is judged by that span, and held by none. */
  lemma {:induction false} StraddlingIsJudgedByItsSpan(spans: seq<Span>, i: nat, buff: Word64, count: Word32, bit: nat)
    requires (bit == 1 || bit == 2) && Separate(spans) && i < |spans| && buff + count <= U64_RANGE
    requires spans[i].start <= buff < spans[i].end == buff + count - 1
    ensures FirstPermits(spans, buff, count, bit) <==> Permits(spans[i].flags, bit)
    ensures !Mapped(spans, buff, count, bit)
  {
    hide Permits, FirstPermits, LastByte;
    LastByteIs(buff, count);
    var f := FirstAdmitting(spans, buff, count, bit);
    assert f < |spans| ==> spans[f].start <= buff < spans[f].end;
    assert f == i;
  }

  lemma {:induction false} LastByteIs(buff: Word64, count: Word32)
    requires count > 0 && buff + count <= U64_RANGE
    ensures LastByte(buff, count) == buff + count - 1
  {
  }

  /** One way to be wrong: a range that ends one byte behind an area is accepted, although no span holds it. */
  lemma {:induction false} ByteAtEndIsAccepted()
    ensures var spans := [Span(0x1000, 0x2000, 1)];
            Separate(spans) && FirstPermits(spans, 0x1FFF, 2, 1) && !Mapped(spans, 0x1FFF, 2, 1)
  {
    assert LastByte(0x1FFF, 2) == 0x2000;
  }

  /** The other way: the first byte of the second of two adjacent areas is judged by the first one's permission. */
  lemma {:induction false} ByteOfNextAreaIsRefused()
    ensures var spans := [Span(0x1000, 0x2000, 1), Span(0x2000, 0x3000, 2)];
            Separate(spans) && !FirstPermits(spans, 0x2000, 1, 2) && Mapped(spans, 0x2000, 1, 2)
  {
    var spans := [Span(0x1000, 0x2000, 1), Span(0x2000, 0x3000, 2)];
    assert LastByte(0x2000, 1) == 0x2000;
    assert Permits(spans[1].flags, 2) && Inside(spans[1], 0x2000, 1);
  }
}
