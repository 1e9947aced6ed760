/** The archive as bytes: a file count, then for each file a 328-byte record header and its contents. */
module ArchiveFormat {
  import opened Kernel
  import Decimal

  type Bytes = seq<Byte>

  const NAME_SIZE: nat := 20
  const DIRECTORY_SIZE: nat := 300
  const SIZE_OFFSET: nat := 320
  const HEADER_SIZE: nat := 328
  const COUNT_SIZE: nat := 4

  const INT_MAX: nat := 0x7FFF_FFFF

  /** The largest size for which the chunk loop's `totRead + 512` stays within an `int`. */
  const MAX_FILE: nat := 0x7FFF_FE00

  datatype Entry = Entry(name: Bytes, content: Bytes)

  // ----- fields -----

  /** The C string at the start of a field. */
  function CString(b: Bytes): (s: Bytes)
    ensures 0 !in s
  {
    if b == [] || b[0] == 0 then [] else [b[0]] + CString(b[1..])
  }

  /** `n` as `k` bytes, least significant first. */
  function LittleEndian(n: nat, k: nat): (b: Bytes)
    ensures |b| == k
    decreases k
  {
    if k == 0 then [] else [n % 256] + LittleEndian(n / 256, k - 1)
  }

  function FromLittleEndian(b: Bytes): nat {
    if b == [] then 0 else b[0] + 256 * FromLittleEndian(b[1..])
  }

  function Pow256(k: nat): nat { if k == 0 then 1 else 256 * Pow256(k - 1) }

  lemma {:induction false} StringReadsBack(s: Bytes, tail: Bytes)
    requires 0 !in s
    ensures CString(s + [0] + tail) == s
    decreases |s|
  {
    var b := s + [0] + tail;
    if s != [] {
      assert b[1..] == s[1..] + [0] + tail;
      StringReadsBack(s[1..], tail);
    }
  }

  lemma {:induction false} NumberReadsBack(n: nat, k: nat)
    requires n < Pow256(k)
    ensures FromLittleEndian(LittleEndian(n, k)) == n
    decreases k
  {
    if k > 0 { NumberReadsBack(n / 256, k - 1); }
  }

  lemma {:induction false} IntReadsBack(n: nat)
    requires n <= INT_MAX
    ensures FromLittleEndian(LittleEndian(n, COUNT_SIZE)) == n
  {
    assert Pow256(4) == 256 * (256 * (256 * (256 * Pow256(0))));
    NumberReadsBack(n, 4);
  }

  lemma {:induction false} LongReadsBack(n: nat)
    requires n <= MAX_FILE
    ensures FromLittleEndian(LittleEndian(n, 8)) == n
  {
    assert Pow256(4) == 256 * (256 * (256 * (256 * Pow256(0))));
    assert Pow256(8) == 256 * (256 * (256 * (256 * Pow256(4))));
    NumberReadsBack(n, 8);
  }

  // ----- records -----

  /** A header whose name ends within its field and whose size `read512` can handle. */
  predicate GoodHeader(h: Bytes) {
    |h| == HEADER_SIZE && 0 in h[..NAME_SIZE] && FromLittleEndian(h[SIZE_OFFSET..]) <= MAX_FILE
  }

  function NameIn(h: Bytes): Bytes
    requires GoodHeader(h)
  {
    CString(h[..NAME_SIZE])
  }

  function SizeIn(h: Bytes): (n: nat)
    requires GoodHeader(h)
    ensures n <= MAX_FILE
  {
    FromLittleEndian(h[SIZE_OFFSET..])
  }

  /** The bytes are whole records, one behind the other. */
  predicate Records(b: Bytes)
    decreases |b|
  {
    b == [] || (
      && |b| >= HEADER_SIZE
      && GoodHeader(b[..HEADER_SIZE])
      && |b| >= HEADER_SIZE + SizeIn(b[..HEADER_SIZE])
      && Records(b[HEADER_SIZE + SizeIn(b[..HEADER_SIZE])..]))
  }

  function Entries(b: Bytes): (es: seq<Entry>)
    requires Records(b)
    decreases |b|
  {
    if b == [] then []
    else
      var h := b[..HEADER_SIZE];
      [Entry(NameIn(h), b[HEADER_SIZE..HEADER_SIZE + SizeIn(h)])] + Entries(b[HEADER_SIZE + SizeIn(h)..])
  }

  lemma {:induction false} RecordThenRest(h: Bytes, content: Bytes, rest: Bytes)
    requires GoodHeader(h) && SizeIn(h) == |content| && Records(rest)
    ensures Records(h + content + rest)
    ensures Entries(h + content + rest) == [Entry(NameIn(h), content)] + Entries(rest)
  {
    hide GoodHeader, NameIn, SizeIn;
    HeaderLength(h);
    var b := h + content + rest;
    assert b[..HEADER_SIZE] == h;
    assert b[HEADER_SIZE..HEADER_SIZE + |content|] == content;
    assert b[HEADER_SIZE + |content|..] == rest;
  }

  lemma {:induction false} HeaderLength(h: Bytes)
    requires GoodHeader(h)
    ensures |h| == HEADER_SIZE
  {
  }

  /** Appending one record appends one entry. */
  lemma {:induction false} AppendRecord(b: Bytes, h: Bytes, content: Bytes)
    requires Records(b) && GoodHeader(h) && SizeIn(h) == |content|
    ensures Records(b + h + content)
    ensures Entries(b + h + content) == Entries(b) + [Entry(NameIn(h), content)]
    decreases |b|
  {
    hide GoodHeader, NameIn, SizeIn;
    if b == [] {
      RecordThenRest(h, content, []);
      assert b + h + content == h + content + [];
    } else {
      var h0 := b[..HEADER_SIZE];
      var next := HEADER_SIZE + SizeIn(h0);
      var c0 := b[HEADER_SIZE..next];
      AppendRecord(b[next..], h, content);
      RecordThenRest(h0, c0, b[next..] + h + content);
      assert b + h + content == h0 + c0 + (b[next..] + h + content);
    }
  }

  /** Records behind records are read one after the other. */
  lemma {:induction false} RecordsBehindRecords(b: Bytes, tail: Bytes)
    requires Records(b) && Records(tail)
    ensures Records(b + tail) && Entries(b + tail) == Entries(b) + Entries(tail)
    decreases |b|
  {
    hide Records, Entries, GoodHeader, NameIn, SizeIn;
    if b == [] {
      EntriesOfNothing();
      assert b + tail == tail;
    } else {
      var h, content, rest := FirstRecord(b);
      RecordsBehindRecords(rest, tail);
      RecordThenRest(h, content, rest + tail);
      assert b + tail == h + content + (rest + tail);
    }
  }

  lemma {:induction false} FirstRecord(b: Bytes) returns (h: Bytes, content: Bytes, rest: Bytes)
    requires Records(b) && b != []
    ensures b == h + content + rest && |rest| < |b|
    ensures GoodHeader(h) && SizeIn(h) == |content| && Records(rest)
    ensures Entries(b) == [Entry(NameIn(h), content)] + Entries(rest)
  {
    hide GoodHeader, NameIn, SizeIn;
    h := b[..HEADER_SIZE];
    content, rest := b[HEADER_SIZE..HEADER_SIZE + SizeIn(h)], b[HEADER_SIZE + SizeIn(h)..];
  }

  /** A whole archive of these files. */
  predicate IsArchive(data: Bytes, files: seq<Entry>) {
    && |data| >= COUNT_SIZE
    && FromLittleEndian(data[..COUNT_SIZE]) == |files|
    && Records(data[COUNT_SIZE..])
    && Entries(data[COUNT_SIZE..]) == files
  }

  // ----- the layout -----

  /** Where the record of file `i` starts. */
  function RecordStart(files: seq<Entry>, i: nat): nat
    requires i <= |files|
  {
    if i == 0 then 4 else RecordStart(files, i - 1) + 328 + |files[i - 1].content|
  }

  predicate NumberAt(data: Bytes, at: nat, k: nat, n: nat)
    requires at + k <= |data|
    decreases k
  {
    if k == 0 then n == 0 else n % 256 == data[at] && NumberAt(data, at + 1, k - 1, n / 256)
  }

  /** A record at `at`: a name that ends with a zero within 20 bytes, the size at byte 320, the contents at byte 328. */
  predicate RecordAt(data: Bytes, at: nat, e: Entry) {
    && at + 328 + |e.content| <= |data| && |e.name| < 20
    && data[at..at + |e.name|] == e.name && data[at + |e.name|] == 0
    && NumberAt(data, at + 320, 8, |e.content|)
    && data[at + 328..at + 328 + |e.content|] == e.content
  }

  lemma {:induction false} LowByte(b: Byte, rest: nat)
    ensures (b + 256 * rest) % 256 == b && (b + 256 * rest) / 256 == rest
  {
  }

  lemma {:induction false} NumberIsLittleEndian(data: Bytes, at: nat, k: nat)
    requires at + k <= |data|
    ensures NumberAt(data, at, k, FromLittleEndian(data[at..at + k]))
    decreases k
  {
    if k > 0 {
      NumberIsLittleEndian(data, at + 1, k - 1);
      assert data[at..at + k][1..] == data[at + 1..at + k];
      LowByte(data[at], FromLittleEndian(data[at + 1..at + k]));
    }
  }

  lemma {:induction false} StringEnds(b: Bytes)
    requires 0 in b
    ensures |CString(b)| < |b| && b[..|CString(b)|] == CString(b) && b[|CString(b)|] == 0
  {
    if b[0] != 0 { StringEnds(b[1..]); }
  }

  lemma {:induction false} NameAt(data: Bytes, at: nat, h: Bytes)
    requires at + HEADER_SIZE <= |data| && h == data[at..at + HEADER_SIZE] && GoodHeader(h)
    ensures var name := NameIn(h);
            |name| < 20 && data[at..at + |name|] == name && data[at + |name|] == 0
  {
    hide CString, FromLittleEndian;
    var field := h[..NAME_SIZE];
    StringEnds(field);
    var n := |CString(field)|;
    assert forall k :: 0 <= k < NAME_SIZE ==> field[k] == data[at + k];
    assert data[at..at + n] == field[..n];
  }

  lemma {:induction false} SizeAt(data: Bytes, at: nat, h: Bytes)
    requires at + HEADER_SIZE <= |data| && h == data[at..at + HEADER_SIZE] && GoodHeader(h)
    ensures NumberAt(data, at + 320, 8, SizeIn(h))
  {
    hide NumberAt, FromLittleEndian;
    NumberIsLittleEndian(data, at + 320, 8);
    assert h[SIZE_OFFSET..] == data[at + 320..at + 320 + 8];
  }

  lemma {:induction false} FirstRecordAt(data: Bytes, at: nat)
    requires at < |data| && Records(data[at..])
    ensures var es := Entries(data[at..]);
            && es != [] && RecordAt(data, at, es[0])
            && Records(data[at + 328 + |es[0].content|..]) && Entries(data[at + 328 + |es[0].content|..]) == es[1..]
  {
    hide NumberAt, NameIn, SizeIn, GoodHeader;
    var b := data[at..];
    var h, content, rest := FirstRecord(b);
    HeaderLength(h);
    assert h == b[..HEADER_SIZE] == data[at..at + HEADER_SIZE];
    NameAt(data, at, h);
    SizeAt(data, at, h);
    assert content == b[HEADER_SIZE..HEADER_SIZE + |content|] == data[at + 328..at + 328 + |content|];
    assert rest == b[HEADER_SIZE + |content|..] == data[at + 328 + |content|..];
    assert Entries(b)[1..] == Entries(rest);
  }

  lemma {:induction false} RecordsFollow(data: Bytes, files: seq<Entry>, i: nat)
    requires IsArchive(data, files) && i <= |files|
    ensures RecordStart(files, i) <= |data| && Records(data[RecordStart(files, i)..])
    ensures Entries(data[RecordStart(files, i)..]) == files[i..]
  {
    hide Records, Entries, RecordAt, FromLittleEndian;
    if i == 0 {
      assert files[0..] == files;
    } else {
      RecordsFollow(data, files, i - 1);
      SomeEntriesSomeBytes(data[RecordStart(files, i - 1)..]);
      FirstRecordAt(data, RecordStart(files, i - 1));
      RecordInside(data, RecordStart(files, i - 1), files[i - 1]);
      assert files[i - 1..][0] == files[i - 1] && files[i - 1..][1..] == files[i..];
    }
  }

  lemma {:induction false} RecordInside(data: Bytes, at: nat, e: Entry)
    requires RecordAt(data, at, e)
    ensures at + 328 + |e.content| <= |data|
  {
  }

  lemma {:induction false} SomeEntriesSomeBytes(b: Bytes)
    requires Records(b)
    ensures Entries(b) == [] <==> b == []
  {
  }

  lemma {:induction false} EntriesOfNothing()
    ensures Records([]) && Entries([]) == []
  {
  }

  /** The bytes of an archive: the count in four bytes, then the records one behind the other, and nothing else. */
  lemma {:induction false} ArchiveLayout(data: Bytes, files: seq<Entry>)
    requires IsArchive(data, files)
    ensures NumberAt(data, 0, 4, |files|) && |data| == RecordStart(files, |files|)
    ensures forall i :: 0 <= i < |files| ==> RecordAt(data, RecordStart(files, i), files[i])
  {
    hide RecordAt, Records, Entries;
    NumberIsLittleEndian(data, 0, 4);
    assert data[0..0 + 4] == data[..COUNT_SIZE];
    forall i | 0 <= i < |files| ensures RecordAt(data, RecordStart(files, i), files[i]) {
      RecordsFollow(data, files, i);
      SomeEntriesSomeBytes(data[RecordStart(files, i)..]);
      FirstRecordAt(data, RecordStart(files, i));
    }
    RecordsFollow(data, files, |files|);
    SomeEntriesSomeBytes(data[RecordStart(files, |files|)..]);
  }

  // ----- files written without being truncated first -----

  /** Writing `out` at offset `at` leaves the longer tail of what was there. */
  function Overlay(was: Bytes, at: nat, out: Bytes): (now: Bytes)
    requires at <= |was|
    ensures |now| >= at + |out|
  {
    was[..at] + out + (if at + |out| <= |was| then was[at + |out|..] else [])
  }

  lemma {:induction false} OverlayTwice(was: Bytes, at: nat, first: Bytes, second: Bytes)
    requires at <= |was|
    ensures Overlay(Overlay(was, at, first), at + |first|, second) == Overlay(was, at, first + second)
  {
  }

  /** Because nothing truncates it, a written file holds just what was written iff it was not longer before. */
  lemma {:induction false} OverlayIsExactIff(was: Bytes, out: Bytes)
    ensures Overlay(was, 0, out) == out <==> |was| <= |out|
  {
    if |was| > |out| { assert |Overlay(was, 0, out)| == |was|; }
  }

  // ----- what the commands make of an archive -----

  /** The dump directory after one more file has been written into it. */
  function Put(dump: map<Bytes, Bytes>, e: Entry): map<Bytes, Bytes> {
    dump[e.name := Overlay(if e.name in dump then dump[e.name] else [], 0, e.content)]
  }

  function PutAll(dump: map<Bytes, Bytes>, es: seq<Entry>): map<Bytes, Bytes>
    decreases |es|
  {
    if es == [] then dump else PutAll(Put(dump, es[0]), es[1..])
  }

  predicate DistinctNames(es: seq<Entry>) {
    forall i, j :: 0 <= i < j < |es| ==> es[i].name != es[j].name
  }

  function Names(es: seq<Entry>): set<Bytes> { set e | e in es :: e.name }

  lemma {:induction false} PutAllKeeps(dump: map<Bytes, Bytes>, es: seq<Entry>)
    requires DistinctNames(es) && dump.Keys !! Names(es)
    ensures PutAll(dump, es).Keys == dump.Keys + Names(es)
    ensures forall n :: n in dump ==> PutAll(dump, es)[n] == dump[n]
    ensures forall e :: e in es ==> PutAll(dump, es)[e.name] == e.content
    decreases |es|
  {
    if es != [] {
      var head, rest := es[0], es[1..];
      assert es == [head] + rest;
      assert head.name in Names(es);
      assert Names(es) == {head.name} + Names(rest);
      assert head.name !in Names(rest) by {
        forall e | e in rest ensures e.name != head.name {
          var i :| 0 <= i < |rest| && rest[i] == e;
          assert es[i + 1] == e;
        }
      }
      assert Overlay([], 0, head.content) == head.content;
      assert Put(dump, head) == dump[head.name := head.content];
      PutAllKeeps(Put(dump, head), rest);
    }
  }

  /** Extracting an archive gives back every file byte for byte, under its own name, and nothing else. */
  lemma {:induction false} ExtractInvertsCreate(data: Bytes, files: seq<Entry>)
    requires IsArchive(data, files) && DistinctNames(files)
    ensures var dump := PutAll(map[], Entries(data[COUNT_SIZE..]));
            && dump.Keys == Names(files)
            && (forall e :: e in files ==> dump[e.name] == e.content)
  {
    PutAllKeeps(map[], files);
  }

  lemma {:induction false} PutAllOfBoth(dump: map<Bytes, Bytes>, first: seq<Entry>, second: seq<Entry>)
    ensures PutAll(dump, first + second) == PutAll(PutAll(dump, first), second)
    decreases |first|
  {
    if first == [] {
      assert first + second == second;
    } else {
      assert (first + second)[1..] == first[1..] + second;
      PutAllOfBoth(Put(dump, first[0]), first[1..], second);
    }
  }

  lemma {:induction false} PutAllSparesOthers(dump: map<Bytes, Bytes>, es: seq<Entry>, name: Bytes)
    requires name !in Names(es)
    ensures name in PutAll(dump, es) <==> name in dump
    ensures name in dump ==> PutAll(dump, es)[name] == dump[name]
    decreases |es|
  {
    if es != [] {
      assert es[0] in es;
      assert forall e :: e in es[1..] ==> e in es;
      PutAllSparesOthers(Put(dump, es[0]), es[1..], name);
    }
  }

  /** Writing over the start of a file changes nothing exactly if it writes what is there. */
  lemma {:induction false} OverlayIsIdleIff(was: Bytes, out: Bytes)
    ensures Overlay(was, 0, out) == was <==> out <= was
  {
    if Overlay(was, 0, out) == was {
      assert was[..|out|] == out;
    }
  }

  /** Further files leave a dump as it is exactly if each of them is the beginning of a file that is there. */
  lemma {:induction false} PutAllIsIdleIff(dump: map<Bytes, Bytes>, es: seq<Entry>)
    requires DistinctNames(es)
    ensures PutAll(dump, es) == dump <==> forall e :: e in es ==> e.name in dump && e.content <= dump[e.name]
    decreases |es|
  {
    if es != [] {
      var e, rest := es[0], es[1..];
      assert es == [e] + rest;
      forall r | r in rest ensures r.name != e.name {
        var i :| 0 <= i < |rest| && rest[i] == r;
        assert es[i + 1] == r;
      }
      PutAllSparesOthers(Put(dump, e), rest, e.name);
      PutAllIsIdleIff(dump, rest);
      if e.name in dump {
        OverlayIsIdleIff(dump[e.name], e.content);
        if e.content <= dump[e.name] { assert Put(dump, e) == dump; }
      }
    }
  }

  /** The first record of that name. */
  function FirstNamed(es: seq<Entry>, name: Bytes): (e: Option<Entry>)
    ensures e.Some? ==> e.value in es && e.value.name == name
    ensures e.None? <==> name !in Names(es)
    decreases |es|
  {
    if es == [] then None
    else
      assert es == [es[0]] + es[1..];
      if es[0].name == name then (assert es[0] in es; Some(es[0])) else FirstNamed(es[1..], name)
  }

  /** No record in front of it has that name. */
  lemma {:induction false} FirstNamedIsFirst(es: seq<Entry>, name: Bytes) returns (i: nat)
    requires FirstNamed(es, name).Some?
    ensures i < |es| && es[i] == FirstNamed(es, name).value && es[i].name == name
    ensures forall j :: 0 <= j < i ==> es[j].name != name
    decreases |es|
  {
    i := 0;
    if es[0].name != name {
      i := FirstNamedIsFirst(es[1..], name);
      assert forall j :: 1 <= j < |es| ==> es[j] == es[1..][j - 1];
      i := i + 1;
    }
  }

  /**
   The single extraction agrees with the full one: the same files exist, and the one extracted has the same
   bytes exactly when no longer file of that name lay in the directory already.
   */
  lemma {:induction false} SingleAgreesWithAll(es: seq<Entry>, name: Bytes, was: Bytes)
    requires DistinctNames(es)
    ensures FirstNamed(es, name).Some? <==> name in PutAll(map[], es)
    ensures FirstNamed(es, name).Some? ==>
              (Overlay(was, 0, FirstNamed(es, name).value.content) == PutAll(map[], es)[name]
               <==> |was| <= |PutAll(map[], es)[name]|)
  {
    PutAllKeeps(map[], es);
    if FirstNamed(es, name).Some? {
      OverlayIsExactIff(was, FirstNamed(es, name).value.content);
    }
  }

  // ----- the listing -----

  const NEWLINE: Byte := 10
  const SPACE: Byte := 32

  /** The bytes that `%d` and `%ld` print. */
  function Numeral(n: nat): (b: Bytes)
    ensures forall i :: 0 <= i < |b| ==> b[i] != NEWLINE && b[i] != SPACE
  {
    var s := Decimal.Print(n);
    seq(|s|, i requires 0 <= i < |s| => s[i] as int)
  }

  function ListLine(e: Entry): Bytes { e.name + [SPACE] + Numeral(|e.content|) + [NEWLINE] }

  function ListLines(es: seq<Entry>): Bytes
    decreases |es|
  {
    if es == [] then [] else ListLine(es[0]) + ListLines(es[1..])
  }

  function Listing(data: Bytes): Bytes
    requires |data| >= COUNT_SIZE && Records(data[COUNT_SIZE..])
  {
    Numeral(|data|) + [NEWLINE] + Numeral(FromLittleEndian(data[..COUNT_SIZE])) + [NEWLINE]
    + ListLines(Entries(data[COUNT_SIZE..]))
  }

  lemma {:induction false} NumeralInjective(m: nat, n: nat)
    requires Numeral(m) == Numeral(n)
    ensures m == n
  {
    var s, t := Decimal.Print(m), Decimal.Print(n);
    assert |Numeral(m)| == |s| && |Numeral(n)| == |t|;
    forall i | 0 <= i < |s| ensures s[i] == t[i] {
      assert Numeral(m)[i] == s[i] as int && Numeral(n)[i] == t[i] as int;
    }
    assert s == t;
    Decimal.PrintReadsBack(m);
    Decimal.PrintReadsBack(n);
  }

  /** What stands before the first `sep` is determined. */
  lemma {:induction false} SplitAtFirst(a: Bytes, x: Bytes, b: Bytes, y: Bytes, sep: Byte)
    requires sep !in a && sep !in b && a + [sep] + x == b + [sep] + y
    ensures a == b && x == y
  {
    var whole := a + [sep] + x;
    assert whole[|a|] == sep && whole[|b|] == sep;
    assert a == whole[..|a|] && b == whole[..|b|];
    assert x == whole[|a| + 1..] && y == whole[|b| + 1..];
  }

  /** What stands behind the last `sep` is determined. */
  lemma {:induction false} SplitAtLast(a: Bytes, x: Bytes, b: Bytes, y: Bytes, sep: Byte)
    requires sep !in x && sep !in y && a + [sep] + x == b + [sep] + y
    ensures a == b && x == y
  {
    var whole := a + [sep] + x;
    assert whole[|a|] == sep && whole[|b|] == sep;
    assert a == whole[..|a|] && b == whole[..|b|];
    assert x == whole[|a| + 1..] && y == whole[|b| + 1..];
  }

  predicate PlainNames(es: seq<Entry>) { forall e :: e in es ==> NEWLINE !in e.name }

  lemma {:induction false} LinesDetermine(es: seq<Entry>, fs: seq<Entry>)
    requires PlainNames(es) && PlainNames(fs) && ListLines(es) == ListLines(fs)
    ensures |es| == |fs|
    ensures forall i :: 0 <= i < |es| ==> es[i].name == fs[i].name && |es[i].content| == |fs[i].content|
    decreases |es|
  {
    if es != [] && fs != [] {
      var e, f := es[0], fs[0];
      assert e in es && f in fs;
      var l, m := e.name + [SPACE] + Numeral(|e.content|), f.name + [SPACE] + Numeral(|f.content|);
      assert l + [NEWLINE] + ListLines(es[1..]) == ListLines(es);
      assert m + [NEWLINE] + ListLines(fs[1..]) == ListLines(fs);
      SplitAtFirst(l, ListLines(es[1..]), m, ListLines(fs[1..]), NEWLINE);
      SplitAtLast(e.name, Numeral(|e.content|), f.name, Numeral(|f.content|), SPACE);
      NumeralInjective(|e.content|, |f.content|);
      LinesDetermine(es[1..], fs[1..]);
    }
  }

  /**
   The listing tells the archive's size, the number of files, and every name and size in order: two archives
   with the same listing agree on them, as long as no name holds a newline.
   */
  lemma {:induction false} ListingDetermines(data: Bytes, files: seq<Entry>, other: Bytes, others: seq<Entry>)
    requires IsArchive(data, files) && IsArchive(other, others) && PlainNames(files) && PlainNames(others)
    requires Listing(data) == Listing(other)
    ensures |data| == |other| && |files| == |others|
    ensures forall i :: 0 <= i < |files| ==>
      files[i].name == others[i].name && |files[i].content| == |others[i].content|
  {
    hide Numeral, ListLines, Records, Entries;
    var c, d := Numeral(|files|), Numeral(|others|);
    var p, q := c + [NEWLINE] + ListLines(files), d + [NEWLINE] + ListLines(others);
    assert Listing(data) == Numeral(|data|) + [NEWLINE] + p;
    assert Listing(other) == Numeral(|other|) + [NEWLINE] + q;
    SplitAtFirst(Numeral(|data|), p, Numeral(|other|), q, NEWLINE);
    NumeralInjective(|data|, |other|);
    SplitAtFirst(c, ListLines(files), d, ListLines(others), NEWLINE);
    NumeralInjective(|files|, |others|);
    LinesDetermine(files, others);
  }

  function AsText(b: Bytes): string { seq(|b|, i requires 0 <= i < |b| => b[i] as char) }

  /** The bytes read as a decimal number in its only canonical form. */
  predicate Denotes(b: Bytes, n: nat) {
    Decimal.Canonical(AsText(b)) && Decimal.Value(AsText(b)) == n
  }

  lemma {:induction false} NumeralDenotes(n: nat)
    ensures Denotes(Numeral(n), n)
  {
    assert AsText(Numeral(n)) == Decimal.Print(n);
    Decimal.PrintReadsBack(n);
  }

  /** The first position of a newline, or the length. */
  function LineEnd(b: Bytes): (i: nat)
    ensures i <= |b| && (forall k :: 0 <= k < i ==> b[k] != NEWLINE) && (i < |b| ==> b[i] == NEWLINE)
  {
    if b == [] || b[0] == NEWLINE then 0 else 1 + LineEnd(b[1..])
  }

  /** The lines of a text, without their newlines. */
  function Lines(b: Bytes): seq<Bytes>
    decreases |b|
  {
    if b == [] then [] else
      var i := LineEnd(b);
      [b[..i]] + if i < |b| then Lines(b[i + 1..]) else []
  }

  lemma {:induction false} LineFirst(line: Bytes, rest: Bytes)
    requires NEWLINE !in line
    ensures Lines(line + [NEWLINE] + rest) == [line] + Lines(rest)
  {
    var b := line + [NEWLINE] + rest;
    var i := LineEnd(b);
    assert b[|line|] == NEWLINE;
    assert forall k :: 0 <= k < |line| ==> b[k] == line[k] && line[k] in line;
    assert b[..i] == line && b[i + 1..] == rest;
  }

  /** The line of a file: its name, a space, and its size. */
  predicate Describes(line: Bytes, e: Entry) {
    |line| >= |e.name| + 1 && line[..|e.name|] == e.name && line[|e.name|] == SPACE
    && Denotes(line[|e.name| + 1..], |e.content|)
  }

  lemma {:induction false} LinesDescribe(es: seq<Entry>, lines: seq<Bytes>)
    requires PlainNames(es) && lines == Lines(ListLines(es))
    ensures |lines| == |es| && forall i :: 0 <= i < |es| ==> Describes(lines[i], es[i])
    decreases |es|
  {
    hide Numeral, Denotes, Lines;
    if es == [] {
      NoLinesInNothing();
    } else {
      var e, n := es[0], Numeral(|es[0].content|);
      assert e in es && es == [e] + es[1..];
      var line := e.name + [SPACE] + n;
      assert ListLines(es) == line + [NEWLINE] + ListLines(es[1..]);
      LineFirst(line, ListLines(es[1..]));
      NumeralDenotes(|e.content|);
      assert line[..|e.name|] == e.name && line[|e.name| + 1..] == n;
      LinesDescribe(es[1..], lines[1..]);
      forall i | 0 <= i < |es| ensures Describes(lines[i], es[i]) {
        if i > 0 { assert lines[i] == lines[1..][i - 1] && es[i] == es[1..][i - 1]; }
      }
    }
  }

  lemma {:induction false} NoLinesInNothing()
    ensures Lines([]) == []
  {
  }

  /**
   What a reader finds in the listing of an archive: a line with its size in decimal, a line with the number of
   files, and then, in order, one line for each file with its name and its size.
   */
  lemma {:induction false} ListingReadsAs(data: Bytes, files: seq<Entry>, text: Bytes)
    requires IsArchive(data, files) && PlainNames(files) && text == Listing(data)
    ensures var lines := Lines(text);
            && |lines| == |files| + 2 && Denotes(lines[0], |data|) && Denotes(lines[1], |files|)
            && forall i :: 0 <= i < |files| ==> Describes(lines[i + 2], files[i])
  {
    hide Numeral, ListLines, Records, Entries, Lines, Denotes, Describes, FromLittleEndian;
    var size, count := Numeral(|data|), Numeral(|files|);
    NumeralDenotes(|data|);
    NumeralDenotes(|files|);
    assert text == size + [NEWLINE] + (count + [NEWLINE] + ListLines(files));
    LineFirst(size, count + [NEWLINE] + ListLines(files));
    LineFirst(count, ListLines(files));
    LinesDescribe(files, Lines(ListLines(files)));
    assert Lines(text) == [size] + ([count] + Lines(ListLines(files)));
    forall i | 0 <= i < |files| ensures Describes(Lines(text)[i + 2], files[i]) {
      assert Lines(text)[i + 2] == Lines(ListLines(files))[i];
    }
  }
}
