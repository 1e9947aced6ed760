/** The archiver's commands over files with a cursor. */
module Archive {
  import opened Kernel
  import opened ArchiveFormat

  const CHUNK: nat := 512
  const SLASH: Byte := 47

  /** An open file: what it holds and where its descriptor stands. Reads and writes are never short. */
  class OpenFile {
    var data: Bytes
    var pos: nat

    constructor (data: Bytes)
      ensures this.data == data && pos == 0 && Valid()
    {
      this.data, pos := data, 0;
    }

    ghost predicate Valid()
      reads this
    {
      pos <= |data|
    }

    method Read(n: nat) returns (buffer: Bytes)
      requires Valid()
      modifies this`pos
      ensures Valid() && pos == old(pos) + |buffer|
      ensures buffer == data[old(pos)..old(pos) + |buffer|] && |buffer| == Min(n, |data| - old(pos))
    {
      var end := if pos + n <= |data| then pos + n else |data|;
      buffer := data[pos..end];
      pos := end;
    }

    method Write(buffer: Bytes)
      requires Valid()
      modifies this
      ensures Valid() && pos == old(pos) + |buffer|
      ensures data == Overlay(old(data), old(pos), buffer)
    {
      data := Overlay(data, pos, buffer);
      pos := pos + |buffer|;
    }
  }

  /** The largest value of `totRead + 512` that the chunk loop computes for a file of this size. */
  function LargestSum(totSize: nat): nat {
    if totSize == 0 then CHUNK else (totSize - 1) / CHUNK * CHUNK + CHUNK
  }

  /** The loop's `int` sum overflows for the last 511 sizes that an `int` can hold, and for no others. */
  lemma {:induction false} SumFitsIff(totSize: nat)
    requires totSize <= INT_MAX
    ensures LargestSum(totSize) <= INT_MAX <==> totSize <= MAX_FILE
  {
    if totSize > 0 {
      var q := (totSize - 1) / CHUNK;
      assert q * CHUNK <= totSize - 1 < q * CHUNK + CHUNK;
    }
  }

  /** Copies, or only passes over, exactly `totSize` bytes, whatever the remainder modulo the chunk size. */
  method Read512(source: OpenFile, target: OpenFile, toWrite: bool, totSize: nat)
    requires source != target && source.Valid() && target.Valid()
    requires totSize <= MAX_FILE && source.pos + totSize <= |source.data|
    modifies source`pos, target
    ensures source.Valid() && target.Valid() && source.pos == old(source.pos) + totSize
    ensures var copied := if toWrite then source.data[old(source.pos)..source.pos] else [];
            target.data == Overlay(old(target.data), old(target.pos), copied)
            && target.pos == old(target.pos) + |copied|
  {
    hide Overlay, LargestSum, WholeChunks;
    var totRead: nat := 0;
    ghost var start := source.pos;
    SumFitsIff(totSize);
    SumStarts(totSize);
    NothingCopied(target.data, target.pos, source.data, start);
    while totRead + CHUNK < totSize
      invariant totRead <= totSize && WholeChunks(totRead)
      invariant totRead + CHUNK <= LargestSum(totSize) <= INT_MAX
      invariant source.Valid() && target.Valid() && source.pos == start + totRead
      invariant var copied := if toWrite then source.data[start..start + totRead] else [];
                target.data == Overlay(old(target.data), old(target.pos), copied)
                && target.pos == old(target.pos) + |copied|
      decreases totSize - totRead
    {
      var buffer := source.Read(CHUNK);
      SumGrows(totRead, totSize);
      if toWrite {
        CopyOn(old(target.data), old(target.pos), source.data, start, start + totRead, source.pos);
        target.Write(buffer);
      }
      totRead := totRead + |buffer|;
    }
    var last := source.Read(totSize - totRead);
    if toWrite {
      CopyOn(old(target.data), old(target.pos), source.data, start, start + totRead, source.pos);
      target.Write(last);
    }
  }

  predicate WholeChunks(n: nat) { n % CHUNK == 0 }

  lemma {:induction false} SumStarts(totSize: nat)
    ensures WholeChunks(0) && CHUNK <= LargestSum(totSize)
  {
  }

  lemma {:induction false} NothingCopied(was: Bytes, at: nat, source: Bytes, start: nat)
    requires at <= |was| && start <= |source|
    ensures Overlay(was, at, source[start..start]) == was == Overlay(was, at, [])
  {
  }

  lemma {:induction false} SumGrows(totRead: nat, totSize: nat)
    requires WholeChunks(totRead) && totRead + CHUNK < totSize
    ensures WholeChunks(totRead + CHUNK) && totRead + CHUNK + CHUNK <= LargestSum(totSize)
  {
    var q, k := (totSize - 1) / CHUNK, totRead / CHUNK;
    assert totRead == k * CHUNK && totSize - 1 < q * CHUNK + CHUNK;
    assert k + 1 <= q;
  }

  lemma {:induction false} CopyOn(was: Bytes, at: nat, source: Bytes, start: nat, mid: nat, end: nat)
    requires at <= |was| && start <= mid <= end <= |source|
    ensures Overlay(Overlay(was, at, source[start..mid]), at + (mid - start), source[mid..end])
            == Overlay(was, at, source[start..end])
  {
    assert source[start..end] == source[start..mid] + source[mid..end];
  }

  // ----- creation -----

  datatype DirEntry = DirEntry(name: Bytes, regular: bool, content: Bytes)

  function MakeFilePath(directory: Bytes, name: Bytes): Bytes { directory + [SLASH] + name }

  /** Regular files are archived, except the archive itself. */
  predicate IsArchived(e: DirEntry, directory: Bytes, tarPath: Bytes) {
    e.regular && MakeFilePath(directory, e.name) != tarPath
  }

  /** The fields of the record can hold the file's name and its size. */
  predicate Fits(e: DirEntry) { 0 !in e.name && |e.name| < NAME_SIZE && |e.content| <= MAX_FILE }

  predicate AllFit(listing: seq<DirEntry>, directory: Bytes, tarPath: Bytes) {
    && 0 !in directory && |directory| < DIRECTORY_SIZE
    && (forall e :: e in listing && e.regular ==> |MakeFilePath(directory, e.name)| < DIRECTORY_SIZE)
    && (forall e :: e in listing && IsArchived(e, directory, tarPath) ==> Fits(e))
  }

  function Selected(listing: seq<DirEntry>, directory: Bytes, tarPath: Bytes): (es: seq<Entry>)
    ensures |es| <= |listing|
    decreases |listing|
  {
    if listing == [] then []
    else
      var last := listing[|listing| - 1];
      Selected(listing[..|listing| - 1], directory, tarPath)
      + (if IsArchived(last, directory, tarPath) then [Entry(last.name, last.content)] else [])
  }

  lemma {:induction false} SelectedOfPrefix(listing: seq<DirEntry>, i: nat, directory: Bytes, tarPath: Bytes)
    requires i < |listing|
    ensures Selected(listing[..i + 1], directory, tarPath)
            == Selected(listing[..i], directory, tarPath)
               + (if IsArchived(listing[i], directory, tarPath)
                  then [Entry(listing[i].name, listing[i].content)] else [])
  {
    assert listing[..i + 1][..i] == listing[..i];
  }

  /** `strcpy` into the field at `at`; what stands behind the terminator is left as it was. */
  method CopyString(record: array<Byte>, at: nat, s: Bytes)
    requires at + |s| < record.Length
    modifies record
    ensures record[..] == Overlay(old(record[..]), at, s + [0])
  {
    var i := 0;
    while i < |s|
      invariant 0 <= i <= |s|
      invariant forall k :: 0 <= k < i ==> record[at + k] == s[k]
      invariant forall k :: 0 <= k < at || at + i <= k < record.Length ==> record[k] == old(record[k])
    {
      record[at + i] := s[i];
      i := i + 1;
    }
    record[at + i] := 0;
    assert record[at..at + |s| + 1] == s + [0];
    assert record[..at] == old(record[..at]);
    assert record[at + |s| + 1..] == old(record[at + |s| + 1..]);
  }

  method StoreSize(record: array<Byte>, size: nat)
    requires record.Length == HEADER_SIZE
    modifies record
    ensures record[..] == Overlay(old(record[..]), SIZE_OFFSET, LittleEndian(size, 8))
  {
    hide LittleEndian;
    var bytes := LittleEndian(size, 8);
    forall i | 0 <= i < 8 {
      record[SIZE_OFFSET + i] := bytes[i];
    }
    assert record[SIZE_OFFSET..] == bytes;
    assert record[..SIZE_OFFSET] == old(record[..SIZE_OFFSET]);
  }

  lemma {:induction false} OverlayParts(was: Bytes, at: nat, out: Bytes)
    requires at + |out| <= |was|
    ensures var now := Overlay(was, at, out);
            && |now| == |was| && now[at..at + |out|] == out
            && (forall i :: 0 <= i < at || at + |out| <= i < |was| ==> now[i] == was[i])
  {
  }

  /** A string and its terminator read back from a field that they fit. */
  lemma {:induction false} FieldReadsBack(b: Bytes, at: nat, s: Bytes, size: nat)
    requires 0 !in s && |s| < size && at + size <= |b| && b[at..at + |s| + 1] == s + [0]
    ensures CString(b[at..at + size]) == s && 0 in b[at..at + size]
  {
    var field, tail := b[at..at + size], b[at + |s| + 1..at + size];
    assert field == b[at..at + |s| + 1] + tail;
    assert field[|s|] == 0;
    StringReadsBack(s, tail);
  }

  lemma {:induction false} HeaderReadsBack(was: Bytes, name: Bytes, directory: Bytes, size: nat)
    requires |was| == HEADER_SIZE && 0 !in name && |name| < NAME_SIZE
    requires 0 !in directory && |directory| < DIRECTORY_SIZE && size <= MAX_FILE
    ensures var both := Overlay(Overlay(was, 0, name + [0]), NAME_SIZE, directory + [0]);
            var h := Overlay(both, SIZE_OFFSET, LittleEndian(size, 8));
            GoodHeader(h) && NameIn(h) == name && SizeIn(h) == size
            && CString(h[NAME_SIZE..SIZE_OFFSET]) == directory
  {
    hide Overlay, LittleEndian, FromLittleEndian, CString;
    OverlayParts(was, 0, name + [0]);
    var named := Overlay(was, 0, name + [0]);
    OverlayParts(named, NAME_SIZE, directory + [0]);
    var both := Overlay(named, NAME_SIZE, directory + [0]);
    OverlayParts(both, SIZE_OFFSET, LittleEndian(size, 8));
    var h := Overlay(both, SIZE_OFFSET, LittleEndian(size, 8));
    assert h[0..|name| + 1] == name + [0];
    FieldReadsBack(h, 0, name, NAME_SIZE);
    assert h[NAME_SIZE..NAME_SIZE + |directory| + 1] == directory + [0];
    FieldReadsBack(h, NAME_SIZE, directory, DIRECTORY_SIZE);
    assert h[SIZE_OFFSET..] == LittleEndian(size, 8);
    LongReadsBack(size);
  }

  /** The record header, built in a buffer that still holds whatever the stack held before. */
  method FillHeader(record: array<Byte>, e: DirEntry, directory: Bytes)
    requires record.Length == HEADER_SIZE && Fits(e) && 0 !in directory && |directory| < DIRECTORY_SIZE
    modifies record
    ensures GoodHeader(record[..]) && NameIn(record[..]) == e.name && SizeIn(record[..]) == |e.content|
    ensures CString(record[NAME_SIZE..SIZE_OFFSET]) == directory
  {
    HeaderReadsBack(record[..], e.name, directory, |e.content|);
    CopyString(record, 0, e.name);
    CopyString(record, NAME_SIZE, directory);
    StoreSize(record, |e.content|);
    assert record[..][NAME_SIZE..SIZE_OFFSET] == record[NAME_SIZE..SIZE_OFFSET];
  }

  /** One file: its header, then its contents. */
  method AppendFile(tar: OpenFile, record: array<Byte>, e: DirEntry, directory: Bytes)
    requires tar.Valid() && record.Length == HEADER_SIZE && Fits(e) && 0 !in directory && |directory| < DIRECTORY_SIZE
    modifies tar, record
    ensures tar.Valid() && GoodHeader(record[..]) && NameIn(record[..]) == e.name && SizeIn(record[..]) == |e.content|
    ensures tar.data == Overlay(old(tar.data), old(tar.pos), record[..] + e.content)
    ensures tar.pos == old(tar.pos) + HEADER_SIZE + |e.content|
  {
    hide Overlay, NameIn, SizeIn;
    FillHeader(record, e, directory);
    HeaderLength(record[..]);
    tar.Write(record[..]);
    var fd := new OpenFile(e.content);
    Read512(fd, tar, true, |e.content|);
    assert fd.data[0..|e.content|] == e.content;
    OverlayTwice(old(tar.data), old(tar.pos), record[..], e.content);
  }

  lemma {:induction false} ArchiveGrows(image: Bytes, files: seq<Entry>, header: Bytes, content: Bytes)
    requires |image| >= COUNT_SIZE && Records(image[COUNT_SIZE..]) && Entries(image[COUNT_SIZE..]) == files
    requires GoodHeader(header) && SizeIn(header) == |content|
    ensures var more := image + (header + content);
            Records(more[COUNT_SIZE..]) && more[..COUNT_SIZE] == image[..COUNT_SIZE]
            && Entries(more[COUNT_SIZE..]) == files + [Entry(NameIn(header), content)]
  {
    hide Records, Entries;
    AppendRecord(image[COUNT_SIZE..], header, content);
    assert (image + (header + content))[COUNT_SIZE..] == image[COUNT_SIZE..] + header + content;
  }

  method CountFiles(tarPath: Bytes, directory: Bytes, listing: seq<DirEntry>) returns (count: nat)
    ensures count == |Selected(listing, directory, tarPath)|
  {
    count := 0;
    var i := 0;
    while i < |listing|
      invariant 0 <= i <= |listing| && count == |Selected(listing[..i], directory, tarPath)|
    {
      SelectedOfPrefix(listing, i, directory, tarPath);
      if listing[i].regular {
        var filename := MakeFilePath(directory, listing[i].name);
        if filename != tarPath {
          count := count + 1;
        }
      }
      i := i + 1;
    }
    assert listing[..i] == listing;
  }

  /**
   Whatever the tar file and the record buffer held before, what has been written is an archive of exactly
   the regular files of the directory other than the tar file, in directory order.
   */
  method CreateTar(tar: OpenFile, tarPath: Bytes, directory: Bytes, listing: seq<DirEntry>, record: array<Byte>)
    requires tar.Valid() && tar.pos == 0 && record.Length == HEADER_SIZE
    requires AllFit(listing, directory, tarPath) && |Selected(listing, directory, tarPath)| <= INT_MAX
    modifies tar, record
    ensures tar.Valid() && IsArchive(tar.data[..tar.pos], Selected(listing, directory, tarPath))
    ensures tar.data == Overlay(old(tar.data), 0, tar.data[..tar.pos])
  {
    hide Overlay, Records, Entries, NameIn, SizeIn, LittleEndian, FromLittleEndian, Selected, GoodHeader;
    var count := CountFiles(tarPath, directory, listing);
    ghost var image := LittleEndian(count, COUNT_SIZE);
    IntReadsBack(count);
    NoRecords(image);
    NoneSelected(directory, tarPath);
    assert listing[..0] == [];
    tar.Write(LittleEndian(count, COUNT_SIZE));
    var i := 0;
    while i < |listing|
      invariant 0 <= i <= |listing|
      invariant tar.Valid() && tar.pos == |image| && tar.data == Overlay(old(tar.data), 0, image)
      invariant |image| >= COUNT_SIZE && FromLittleEndian(image[..COUNT_SIZE]) == count
      invariant Records(image[COUNT_SIZE..])
      invariant Entries(image[COUNT_SIZE..]) == Selected(listing[..i], directory, tarPath)
    {
      SelectedOfPrefix(listing, i, directory, tarPath);
      if listing[i].regular {
        var filename := MakeFilePath(directory, listing[i].name);
        if filename != tarPath {
          assert listing[i] in listing && IsArchived(listing[i], directory, tarPath);
          AppendFile(tar, record, listing[i], directory);
          HeaderLength(record[..]);
          OverlayTwice(old(tar.data), 0, image, record[..] + listing[i].content);
          ArchiveGrows(image, Selected(listing[..i], directory, tarPath), record[..], listing[i].content);
          image := image + (record[..] + listing[i].content);
        }
      }
      i := i + 1;
    }
    assert listing[..i] == listing;
    OverlayStart(old(tar.data), image);
  }

  lemma {:induction false} OverlayStart(was: Bytes, out: Bytes)
    ensures Overlay(was, 0, out)[..|out|] == out
  {
  }

  lemma {:induction false} NoRecords(image: Bytes)
    requires |image| == COUNT_SIZE
    ensures image[..COUNT_SIZE] == image && Records(image[COUNT_SIZE..]) && Entries(image[COUNT_SIZE..]) == []
  {
  }

  lemma {:induction false} NoneSelected(directory: Bytes, tarPath: Bytes)
    ensures Selected([], directory, tarPath) == []
  {
  }

  // ----- extraction and listing -----

  /** The file that `open` with O_CREAT and no O_TRUNC starts from. */
  function Before(dump: map<Bytes, Bytes>, name: Bytes): Bytes {
    if name in dump then dump[name] else []
  }

  /** A record at the cursor, and what is behind it. */
  lemma {:induction false} NextRecord(data: Bytes, pos: nat)
    requires pos < |data| && Records(data[pos..])
    ensures pos + HEADER_SIZE <= |data| && GoodHeader(data[pos..pos + HEADER_SIZE])
    ensures var h := data[pos..pos + HEADER_SIZE];
            var body := pos + HEADER_SIZE;
            var next := body + SizeIn(h);
            && next <= |data| && Records(data[next..])
            && Entries(data[pos..]) == [Entry(NameIn(h), data[body..next])] + Entries(data[next..])
  {
    hide GoodHeader, NameIn, SizeIn;
    var b := data[pos..];
    var h := data[pos..pos + HEADER_SIZE];
    assert b[..HEADER_SIZE] == h;
    var next := HEADER_SIZE + SizeIn(h);
    assert b[next..] == data[pos + next..];
    assert b[HEADER_SIZE..next] == data[pos + HEADER_SIZE..pos + next];
  }

  /** None when the dump directory is there already or the archive is too short to hold a count. */
  method Extract(tar: OpenFile, dumpExists: bool) returns (result: Option<map<Bytes, Bytes>>)
    requires tar.Valid() && tar.pos == 0
    requires |tar.data| >= COUNT_SIZE ==> Records(tar.data[COUNT_SIZE..])
    modifies tar`pos
    ensures result == if dumpExists || |tar.data| < COUNT_SIZE then None
                      else Some(PutAll(map[], Entries(tar.data[COUNT_SIZE..])))
  {
    hide Records, Entries, NameIn, SizeIn, GoodHeader, Overlay;
    if dumpExists {
      return None;
    }
    var dump: map<Bytes, Bytes> := map[];
    var tarStat := tar.Read(COUNT_SIZE);
    if |tarStat| != COUNT_SIZE {
      return None;
    }
    ghost var start := tar.pos;
    var header := tar.Read(HEADER_SIZE);
    while |header| > 0
      invariant tar.Valid() && start + |header| == tar.pos && |header| == Min(HEADER_SIZE, |tar.data| - start)
      invariant header == tar.data[start..tar.pos] && Records(tar.data[start..])
      invariant PutAll(dump, Entries(tar.data[start..])) == PutAll(map[], Entries(tar.data[COUNT_SIZE..]))
      decreases |tar.data| - start
    {
      NextRecord(tar.data, start);
      var name := NameIn(header);
      var fd := new OpenFile(Before(dump, name));
      Read512(tar, fd, true, SizeIn(header));
      dump := dump[name := fd.data];
      start := tar.pos;
      header := tar.Read(HEADER_SIZE);
    }
    EntriesAtEnd(tar.data, start);
    result := Some(dump);
  }

  lemma {:induction false} EntriesAtEnd(data: Bytes, pos: nat)
    requires pos == |data|
    ensures Records(data[pos..]) && Entries(data[pos..]) == []
  {
  }

  datatype Single = Failed | Missing | Written(content: Bytes)

  /** `was` is the file of that name that the directory for single files holds already, empty if there is none. */
  method ExtractSingle(tar: OpenFile, file: Bytes, was: Bytes, directoryOk: bool) returns (result: Single)
    requires tar.Valid() && tar.pos == 0
    requires |tar.data| >= COUNT_SIZE ==> Records(tar.data[COUNT_SIZE..])
    modifies tar`pos
    ensures result == if !directoryOk || |tar.data| < COUNT_SIZE then Failed
                      else match FirstNamed(Entries(tar.data[COUNT_SIZE..]), file)
                        case None => Missing
                        case Some(e) => Written(Overlay(was, 0, e.content))
  {
    hide Records, Entries, NameIn, SizeIn, GoodHeader, Overlay;
    if !directoryOk {
      return Failed;
    }
    var tarStat := tar.Read(COUNT_SIZE);
    if |tarStat| != COUNT_SIZE {
      return Failed;
    }
    ghost var start := tar.pos;
    var found := false;
    var header := tar.Read(HEADER_SIZE);
    while |header| > 0
      invariant tar.Valid() && start + |header| == tar.pos && |header| == Min(HEADER_SIZE, |tar.data| - start)
      invariant header == tar.data[start..tar.pos] && Records(tar.data[start..])
      invariant FirstNamed(Entries(tar.data[start..]), file) == FirstNamed(Entries(tar.data[COUNT_SIZE..]), file)
      decreases |tar.data| - start
    {
      NextRecord(tar.data, start);
      found := file == NameIn(header);
      var fd := new OpenFile(was);
      Read512(tar, fd, found, SizeIn(header));
      if found {
        return Written(fd.data);
      }
      start := tar.pos;
      header := tar.Read(HEADER_SIZE);
    }
    EntriesAtEnd(tar.data, start);
    result := Missing;
  }

  /** `was` is the listing file that is there already, empty if there is none. */
  method List(tar: OpenFile, was: Bytes) returns (result: Option<Bytes>)
    requires tar.Valid() && tar.pos == 0
    requires |tar.data| >= COUNT_SIZE ==>
               Records(tar.data[COUNT_SIZE..]) && FromLittleEndian(tar.data[..COUNT_SIZE]) <= INT_MAX
    modifies tar`pos
    ensures result == if |tar.data| < COUNT_SIZE then None else Some(Overlay(was, 0, Listing(tar.data)))
  {
    hide Records, Entries, NameIn, SizeIn, GoodHeader, Overlay, FromLittleEndian, Numeral, ListLines;
    var tarStat := tar.Read(COUNT_SIZE);
    if |tarStat| != COUNT_SIZE {
      return None;
    }
    var fd := new OpenFile(was);
    fd.Write(Numeral(|tar.data|) + [NEWLINE]);
    fd.Write(Numeral(FromLittleEndian(tarStat)) + [NEWLINE]);
    ghost var text := Numeral(|tar.data|) + [NEWLINE] + (Numeral(FromLittleEndian(tarStat)) + [NEWLINE]);
    OverlayTwice(was, 0, Numeral(|tar.data|) + [NEWLINE], Numeral(FromLittleEndian(tarStat)) + [NEWLINE]);
    ghost var start := tar.pos;
    NoLines();
    var header := tar.Read(HEADER_SIZE);
    while |header| > 0
      invariant tar.Valid() && start + |header| == tar.pos && |header| == Min(HEADER_SIZE, |tar.data| - start)
      invariant header == tar.data[start..tar.pos] && Records(tar.data[start..])
      invariant fd.Valid() && fd.pos == |text| && fd.data == Overlay(was, 0, text)
      invariant text + ListLines(Entries(tar.data[start..])) == Listing(tar.data)
      decreases |tar.data| - start
    {
      NextRecord(tar.data, start);
      ghost var entry := Entry(NameIn(header), tar.data[tar.pos..tar.pos + SizeIn(header)]);
      var line := NameIn(header) + [SPACE] + Numeral(SizeIn(header)) + [NEWLINE];
      fd.Write(line);
      assert line == ListLine(entry);
      LinesFrom(text, entry, Entries(tar.data[tar.pos + SizeIn(header)..]));
      OverlayTwice(was, 0, text, line);
      text := text + line;
      SkipWritesNothing(fd.data, fd.pos);
      Read512(tar, fd, false, SizeIn(header));
      start := tar.pos;
      header := tar.Read(HEADER_SIZE);
    }
    EntriesAtEnd(tar.data, start);
    assert text + [] == text;
    result := Some(fd.data);
  }

  lemma {:induction false} NoLines()
    ensures ListLines([]) == []
  {
  }

  lemma {:induction false} LinesFrom(text: Bytes, e: Entry, es: seq<Entry>)
    ensures text + ListLines([e] + es) == text + ListLine(e) + ListLines(es)
  {
    assert ([e] + es)[1..] == es;
  }

  lemma {:induction false} SkipWritesNothing(was: Bytes, at: nat)
    requires at <= |was|
    ensures Overlay(was, at, []) == was
  {
  }

  // ----- creating and extracting -----

  predicate DistinctEntries(listing: seq<DirEntry>) {
    forall i, j :: 0 <= i < j < |listing| ==> listing[i].name != listing[j].name
  }

  /** Some regular file of the directory, other than the tar file, has this name and these bytes. */
  predicate InDirectory(listing: seq<DirEntry>, directory: Bytes, tarPath: Bytes, f: Entry) {
    exists e :: e in listing && e.name == f.name && e.content == f.content
        && e.regular && directory + [SLASH] + e.name != tarPath
  }

  lemma {:induction false} SelectedAreInDirectory(
      listing: seq<DirEntry>, directory: Bytes, tarPath: Bytes, f: Entry)
    ensures f in Selected(listing, directory, tarPath) <==> InDirectory(listing, directory, tarPath, f)
    decreases |listing|
  {
    if listing != [] {
      var init := listing[..|listing| - 1];
      assert listing == init + [listing[|init|]];
      SelectedAreInDirectory(init, directory, tarPath, f);
    }
  }

  /** The files are archived in the order of the directory. */
  lemma {:induction false} SelectedInOrder(
      first: seq<DirEntry>, second: seq<DirEntry>, directory: Bytes, tarPath: Bytes)
    ensures Selected(first + second, directory, tarPath)
            == Selected(first, directory, tarPath) + Selected(second, directory, tarPath)
    decreases |second|
  {
    if second == [] {
      assert first + second == first;
    } else {
      var n := |second| - 1;
      assert (first + second)[..|first + second| - 1] == first + second[..n];
      SelectedInOrder(first, second[..n], directory, tarPath);
    }
  }

  lemma {:induction false} SelectedAreDistinct(listing: seq<DirEntry>, directory: Bytes, tarPath: Bytes)
    requires DistinctEntries(listing)
    ensures DistinctNames(Selected(listing, directory, tarPath))
    decreases |listing|
  {
    if listing != [] {
      var init := listing[..|listing| - 1];
      SelectedAreDistinct(init, directory, tarPath);
      forall f | f in Selected(init, directory, tarPath) ensures f.name != listing[|init|].name {
        SelectedAreInDirectory(init, directory, tarPath, f);
      }
    }
  }

  /**
   Creating an archive, over a tar file that was not longer than it, and extracting it again gives a dump
   directory with exactly the directory's regular files, byte for byte, and without the tar file itself.
   */
  lemma {:induction false} RoundTrip(
      was: Bytes, image: Bytes, listing: seq<DirEntry>, directory: Bytes, tarPath: Bytes, f: Entry)
    requires IsArchive(image, Selected(listing, directory, tarPath)) && |was| <= |image| && DistinctEntries(listing)
    ensures var tar := Overlay(was, 0, image);
            && |tar| >= COUNT_SIZE && Records(tar[COUNT_SIZE..])
            && var dump := PutAll(map[], Entries(tar[COUNT_SIZE..]));
            f.name in dump && dump[f.name] == f.content <==> InDirectory(listing, directory, tarPath, f)
  {
    hide Records, Entries, Selected, InDirectory, Overlay, PutAll;
    OverlayIsExactIff(was, image);
    var files := Selected(listing, directory, tarPath);
    SelectedAreDistinct(listing, directory, tarPath);
    ExtractInvertsCreate(image, files);
    SelectedAreInDirectory(listing, directory, tarPath, f);
    if f.name in Names(files) {
      var e :| e in files && e.name == f.name;
      assert e.content == f.content ==> e == f;
    }
  }

  /**
   Over an older, longer tar file whose leftover consists of whole records, extraction goes on with their files.
   The dump is still that of the directory exactly if each leftover file is the beginning of a file archived anew.
   */
  lemma {:induction false} RoundTripOverLonger(was: Bytes, image: Bytes, files: seq<Entry>)
    requires IsArchive(image, files) && |was| > |image| && Records(was[|image|..])
    requires DistinctNames(Entries(was[|image|..]))
    ensures var tar, left, dump := Overlay(was, 0, image), Entries(was[|image|..]), PutAll(map[], files);
            && |tar| >= COUNT_SIZE && Records(tar[COUNT_SIZE..]) && Entries(tar[COUNT_SIZE..]) == files + left
            && PutAll(map[], Entries(tar[COUNT_SIZE..])) == PutAll(dump, left)
            && (PutAll(map[], Entries(tar[COUNT_SIZE..])) == dump <==>
                forall e :: e in left ==> e.name in dump && e.content <= dump[e.name])
  {
    hide Records, Entries, PutAll;
    var left := was[|image|..];
    assert Overlay(was, 0, image)[COUNT_SIZE..] == image[COUNT_SIZE..] + left;
    RecordsBehindRecords(image[COUNT_SIZE..], left);
    PutAllOfBoth(map[], files, Entries(left));
    PutAllIsIdleIff(PutAll(map[], files), Entries(left));
  }
}
