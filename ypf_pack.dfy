/**
 * The archive writer `packYpf` (YpfDef.go:192-357), from the list of files
 * onward: the name pass that fills the records and sums the directory size,
 * the sort by name checksum, the payload pass, the directory writer and the
 * final size check. File reading, zlib and the code-page encoder are
 * parameters; the output is the archive's bytes.
 */
module YpfPack {
  import opened Bytes
  import opened Text
  import opened Checksum
  import opened Obfuscation
  import opened Ybn
  import opened Ypf

  datatype PackError =
    | EmptyName       // "Filename can't be empty"
    | DuplicateName   // "Filenames can't be duplicates"
    | ReadFailed      // "Error while reading file"
    | FileTooLarge    // "File too large"
    | FileEmpty       // "File empty"
    | OutputTooLong   // "Output file too long"
    | NameTooLong     // "Filename can only be one byte"
    | OversizedHeader // "Oversized Header"

  const Dot: byte := 0x2E
  const Slash: byte := 0x2F

  // ---------------------------------------------------------------------------
  // File types (YpfDef.go:213-224, 230, 246-250)

  /**
   * `filepath.Ext` with '/' as separator: the suffix from the last dot of the
   * last path element, dot included; empty when that element has no dot.
   */
  function Ext(path: GoString): (e: GoString)
    ensures e == [] || e[0] == Dot
    ensures |e| <= |path|
    decreases |path|
  {
    if path == [] then []
    else
      var c := path[|path| - 1];
      if c == Slash then []
      else if c == Dot then [Dot]
      else
        var e := Ext(path[..|path| - 1]);
        if e == [] then [] else e + [c]
  }

  /** The extension is a suffix of the path. */
  lemma {:induction false} ExtIsSuffix(path: GoString)
    ensures Ext(path) == path[|path| - |Ext(path)|..]
    decreases |path|
  {
    if path != [] && path[|path| - 1] != Slash && path[|path| - 1] != Dot {
      var init := path[..|path| - 1];
      ExtIsSuffix(init);
      if Ext(init) != [] {
        assert path[|path| - |Ext(path)|..] == init[|init| - |Ext(init)|..] + [path[|path| - 1]];
      }
    }
  }

  /** The keys of `typeMap` in the order of their codes 0 to 9: txt bmp png jpg gif wav ogg psd ycg psb. */
  const TypeNames: seq<GoString> := [
    [0x74, 0x78, 0x74], [0x62, 0x6D, 0x70], [0x70, 0x6E, 0x67], [0x6A, 0x70, 0x67], [0x67, 0x69, 0x66],
    [0x77, 0x61, 0x76], [0x6F, 0x67, 0x67], [0x70, 0x73, 0x64], [0x79, 0x63, 0x67], [0x70, 0x73, 0x62]]

  /** The code of the ycg entry, an image masked as .png. */
  const YcgType := 8

  /** `r, ok := typeMap[key]; if !ok { r = 0 }`. */
  function TypeCode(key: GoString): (t: u8)
    ensures t < |TypeNames|
    ensures t != 0 ==> TypeNames[t] == key
    ensures (exists i :: 0 <= i < |TypeNames| && TypeNames[i] == key) ==> TypeNames[t] == key
  {
    if key == TypeNames[1] then 1 else if key == TypeNames[2] then 2
    else if key == TypeNames[3] then 3 else if key == TypeNames[4] then 4
    else if key == TypeNames[5] then 5 else if key == TypeNames[6] then 6
    else if key == TypeNames[7] then 7 else if key == TypeNames[8] then 8
    else if key == TypeNames[9] then 9 else 0
  }

  /** No key of the map starts with a dot. */
  lemma TypeNamesHaveNoDot()
    ensures forall i :: 0 <= i < |TypeNames| ==> |TypeNames[i]| == 3 && TypeNames[i][0] != Dot
  {
  }

  /**
   * The type `packYpf` records: the map is looked up with the extension as
   * `filepath.Ext` returns it, dot included, so no key ever matches.
   */
  function TypeAsWritten(file: GoString): u8
  {
    TypeCode(Ext(file))
  }

  lemma TypeAsWrittenIsZero(file: GoString)
    ensures TypeAsWritten(file) == 0
  {
    TypeNamesHaveNoDot();
  }

  /** The ycg branch of YpfDef.go:231-233 compares the extension with "ycg", which never holds. */
  lemma YcgBranchUnreachable(file: GoString)
    ensures Ext(file) != TypeNames[YcgType]
  {
    TypeNamesHaveNoDot();
  }

  /** The type the map was meant to give: looked up without the dot. */
  function TypeCorrected(file: GoString): u8
  {
    var e := Ext(file);
    if e == [] then 0 else TypeCode(e[1..])
  }

  /** The name ".png" as bytes. */
  const PngSuffix: GoString := [Dot, 0x70, 0x6E, 0x67]

  /** With the dot dropped, any name ending in ".png" is recorded as type 2; the code as written records 0. */
  lemma TypeCorrectedExample(p: GoString)
    ensures TypeCorrected(p + PngSuffix) == 2
    ensures TypeAsWritten(p + PngSuffix) == 0
  {
    ExtOfPng(p);
    assert PngSuffix[1..] == TypeNames[2];
    TypeAsWrittenIsZero(p + PngSuffix);
  }

  /** A name ending in ".png" has the extension ".png". */
  lemma ExtOfPng(p: GoString)
    ensures Ext(p + PngSuffix) == PngSuffix
  {
    var s1 := p + [Dot];
    var s2 := s1 + [0x70];
    var s3 := s2 + [0x6E];
    assert s3 + [0x67] == p + PngSuffix;
    ExtSnoc(p, Dot);
    assert Ext(s1) == [Dot];
    ExtSnoc(s1, 0x70);
    assert Ext(s2) == [Dot, 0x70];
    ExtSnoc(s2, 0x6E);
    assert Ext(s3) == [Dot, 0x70, 0x6E];
    ExtSnoc(s3, 0x67);
  }

  /** `filepath.Ext` after one more character. */
  lemma ExtSnoc(p: GoString, c: byte)
    ensures Ext(p + [c]) == if c == Slash then [] else if c == Dot then [Dot]
                            else if Ext(p) == [] then [] else Ext(p) + [c]
  {
    assert (p + [c])[..|p|] == p;
  }

  // ---------------------------------------------------------------------------
  // The name pass (YpfDef.go:226-256)

  /** `checksumByVersion(·, v, true)`, the name checksum of a version. */
  function NameSum(v: u32): seq<byte> -> u32
  {
    d => ChecksumByVersion(d, v, true)
  }

  /** `checksumByVersion(·, v, false)`, the data checksum of a version. */
  function DataSum(v: u32): seq<byte> -> u32
  {
    d => ChecksumByVersion(d, v, false)
  }

  /**
   * The record the name pass leaves for a file: the checksum of the plain
   * name bytes, the name, the type (always 0, by TypeAsWrittenIsZero), and
   * every other field zero.
   */
  function EntryFor(file: GoString, nameSum: seq<byte> -> u32): (e: YpfEntry)
    ensures e.nameChecksum == nameSum(file) && e.fileName == file
    ensures e.fileType == 0 && e.isCompressed == 0 && e.rawFileSize == 0 && e.compressedFileSize == 0
    ensures e.offset == 0 && e.dataChecksum == 0
  {
    YpfEntry(nameSum(file), file, 0, 0, 0, 0, 0, 0)
  }

  /** The records of the name pass, one per file, in list order. */
  function EntriesFor(files: seq<GoString>, nameSum: seq<byte> -> u32): (es: seq<YpfEntry>)
    ensures |es| == |files|
    decreases |files|
  {
    if files == [] then [] else EntriesFor(files[..|files| - 1], nameSum) + [EntryFor(files[|files| - 1], nameSum)]
  }

  lemma {:induction false} EntriesForAt(files: seq<GoString>, nameSum: seq<byte> -> u32, i: nat)
    requires i < |files|
    ensures EntriesFor(files, nameSum)[i] == EntryFor(files[i], nameSum)
    decreases |files|
  {
    if i < |files| - 1 {
      EntriesForAt(files[..|files| - 1], nameSum, i);
    }
  }

  /** Each record carries the checksum of its plain name bytes, not of the bytes the directory stores. */
  lemma NameChecksumOfPlainName(files: seq<GoString>, v: u32, i: nat)
    requires i < |files|
    ensures EntriesFor(files, NameSum(v))[i].nameChecksum == ChecksumByVersion(files[i], v, true)
    ensures EntriesFor(files, NameSum(v))[i].fileName == files[i]
  {
    EntriesForAt(files, NameSum(v), i);
  }

  /** The first name failure in list order: an empty name, or a name equal to an earlier one. */
  function NamesCheck(files: seq<GoString>): Option<PackError>
    decreases |files|
  {
    if files == [] then None
    else
      var prev := NamesCheck(files[..|files| - 1]);
      var f := files[|files| - 1];
      if prev.Some? then prev
      else if f == [] then Some(EmptyName)
      else if f in files[..|files| - 1] then Some(DuplicateName)
      else None
  }

  /** The name pass succeeds exactly for non-empty, pairwise distinct names. */
  lemma {:induction false} NamesCheckOk(files: seq<GoString>)
    ensures NamesCheck(files).None? <==>
      (forall i :: 0 <= i < |files| ==> files[i] != [])
      && (forall i, j :: 0 <= i < j < |files| ==> files[i] != files[j])
    decreases |files|
  {
    if files != [] {
      var init := files[..|files| - 1];
      NamesCheckOk(init);
      if NamesCheck(files).None? {
        assert forall i :: 0 <= i < |init| ==> files[i] == init[i];
        forall i, j | 0 <= i < j < |files|
          ensures files[i] != files[j]
        {
          if j == |files| - 1 {
            assert files[i] == init[i];
          }
        }
      }
    }
  }

  /** A failure of the name pass is one of its own two kinds. */
  lemma {:induction false} NamesCheckKinds(files: seq<GoString>)
    ensures NamesCheck(files) in {None, Some(EmptyName), Some(DuplicateName)}
    decreases |files|
  {
    if files != [] {
      NamesCheckKinds(files[..|files| - 1]);
    }
  }

  /** What one record adds to `ArchivedFilesHeaderSize`: 23 + name length, and 4 more from version 479 on. */
  function RecordSize(file: GoString, v: u32): nat
  {
    23 + |file| + if v >= WideVersion then 4 else 0
  }

  function SumRecordSizes(files: seq<GoString>, v: u32): nat
    decreases |files|
  {
    if files == [] then 0 else SumRecordSizes(files[..|files| - 1], v) + RecordSize(files[|files| - 1], v)
  }

  /** The directory size the header announces: 32 plus every record, in 32-bit arithmetic. */
  function DirSize(files: seq<GoString>, v: u32): (s: u32)
    ensures 32 + SumRecordSizes(files, v) < 0x1_0000_0000 ==> s == 32 + SumRecordSizes(files, v)
  {
    ToU32(32 + SumRecordSizes(files, v))
  }

  /** One step of YpfDef.go:251-254: two 32-bit additions. */
  function SizeStep(size: u32, file: GoString, v: u32): u32
  {
    var s := ToU32(size + ToU32(23 + |file|));
    if v >= WideVersion then ToU32(s + 4) else s
  }

  /** Truncating before adding more does not change the truncated sum. */
  lemma ToU32Add(x: nat, y: nat)
    ensures ToU32(ToU32(x) + y) == ToU32(x + y)
  {
    var q := x / 0x1_0000_0000;
    assert x == q * 0x1_0000_0000 + ToU32(x);
    assert x + y == q * 0x1_0000_0000 + (ToU32(x) + y);
    ModAfterMultiples(q, ToU32(x) + y);
  }

  lemma {:induction false} ModAfterMultiples(q: nat, z: nat)
    ensures (q * 0x1_0000_0000 + z) % 0x1_0000_0000 == z % 0x1_0000_0000
    decreases q
  {
    if q > 0 {
      ModAfterMultiples(q - 1, z);
      assert q * 0x1_0000_0000 + z == (q - 1) * 0x1_0000_0000 + z + 0x1_0000_0000;
    }
  }

  /** The step adds the record's size to the running total, in 32-bit arithmetic. */
  lemma DirSizeStep(files: seq<GoString>, i: nat, v: u32)
    requires i < |files|
    ensures DirSize(files[..i + 1], v) == SizeStep(DirSize(files[..i], v), files[i], v)
  {
    assert files[..i + 1][..i] == files[..i];
    var a := 32 + SumRecordSizes(files[..i], v);
    var r := 23 + |files[i]|;
    ToU32Add(a, ToU32(r));
    assert ToU32(a + ToU32(r)) == ToU32(r + a) by { ToU32Add(r, a); }
    if v >= WideVersion {
      ToU32Add(a + r, 4);
    }
  }

  /**
   * Whether `name` equals the name of one of the first `i` records
   * (the inner loop of YpfDef.go:238-243).
   */
  method SeenBefore(entries: array<YpfEntry>, i: nat, name: GoString) returns (dup: bool)
    requires i <= entries.Length
    ensures dup <==> exists j :: 0 <= j < i && entries[j].fileName == name
  {
    var j := 0;
    while j < i
      invariant 0 <= j <= i
      invariant forall k :: 0 <= k < j ==> entries[k].fileName != name
    {
      if entries[j].fileName == name {
        return true;
      }
      j := j + 1;
    }
    return false;
  }

  /**
   * The name pass: one record per file, by index, and the running directory
   * size. On success the records are EntriesFor(files) and the size DirSize.
   */
  method CollectNames(files: seq<GoString>, v: u32, nameSum: seq<byte> -> u32, entries: array<YpfEntry>)
    returns (err: Option<PackError>, size: u32)
    requires entries.Length == |files|
    modifies entries
    ensures err == NamesCheck(files)
    ensures err.None? ==> entries[..] == EntriesFor(files, nameSum)
    ensures err.None? ==> size == DirSize(files, v)
  {
    size := 32;
    var i := 0;
    while i < |files|
      invariant 0 <= i <= |files|
      invariant NamesCheck(files[..i]).None?
      invariant entries[..i] == EntriesFor(files[..i], nameSum)
      invariant size == DirSize(files[..i], v)
    {
      var file := files[i];
      NamesCheckStep(files, i);
      if |file| == 0 {
        NamesStayFailed(files, i + 1);
        return Some(EmptyName), size;
      }
      var dup := SeenBefore(entries, i, file);
      NamesInEntries(entries[..i], files[..i], nameSum, file);
      if dup {
        NamesStayFailed(files, i + 1);
        return Some(DuplicateName), size;
      }
      ghost var prev := entries[..i];
      var fileType := TypeAsWritten(file);
      TypeAsWrittenIsZero(file);
      entries[i] := YpfEntry(nameSum(file), file, fileType, 0, 0, 0, 0, 0);
      assert entries[..i + 1] == prev + [EntryFor(file, nameSum)];
      EntriesForSnoc(files, i, nameSum);
      DirSizeStep(files, i, v);
      size := ToU32(size + ToU32(23 + |file|));
      if v >= WideVersion {
        size := ToU32(size + 4);
      }
      i := i + 1;
    }
    assert files[..i] == files;
    assert entries[..] == entries[..i];
    err := None;
  }

  /** One more name: the pass fails on it exactly when it is empty or already listed. */
  lemma NamesCheckStep(files: seq<GoString>, i: nat)
    requires i < |files| && NamesCheck(files[..i]).None?
    ensures NamesCheck(files[..i + 1]) ==
      if files[i] == [] then Some(EmptyName) else if files[i] in files[..i] then Some(DuplicateName) else None
  {
    assert files[..i + 1][..i] == files[..i];
  }

  /** The records of a prefix carry its names, so the duplicate scan is a membership test. */
  lemma NamesInEntries(es: seq<YpfEntry>, fs: seq<GoString>, nameSum: seq<byte> -> u32, name: GoString)
    requires es == EntriesFor(fs, nameSum)
    ensures (exists j :: 0 <= j < |es| && es[j].fileName == name) <==> name in fs
  {
    if name in fs {
      var j :| 0 <= j < |fs| && fs[j] == name;
      EntriesForAt(fs, nameSum, j);
    }
    if j :| 0 <= j < |es| && es[j].fileName == name {
      EntriesForAt(fs, nameSum, j);
    }
  }

  lemma EntriesForSnoc(files: seq<GoString>, i: nat, nameSum: seq<byte> -> u32)
    requires i < |files|
    ensures EntriesFor(files[..i + 1], nameSum) == EntriesFor(files[..i], nameSum) + [EntryFor(files[i], nameSum)]
  {
    assert files[..i + 1][..i] == files[..i];
  }

  /** Once a prefix of the names has failed, the whole list fails the same way. */
  lemma {:induction false} NamesStayFailed(files: seq<GoString>, k: nat)
    requires k <= |files| && NamesCheck(files[..k]).Some?
    ensures NamesCheck(files) == NamesCheck(files[..k])
    decreases |files| - k
  {
    if k < |files| {
      assert files[..k + 1][..k] == files[..k];
      NamesStayFailed(files, k + 1);
    } else {
      assert files[..k] == files;
    }
  }

  // ---------------------------------------------------------------------------
  // The payload pass (YpfDef.go:262-318)

  /** The file a record is read from, relative to the input directory; a ycg record adds ".ycg". */
  function SourcePath(e: YpfEntry): GoString
  {
    if e.fileType == YcgType then e.fileName + [Dot, 0x79, 0x63, 0x67] else e.fileName
  }

  /** A file the payload pass refuses (YpfDef.go:268-280): unreadable, over 0xFFFFFFFF bytes, or empty. */
  predicate BadFile(contents: Option<seq<byte>>)
  {
    contents.None? || |contents.value| > 0xFFFF_FFFF || |contents.value| == 0
  }

  /** The bytes that go into the archive: the zlib stream when it is shorter, the file otherwise. */
  function StoredForm(fileBytes: seq<byte>, compress: seq<byte> -> seq<byte>): (s: seq<byte>)
    ensures |s| <= |fileBytes|
    ensures s == fileBytes || |s| < |fileBytes|
  {
    var c := compress(fileBytes);
    if |c| < |fileBytes| then c else fileBytes
  }

  /** `n` copies of `p`, one after another. */
  function Repeat(p: seq<byte>, n: nat): (r: seq<byte>)
    ensures |r| == n * |p|
    decreases n
  {
    if n == 0 then [] else Repeat(p, n - 1) + p
  }

  /** The test of the inner loop: same data checksum and same raw size. */
  predicate SameData(e: YpfEntry, chk: u32, raw: u32)
  {
    e.dataChecksum == chk && e.rawFileSize == raw
  }

  /** The index of the first record with the same data, or |es| when there is none. */
  function FirstMatch(es: seq<YpfEntry>, chk: u32, raw: u32): (m: nat)
    ensures m <= |es|
    ensures forall k :: 0 <= k < m ==> !SameData(es[k], chk, raw)
    ensures m < |es| ==> SameData(es[m], chk, raw)
    decreases |es|
  {
    if es == [] then 0 else if SameData(es[0], chk, raw) then 0 else 1 + FirstMatch(es[1..], chk, raw)
  }

  /** The buffer after one record, and the record's local copy as the pass fills it in. */
  datatype Added = Added(buf: seq<byte>, entry: YpfEntry)

  /**
   * One turn of the payload loop for the record `e`, with `es` the sorted
   * records and `buf` the payload buffer so far. The inner loop writes the
   * payload once for every record before the first one with the same data.
   */
  function PayloadStep(buf: seq<byte>, es: seq<YpfEntry>, e: YpfEntry, dirSize: u32, version: int,
                       read: GoString -> Option<seq<byte>>, compress: seq<byte> -> seq<byte>,
                       dataSum: seq<byte> -> u32): (r: Result<Added, PackError>)
    ensures r.Err? ==> r.error in {ReadFailed, FileTooLarge, FileEmpty, OutputTooLong}
    ensures r.Err? && r.error != OutputTooLong <==> BadFile(read(SourcePath(e)))
    ensures r == Err(OutputTooLong) ==> version < WideVersion
    ensures r.Ok? ==> read(SourcePath(e)).Some? && 0 < |read(SourcePath(e)).value| < 0x1_0000_0000
    ensures r.Ok? ==> |buf| <= |r.value.buf|
  {
    match read(SourcePath(e))
    case None => Err(ReadFailed)
    case Some(fileBytes) =>
      if |fileBytes| > 0xFFFF_FFFF then Err(FileTooLarge)
      else if |fileBytes| == 0 then Err(FileEmpty)
      else
        var stored := StoredForm(fileBytes, compress);
        var chk := dataSum(stored);
        var m := FirstMatch(es, chk, |fileBytes|);
        var offset: u64 := if m < |es| then es[m].offset else ToU32(ToU32(|buf|) + dirSize);
        var buf' := buf + Repeat(stored, m);
        var entry := e.(offset := offset, rawFileSize := |fileBytes|, compressedFileSize := |stored|,
                        dataChecksum := chk, isCompressed := if stored == fileBytes then 0 else 1);
        if version < WideVersion && |buf'| > 0xFFFF_FFFF then Err(OutputTooLong) else Ok(Added(buf', entry))
  }

  /** One turn of the payload loop over the sorted records `es`, as a function of the buffer and the record. */
  function PayloadStepper(es: seq<YpfEntry>, dirSize: u32, version: int,
                          read: GoString -> Option<seq<byte>>, compress: seq<byte> -> seq<byte>,
                          dataSum: seq<byte> -> u32): (seq<byte>, YpfEntry) -> Result<Added, PackError>
  {
    (buf, e) => PayloadStep(buf, es, e, dirSize, version, read, compress, dataSum)
  }

  /** The payload buffer after the first n records, or the first failure. */
  function Payloads(es: seq<YpfEntry>, n: nat, step: (seq<byte>, YpfEntry) -> Result<Added, PackError>)
    : (r: Result<seq<byte>, PackError>)
    requires n <= |es|
    ensures r.Err? ==> exists buf, k :: 0 <= k < n && step(buf, es[k]) == Err(r.error)
    decreases n
  {
    if n == 0 then Ok([])
    else
      var prev := Payloads(es, n - 1, step);
      if prev.Err? then prev
      else
        var next := step(prev.value, es[n - 1]);
        if next.Err? then Err(next.error) else Ok(next.value.buf)
  }

  /**
   * The inner loop of YpfDef.go:290-297 (or 302-309): the payload is written
   * once per record until one has the same data, whose offset is then taken.
   */
  method WriteUntilMatch(entries: array<YpfEntry>, entry: YpfEntry, stored: seq<byte>, out: seq<byte>)
    returns (out': seq<byte>, offset: u64)
    ensures var m := FirstMatch(entries[..], entry.dataChecksum, entry.rawFileSize);
      out' == out + Repeat(stored, m) && offset == if m < entries.Length then entries[m].offset else entry.offset
  {
    ghost var m := FirstMatch(entries[..], entry.dataChecksum, entry.rawFileSize);
    out', offset := out, entry.offset;
    var j := 0;
    while j < entries.Length
      invariant 0 <= j <= m
      invariant out' == out + Repeat(stored, j)
      invariant offset == entry.offset
    {
      var e := entries[j];
      if e.dataChecksum == entry.dataChecksum && e.rawFileSize == entry.rawFileSize {
        offset := e.offset;
        return;
      }
      out' := out' + stored;
      j := j + 1;
    }
  }

  /**
   * One turn of the payload loop. It works on a copy of the record (`range`
   * yields values), fills the copy in and drops it: the method has no right
   * to modify `entries`.
   */
  method AddPayload(entries: array<YpfEntry>, entry: YpfEntry, out: seq<byte>, dirSize: u32, version: int,
                    read: GoString -> Option<seq<byte>>, compress: seq<byte> -> seq<byte>,
                    dataSum: seq<byte> -> u32) returns (r: Result<Added, PackError>)
    ensures r == PayloadStep(out, entries[..], entry, dirSize, version, read, compress, dataSum)
  {
    var got := read(SourcePath(entry));
    if got.None? {
      return Err(ReadFailed);
    }
    var fileBytes := got.value;
    if |fileBytes| > 0xFFFF_FFFF {
      return Err(FileTooLarge);
    }
    if |fileBytes| == 0 {
      return Err(FileEmpty);
    }
    var copy := entry.(offset := ToU32(ToU32(|out|) + dirSize), rawFileSize := |fileBytes|);
    var compressed := compress(fileBytes);
    var stored := fileBytes;
    if |compressed| < |fileBytes| {
      stored := compressed;
    }
    copy := copy.(dataChecksum := dataSum(stored));
    var out', offset := WriteUntilMatch(entries, copy, stored, out);
    copy := copy.(offset := offset, compressedFileSize := |stored|,
                  isCompressed := if |compressed| < |fileBytes| then 1 else 0);
    if version < WideVersion && |out'| > 0xFFFF_FFFF {
      return Err(OutputTooLong);
    }
    return Ok(Added(out', copy));
  }

  /** The payload loop of YpfDef.go:262-318 over the sorted records. */
  method AddPayloads(entries: array<YpfEntry>, dirSize: u32, version: int,
                     read: GoString -> Option<seq<byte>>, compress: seq<byte> -> seq<byte>,
                     dataSum: seq<byte> -> u32) returns (r: Result<seq<byte>, PackError>)
    ensures r == Payloads(entries[..], entries.Length, PayloadStepper(entries[..], dirSize, version, read, compress, dataSum))
  {
    ghost var es := entries[..];
    ghost var stepper := PayloadStepper(es, dirSize, version, read, compress, dataSum);
    var out: seq<byte> := [];
    var i := 0;
    while i < entries.Length
      invariant 0 <= i <= entries.Length
      invariant Payloads(es, i, stepper) == Ok(out)
    {
      var step := AddPayload(entries, entries[i], out, dirSize, version, read, compress, dataSum);
      if step.Err? {
        PayloadsStayFailed(es, i + 1, stepper);
        return Err(step.error);
      }
      out := step.value.buf;
      i := i + 1;
    }
    r := Ok(out);
  }

  /** Once a prefix has failed, the whole pass fails the same way. */
  lemma {:induction false} PayloadsStayFailed(es: seq<YpfEntry>, k: nat, step: (seq<byte>, YpfEntry) -> Result<Added, PackError>)
    requires k <= |es| && Payloads(es, k, step).Err?
    ensures Payloads(es, |es|, step) == Payloads(es, k, step)
    decreases |es| - k
  {
    if k < |es| {
      PayloadsStayFailed(es, k + 1, step);
    }
  }

  /** As written, no record has the data of a payload: their raw sizes are all zero and files are never empty. */
  lemma DedupNeverMatches(es: seq<YpfEntry>, chk: u32, raw: u32)
    requires raw > 0
    requires forall k :: 0 <= k < |es| ==> es[k].rawFileSize == 0
    ensures FirstMatch(es, chk, raw) == |es|
  {
  }

  /**
   * So, as written, every payload is written once per record: an archive of
   * n files carries each file n times.
   */
  lemma PayloadWrittenPerRecord(buf: seq<byte>, es: seq<YpfEntry>, e: YpfEntry, dirSize: u32, version: int,
                                read: GoString -> Option<seq<byte>>, compress: seq<byte> -> seq<byte>,
                                dataSum: seq<byte> -> u32)
    requires forall k :: 0 <= k < |es| ==> es[k].rawFileSize == 0
    requires PayloadStep(buf, es, e, dirSize, version, read, compress, dataSum).Ok?
    ensures PayloadStep(buf, es, e, dirSize, version, read, compress, dataSum).value.buf
            == buf + Repeat(StoredForm(read(SourcePath(e)).value, compress), |es|)
  {
    var fileBytes := read(SourcePath(e)).value;
    DedupNeverMatches(es, dataSum(StoredForm(fileBytes, compress)), |fileBytes|);
  }

  /** The payload buffer as written: every file's stored form, each repeated once per record. */
  function RepeatedPayloads(es: seq<YpfEntry>, n: nat, read: GoString -> Option<seq<byte>>,
                            compress: seq<byte> -> seq<byte>): seq<byte>
    requires n <= |es|
    decreases n
  {
    if n == 0 then []
    else
      var tail := match read(SourcePath(es[n - 1]))
        case None => []
        case Some(fileBytes) => Repeat(StoredForm(fileBytes, compress), |es|);
      RepeatedPayloads(es, n - 1, read, compress) + tail
  }

  /** Over records whose raw sizes are all zero, the whole pass writes RepeatedPayloads. */
  lemma {:induction false} PayloadsAsWritten(es: seq<YpfEntry>, n: nat, dirSize: u32, version: int,
                                             read: GoString -> Option<seq<byte>>, compress: seq<byte> -> seq<byte>,
                                             dataSum: seq<byte> -> u32)
    requires n <= |es|
    requires forall k :: 0 <= k < |es| ==> es[k].rawFileSize == 0
    requires Payloads(es, n, PayloadStepper(es, dirSize, version, read, compress, dataSum)).Ok?
    ensures Payloads(es, n, PayloadStepper(es, dirSize, version, read, compress, dataSum)).value
            == RepeatedPayloads(es, n, read, compress)
    decreases n
  {
    if n > 0 {
      var stepper := PayloadStepper(es, dirSize, version, read, compress, dataSum);
      var prev := Payloads(es, n - 1, stepper);
      assert prev.Ok?;
      PayloadsAsWritten(es, n - 1, dirSize, version, read, compress, dataSum);
      assert stepper(prev.value, es[n - 1]) == PayloadStep(prev.value, es, es[n - 1], dirSize, version, read, compress, dataSum);
      PayloadWrittenPerRecord(prev.value, es, es[n - 1], dirSize, version, read, compress, dataSum);
    }
  }

  /**
   * The payload step as evidently intended: the record is filled in where it
   * lies, and the payload is written once, unless one of the records already
   * filled in (`prev`) holds the same data, whose offset is then shared.
   */
  function PayloadStepCorrected(buf: seq<byte>, prev: seq<YpfEntry>, e: YpfEntry, dirSize: u32, version: int,
                                read: GoString -> Option<seq<byte>>, compress: seq<byte> -> seq<byte>,
                                dataSum: seq<byte> -> u32): (r: Result<Added, PackError>)
    ensures r.Err? ==> r.error in {ReadFailed, FileTooLarge, FileEmpty, OutputTooLong}
  {
    match read(SourcePath(e))
    case None => Err(ReadFailed)
    case Some(fileBytes) =>
      if |fileBytes| > 0xFFFF_FFFF then Err(FileTooLarge)
      else if |fileBytes| == 0 then Err(FileEmpty)
      else
        var placed := Placed(buf, prev, e, dirSize, fileBytes, compress, dataSum);
        if version < WideVersion && |placed.buf| > 0xFFFF_FFFF then Err(OutputTooLong) else Ok(placed)
  }

  /** The buffer and the filled-in record of the corrected step, once the file was read. */
  function Placed(buf: seq<byte>, prev: seq<YpfEntry>, e: YpfEntry, dirSize: u32, fileBytes: seq<byte>,
                  compress: seq<byte> -> seq<byte>, dataSum: seq<byte> -> u32): Added
    requires 0 < |fileBytes| <= 0xFFFF_FFFF
  {
    var stored := StoredForm(fileBytes, compress);
    var chk := dataSum(stored);
    var m := FirstMatch(prev, chk, |fileBytes|);
    var offset: u64 := if m < |prev| then prev[m].offset else ToU32(ToU32(|buf|) + dirSize);
    var buf' := if m < |prev| then buf else buf + stored;
    Added(buf', e.(offset := offset, rawFileSize := |fileBytes|, compressedFileSize := |stored|,
                   dataChecksum := chk, isCompressed := if stored == fileBytes then 0 else 1))
  }

  /** A corrected step that succeeds read the file, whose size is in range, and placed it. */
  lemma CorrectedStepPlaces(buf: seq<byte>, prev: seq<YpfEntry>, e: YpfEntry, dirSize: u32, version: int,
                            read: GoString -> Option<seq<byte>>, compress: seq<byte> -> seq<byte>,
                            dataSum: seq<byte> -> u32)
    requires PayloadStepCorrected(buf, prev, e, dirSize, version, read, compress, dataSum).Ok?
    ensures read(SourcePath(e)).Some? && 0 < |read(SourcePath(e)).value| <= 0xFFFF_FFFF
    ensures PayloadStepCorrected(buf, prev, e, dirSize, version, read, compress, dataSum)
      == Ok(Placed(buf, prev, e, dirSize, read(SourcePath(e)).value, compress, dataSum))
  {
  }

  /**
   * The corrected record locates its payload: with `head` the header and
   * directory written before the payloads, a new payload is appended once and
   * the record's offset points at it; a repeated payload shares the offset of
   * the earlier record with the same data and adds nothing.
   */
  lemma PlacedLocatesPayload(head: seq<byte>, buf: seq<byte>, prev: seq<YpfEntry>, e: YpfEntry, fileBytes: seq<byte>,
                             compress: seq<byte> -> seq<byte>, dataSum: seq<byte> -> u32)
    requires |head| + |buf| < 0x1_0000_0000 && 0 < |fileBytes| <= 0xFFFF_FFFF
    ensures var r := Placed(buf, prev, e, |head|, fileBytes, compress, dataSum);
      var stored := StoredForm(fileBytes, compress);
      var m := FirstMatch(prev, dataSum(stored), |fileBytes|);
      r.entry.rawFileSize == |fileBytes| && r.entry.compressedFileSize == |stored|
      && r.entry.dataChecksum == dataSum(stored) && (r.entry.isCompressed == 0 <==> stored == fileBytes)
      && (m == |prev| ==> r.buf == buf + stored && r.entry.offset == |head| + |buf|
                          && (head + r.buf)[r.entry.offset..r.entry.offset + r.entry.compressedFileSize] == stored)
      && (m < |prev| ==> r.buf == buf && r.entry.offset == prev[m].offset)
  {
    var stored := StoredForm(fileBytes, compress);
    if FirstMatch(prev, dataSum(stored), |fileBytes|) == |prev| {
      AppendedAt(head + buf, stored);
      assert head + (buf + stored) == (head + buf) + stored;
    }
  }

  /** What is appended to a sequence sits right after it. */
  lemma AppendedAt(p: seq<byte>, s: seq<byte>)
    ensures (p + s)[|p|..|p| + |s|] == s
  {
  }

  /**
   * So the corrected archive gives each file back: a record whose payload was
   * appended after a valid header of version v, with the data checksum of
   * that version, extracts to the file's bytes with no error, when stored
   * plainly or when zlib inflates the stored form back to the file.
   */
  lemma PlacedExtracts(head: seq<byte>, v: u32, buf: seq<byte>, prev: seq<YpfEntry>, e: YpfEntry, fileBytes: seq<byte>,
                       compress: seq<byte> -> seq<byte>, inflate: (seq<byte>, nat) -> Option<seq<byte>>)
    requires |head| >= HeaderSize && head[..4] == YpfMagic && LeValue(head[4..8]) == v
    requires |head| + |buf| < 0x1_0000_0000 && 0 < |fileBytes| <= 0xFFFF_FFFF
    requires FirstMatch(prev, DataSum(v)(StoredForm(fileBytes, compress)), |fileBytes|) == |prev|
    ensures var r := Placed(buf, prev, e, |head|, fileBytes, compress, DataSum(v));
      r.entry.isCompressed == 0 || inflate(StoredForm(fileBytes, compress), |fileBytes|) == Some(fileBytes) ==>
        ExtractFileSpec(head + r.buf, r.entry, inflate) == Extracted(fileBytes, None)
  {
    var r := Placed(buf, prev, e, |head|, fileBytes, compress, DataSum(v));
    PlacedLocatesPayload(head, buf, prev, e, fileBytes, compress, DataSum(v));
    HeaderKept(head, r.buf, v);
    ExtractsStored(head + r.buf, v, r.entry, StoredForm(fileBytes, compress), fileBytes, inflate);
  }

  /** A record of a valid archive whose payload bytes are in place and whose checksum fits extracts to the file. */
  lemma ExtractsStored(data: seq<byte>, v: u32, entry: YpfEntry, stored: seq<byte>, fileBytes: seq<byte>,
                       inflate: (seq<byte>, nat) -> Option<seq<byte>>)
    requires var h := HeaderOf(FullRead(data, 0, HeaderSize)); h.meta.magic == YpfMagic && h.meta.version == v
    requires PartialRead(data, PayloadPos(entry), entry.compressedFileSize) == stored
    requires entry.dataChecksum == ChecksumByVersion(stored, v, false)
    requires entry.rawFileSize == |fileBytes| && entry.isCompressed <= 1 && (entry.isCompressed == 0 ==> stored == fileBytes)
    ensures entry.isCompressed == 0 || inflate(stored, |fileBytes|) == Some(fileBytes) ==>
      ExtractFileSpec(data, entry, inflate) == Extracted(fileBytes, None)
  {
    if entry.isCompressed != 0 && inflate(stored, |fileBytes|) == Some(fileBytes) {
      assert Filled(fileBytes, |fileBytes|) == fileBytes;
    }
  }

  /** Bytes appended after a valid header leave the header as it was. */
  lemma HeaderKept(head: seq<byte>, t: seq<byte>, v: u32)
    requires |head| >= HeaderSize && head[..4] == YpfMagic && LeValue(head[4..8]) == v
    ensures var h := HeaderOf(FullRead(head + t, 0, HeaderSize)); h.meta.magic == YpfMagic && h.meta.version == v
  {
    var data := head + t;
    assert FullRead(data, 0, HeaderSize) == head[..HeaderSize];
    PrefixOfPrefix(head, HeaderSize, 8);
    PrefixOfPrefix(head, 8, 4);
    SliceOfPrefix(head, 8, 4, 8);
  }

  // ---------------------------------------------------------------------------
  // The directory (YpfDef.go:319-345)

  /** The header `packYpf` writes: version, count and size are set, the magic stays zero. */
  function PackHeader(v: u32, fileCount: nat, dirSize: u32): (h: YpfHeader)
    ensures |h.meta.magic| == 4 && |h.unk| == 16
    ensures h.meta.magic != YpfMagic
  {
    assert Zeros(4)[0] != YpfMagic[0];
    YpfHeader(GenericHeader(Zeros(4), v), ToU32(fileCount), dirSize, Zeros(16))
  }

  /** The offset field: its low 32 bits before version 479, all 64 from then on. */
  function OffsetBytes(offset: u64, version: int): (b: seq<byte>)
    ensures |b| == if version < WideVersion then 4 else 8
  {
    if version < WideVersion then LeBytes(ToU32(offset), 4) else LeBytes(offset, 8)
  }

  /** The size of a record whose encoded name has n bytes. */
  function RecordLength(n: nat, version: int): nat
  {
    23 + n + if version < WideVersion then 0 else 4
  }

  /**
   * The byte layout of a record: the name checksum, the length byte, the
   * stored name, type, flag, the two sizes, the offset and the data checksum.
   */
  function RecordFields(e: YpfEntry, version: int, lengthByte: byte, stored: seq<byte>): (b: seq<byte>)
    ensures |b| == RecordLength(|stored|, version)
  {
    LeBytes(e.nameChecksum, 4) + [lengthByte] + stored + TailFields(e, version)
  }

  /** The fields after the name: type, flag, the two sizes, the offset and the data checksum. */
  function TailFields(e: YpfEntry, version: int): (b: seq<byte>)
    ensures |b| == 18 + if version < WideVersion then 0 else 4
  {
    LeBytes(e.fileType, 1) + (LeBytes(e.isCompressed, 1) + (LeBytes(e.rawFileSize, 4)
    + (LeBytes(e.compressedFileSize, 4) + (OffsetBytes(e.offset, version) + LeBytes(e.dataChecksum, 4)))))
  }

  /**
   * One record as `packYpf` writes it: the name in the code page, its length
   * byte taken from the swapping table, and the name ciphered with the key.
   */
  function RecordAsWritten(e: YpfEntry, version: int, encode: GoString -> seq<byte>): (r: Result<seq<byte>, PackError>)
    ensures r.Err? <==> |encode(e.fileName)| > 0xFF
    ensures r.Err? ==> r.error == NameTooLong
    ensures r.Ok? ==> |r.value| == RecordLength(|encode(e.fileName)|, version)
  {
    var name := encode(e.fileName);
    if |name| > 0xFF then Err(NameTooLong)
    else
      var v := ToU32(version);
      Ok(RecordFields(e, version, EncodeLengthAsWritten(v, ToByte(|name|)), CipherName(name, FileNameEncryptionKey(v))))
  }

  /**
   * As written, the reader takes the wrong number of name bytes from every
   * record: it complements the length byte before the table lookup, and the
   * writer did not complement it.
   */
  lemma RecordAsWrittenMisreadsName(data: seq<byte>, pos: nat, e: YpfEntry, version: int, encode: GoString -> seq<byte>)
    requires RecordAsWritten(e, version, encode).Ok?
    requires var rec := RecordAsWritten(e, version, encode).value; pos + |rec| <= |data| && data[pos..pos + |rec|] == rec
    ensures |StoredNameAt(data, pos + 4, ToU32(version)).0| != |encode(e.fileName)|
  {
    var name := encode(e.fileName);
    var v := ToU32(version);
    var lb := EncodeLengthAsWritten(v, ToByte(|name|));
    var rec := RecordFields(e, version, lb, CipherName(name, FileNameEncryptionKey(v)));
    assert rec[4] == lb;
    assert data[pos + 4] == rec[4];
    assert FullRead(data, pos + 4, 1)[0] == lb;
    LengthAsWrittenNeverRoundTrips(v, ToByte(|name|));
  }

  /** The record as evidently intended: the length byte complemented, as the reader expects. */
  function RecordCorrected(e: YpfEntry, version: int, encode: GoString -> seq<byte>): (r: Result<seq<byte>, PackError>)
    ensures r.Err? <==> |encode(e.fileName)| > 0xFF
    ensures r.Ok? ==> |r.value| == RecordLength(|encode(e.fileName)|, version)
  {
    var name := encode(e.fileName);
    if |name| > 0xFF then Err(NameTooLong)
    else
      var v := ToU32(version);
      Ok(RecordFields(e, version, EncodeLength(v, ToByte(|name|)), CipherName(name, FileNameEncryptionKey(v))))
  }

  /**
   * The corrected record reads back through the directory parser: the same
   * checksum, the decoded name, the same fields (the offset cut to 32 bits
   * before version 479), and the reader ends just past the record. The stored
   * checksum must be the one of the encoded name, which the reader recomputes.
   */
  lemma CorrectedRecordReadsBack(data: seq<byte>, pos: nat, e: YpfEntry, version: int,
                                 encode: GoString -> seq<byte>, decode: GoString -> GoString)
    requires 0 <= version < 0x1_0000_0000
    requires RecordCorrected(e, version, encode).Ok?
    requires pos <= |data| && RecordCorrected(e, version, encode).value <= data[pos..]
    requires e.nameChecksum == ChecksumByVersion(encode(e.fileName), version, true)
    ensures EntryAt(data, pos, version, decode)
      == (Ok(e.(fileName := decode(encode(e.fileName)), offset := if version < WideVersion then ToU32(e.offset) else e.offset)),
          pos + RecordLength(|encode(e.fileName)|, version))
  {
    var v: u32 := version;
    var name := encode(e.fileName);
    var lb := EncodeLength(v, ToByte(|name|));
    var stored := CipherName(name, FileNameEncryptionKey(v));
    LengthRoundTrip(v, ToByte(|name|));
    NameCipherRoundTrip(name, FileNameEncryptionKey(v));
    if version < WideVersion {
      RecordReadsBack(data, pos, e, v, decode, name, lb, stored);
    } else {
      RecordReadsBack(data, pos, e, v, decode, name, lb, stored);
    }
  }

  /**
   * Any record whose length byte decodes to the length of its stored name,
   * whose stored name deciphers to `name` and whose checksum is the one of
   * `name` reads back through the directory parser.
   */
  lemma RecordReadsBack(data: seq<byte>, pos: nat, e: YpfEntry, version: u32, decode: GoString -> GoString,
                        name: seq<byte>, lb: byte, stored: seq<byte>)
    requires DecodeLength(version, lb) as int == |stored|
    requires DecipherName(stored, FileNameEncryptionKey(version)) == name
    requires e.nameChecksum == ChecksumByVersion(name, version, true)
    requires pos <= |data| && RecordFields(e, version, lb, stored) <= data[pos..]
    ensures EntryAt(data, pos, version, decode)
      == (Ok(e.(fileName := decode(name), offset := if version < WideVersion then ToU32(e.offset) else e.offset)),
          pos + |RecordFields(e, version, lb, stored)|)
  {
    RecordLayout(data, pos, e, version, lb, stored);
    PartsReadBack(data, pos, version, decode, e, stored, name, lb, pos + 5 + |stored|,
                  pos + |RecordFields(e, version, lb, stored)|);
  }

  /** The checksum, the length byte, the stored name and the fields after it, in place at `pos`. */
  predicate PartsAt(data: seq<byte>, pos: nat, e: YpfEntry, version: u32, lb: byte, stored: seq<byte>)
  {
    var q := pos + 5 + |stored|;
    q <= |data| && data[pos..pos + 4] == LeBytes(e.nameChecksum, 4) && data[pos + 4..pos + 5] == [lb]
    && data[pos + 5..q] == stored && TailAt(data, q, e, version)
  }

  /** The fields after the name in place at `p`. */
  predicate TailAt(data: seq<byte>, p: nat, e: YpfEntry, version: u32)
  {
    p + |TailFields(e, version)| <= |data| && data[p..p + |TailFields(e, version)|] == TailFields(e, version)
  }

  /** The reads of `EntryAt` over the parts of a record, once they are in place. */
  lemma PartsReadBack(data: seq<byte>, pos: nat, version: u32, decode: GoString -> GoString, e: YpfEntry,
                      stored: seq<byte>, name: seq<byte>, lb: byte, q: nat, end: nat)
    requires q == pos + 5 + |stored| && end == q + |TailFields(e, version)|
    requires PartsAt(data, pos, e, version, lb, stored)
    requires DecodeLength(version, lb) as int == |stored|
    requires DecipherName(stored, FileNameEncryptionKey(version)) == name
    requires e.nameChecksum == ChecksumByVersion(name, version, true)
    ensures EntryAt(data, pos, version, decode)
      == (Ok(e.(fileName := decode(name), offset := if version < WideVersion then ToU32(e.offset) else e.offset)), end)
  {
    var offset := if version < WideVersion then ToU32(e.offset) else e.offset;
    HeadPartsRead(data, pos, e, version, lb, stored);
    TailReadsBack(data, q, e, version);
    EntryAtParts(data, pos, version, decode, e.nameChecksum, stored, q, TailOf(e, version),
                 end, decode(name), e.(fileName := decode(name), offset := offset));
  }

  /** The first two reads of `EntryAt` over the parts in place: the checksum and the stored name. */
  lemma HeadPartsRead(data: seq<byte>, pos: nat, e: YpfEntry, version: u32, lb: byte, stored: seq<byte>)
    requires PartsAt(data, pos, e, version, lb, stored)
    requires DecodeLength(version, lb) as int == |stored|
    ensures ReadUintAt(data, pos, 4) == (e.nameChecksum, pos + 4)
    ensures StoredNameAt(data, pos + 4, version) == (stored, pos + 5 + |stored|)
  {
    HeadReadsBack(data, pos, version, e.nameChecksum, stored, lb, pos + 5 + |stored|);
  }

  /** The fields after the name as the reader returns them: the offset in its width. */
  function TailOf(e: YpfEntry, version: u32): EntryTail
  {
    EntryTail(e.fileType, e.isCompressed, e.rawFileSize, e.compressedFileSize,
              if version < WideVersion then ToU32(e.offset) else e.offset, e.dataChecksum)
  }

  /** The checksum and the stored name of a record read back. */
  lemma HeadReadsBack(data: seq<byte>, pos: nat, version: u32, checksum: u32, stored: seq<byte>, lb: byte, q: nat)
    requires q == pos + 5 + |stored| && q <= |data|
    requires data[pos..pos + 4] == LeBytes(checksum, 4) && data[pos + 4..pos + 5] == [lb] && data[pos + 5..q] == stored
    requires DecodeLength(version, lb) as int == |stored|
    ensures ReadUintAt(data, pos, 4) == (checksum, pos + 4)
    ensures StoredNameAt(data, pos + 4, version) == (stored, q)
  {
    Pow256Values();
    ReadUintBack(data, pos, checksum, 4);
    StoredNameBack(data, pos + 4, version, lb, stored);
  }

  /** Where the parts of a record lie in the data. */
  lemma RecordLayout(data: seq<byte>, pos: nat, e: YpfEntry, version: u32, lb: byte, stored: seq<byte>)
    requires pos <= |data| && RecordFields(e, version, lb, stored) <= data[pos..]
    ensures |RecordFields(e, version, lb, stored)| == 5 + |stored| + |TailFields(e, version)|
    ensures PartsAt(data, pos, e, version, lb, stored)
  {
    var rec := RecordFields(e, version, lb, stored);
    assert data[pos..pos + |rec|] == rec;
    SplitRecord(data, pos, pos + 5 + |stored|, LeBytes(e.nameChecksum, 4), lb, stored, TailFields(e, version));
  }

  lemma SplitRecord(data: seq<byte>, pos: nat, q: nat, cs: seq<byte>, lb: byte, stored: seq<byte>, tail: seq<byte>)
    requires |cs| == 4 && q == pos + 5 + |stored|
    requires var n := 5 + |stored| + |tail|; pos + n <= |data| && data[pos..pos + n] == cs + [lb] + stored + tail
    ensures data[pos..pos + 4] == cs && data[pos + 4..pos + 5] == [lb]
    ensures data[pos + 5..q] == stored
    ensures q + |tail| <= |data| && data[q..q + |tail|] == tail
  {
    var n := 5 + |stored| + |tail|;
    var w := data[pos..pos + n];
    assert w[..4] == cs;
    assert data[pos..pos + 4] == w[..4];
    assert w[4..5] == [lb];
    assert data[pos + 4..pos + 5] == w[4..5];
    assert w[5..5 + |stored|] == stored;
    assert data[pos + 5..pos + 5 + |stored|] == w[5..5 + |stored|];
    assert w[5 + |stored|..] == tail;
    assert data[pos + 5 + |stored|..pos + n] == w[5 + |stored|..];
  }

  /** `EntryAt` in terms of its three reads, when the name check passes. */
  lemma EntryAtParts(data: seq<byte>, pos: nat, version: u32, decode: GoString -> GoString,
                     checksum: u32, stored: seq<byte>, p1: nat, t: EntryTail, p2: nat, name: GoString, entry: YpfEntry)
    requires ReadUintAt(data, pos, 4) == (checksum, pos + 4)
    requires StoredNameAt(data, pos + 4, version) == (stored, p1)
    requires checksum == ChecksumByVersion(DecipherName(stored, FileNameEncryptionKey(version)), version, true)
    requires EntryTailAt(data, p1, version) == (t, p2)
    requires name == decode(DecipherName(stored, FileNameEncryptionKey(version)))
    requires entry == YpfEntry(checksum, name, t.fileType, t.isCompressed, t.rawFileSize, t.compressedFileSize,
                               t.offset, t.dataChecksum)
    ensures EntryAt(data, pos, version, decode) == (Ok(entry), p2)
  {
  }

  /** Bytes laid out one after another at `p` are found there one after another. */
  lemma SplitAt(data: seq<byte>, p: nat, a: seq<byte>, b: seq<byte>)
    requires p + |a| + |b| <= |data| && data[p..p + |a| + |b|] == a + b
    ensures data[p..p + |a|] == a && data[p + |a|..p + |a| + |b|] == b
  {
    assert data[p..p + |a|] == data[p..p + |a| + |b|][..|a|];
    assert data[p + |a|..p + |a| + |b|] == data[p..p + |a| + |b|][|a|..];
  }

  /** An integer written at `q` is read back there. */
  lemma ReadUintBack(data: seq<byte>, q: nat, x: nat, n: nat)
    requires q + n <= |data| && x < Pow256(n) && data[q..q + n] == LeBytes(x, n)
    ensures ReadUintAt(data, q, n) == (x, q + n)
  {
    LeValueOfLeBytes(x, n);
  }

  /** A length byte that decodes to the length of the bytes after it makes the reader take exactly those bytes. */
  lemma StoredNameBack(data: seq<byte>, q: nat, v: u32, lb: byte, stored: seq<byte>)
    requires q + 1 + |stored| <= |data| && data[q..q + 1] == [lb] && data[q + 1..q + 1 + |stored|] == stored
    requires DecodeLength(v, lb) as int == |stored|
    ensures StoredNameAt(data, q, v) == (stored, q + 1 + |stored|)
  {
    assert FullRead(data, q, 1)[0] == lb;
  }

  /** The fields after the name read back, the offset cut to 32 bits before version 479. */
  lemma TailReadsBack(data: seq<byte>, p: nat, e: YpfEntry, version: u32)
    requires TailAt(data, p, e, version)
    ensures EntryTailAt(data, p, version) == (TailOf(e, version), p + |TailFields(e, version)|)
  {
    Pow256Values();
    var off := OffsetBytes(e.offset, version);
    var r5 := off + LeBytes(e.dataChecksum, 4);
    var r4 := LeBytes(e.compressedFileSize, 4) + r5;
    var r3 := LeBytes(e.rawFileSize, 4) + r4;
    var r2 := LeBytes(e.isCompressed, 1) + r3;
    SplitAt(data, p, LeBytes(e.fileType, 1), r2);
    ReadUintBack(data, p, e.fileType, 1);
    SplitAt(data, p + 1, LeBytes(e.isCompressed, 1), r3);
    ReadUintBack(data, p + 1, e.isCompressed, 1);
    SplitAt(data, p + 2, LeBytes(e.rawFileSize, 4), r4);
    ReadUintBack(data, p + 2, e.rawFileSize, 4);
    SplitAt(data, p + 6, LeBytes(e.compressedFileSize, 4), r5);
    ReadUintBack(data, p + 6, e.compressedFileSize, 4);
    SplitAt(data, p + 10, off, LeBytes(e.dataChecksum, 4));
    if version < WideVersion {
      ReadUintBack(data, p + 10, ToU32(e.offset), 4);
    } else {
      ReadUintBack(data, p + 10, e.offset, 8);
    }
    ReadUintBack(data, p + 10 + |off|, e.dataChecksum, 4);
  }

  /** The record writer of a version and code page. */
  function RecordWriter(version: int, encode: GoString -> seq<byte>): YpfEntry -> Result<seq<byte>, PackError>
  {
    e => RecordAsWritten(e, version, encode)
  }

  /** The first n records one after another, or the first failure. */
  function DirectoryFrom(es: seq<YpfEntry>, n: nat, record: YpfEntry -> Result<seq<byte>, PackError>)
    : (r: Result<seq<byte>, PackError>)
    requires n <= |es|
    ensures r.Err? ==> exists k :: 0 <= k < n && r == record(es[k])
    decreases n
  {
    if n == 0 then Ok([])
    else
      var prev := DirectoryFrom(es, n - 1, record);
      if prev.Err? then prev
      else
        var rec := record(es[n - 1]);
        if rec.Err? then Err(rec.error) else Ok(prev.value + rec.value)
  }

  /** The in-place cipher loop of YpfDef.go:331-333. */
  method CipherInPlace(a: array<byte>, key: byte)
    modifies a
    ensures a[..] == CipherName(old(a[..]), key)
  {
    var j := 0;
    while j < a.Length
      invariant 0 <= j <= a.Length
      invariant a[..j] == CipherName(old(a[..j]), key)
      invariant a[j..] == old(a[j..])
    {
      ghost var before := a[..];
      a[j] := CipherByte(a[j], key);
      assert a[..j + 1] == CipherName(old(a[..j + 1]), key);
      assert a[j + 1..] == before[j + 1..];
      j := j + 1;
    }
    assert a[..] == a[..j];
  }

  /** The writes of one record (YpfDef.go:323-344). */
  method WriteRecord(e: YpfEntry, version: int, encode: GoString -> seq<byte>) returns (r: Result<seq<byte>, PackError>)
    ensures r == RecordAsWritten(e, version, encode)
  {
    var name := encode(e.fileName);
    if |name| > 0xFF {
      return Err(NameTooLong);
    }
    var v := ToU32(version);
    var table := LengthSwappingTable(v);
    var lb := ToByte(|name|);
    var lengthEncoded := IndexOfByte(table, lb);
    IndexOfByteInTable(v, lb, lengthEncoded);
    var encodedName := new byte[|name|](k requires 0 <= k < |name| => name[k]);
    assert encodedName[..] == name;
    CipherInPlace(encodedName, FileNameEncryptionKey(v));
    r := Ok(RecordFields(e, version, lengthEncoded, encodedName[..]));
  }

  /** The record loop of YpfDef.go:322-345. */
  method WriteDirectory(entries: array<YpfEntry>, version: int, encode: GoString -> seq<byte>)
    returns (r: Result<seq<byte>, PackError>)
    ensures r == DirectoryFrom(entries[..], entries.Length, RecordWriter(version, encode))
  {
    ghost var es := entries[..];
    var dir: seq<byte> := [];
    var i := 0;
    while i < entries.Length
      invariant 0 <= i <= entries.Length
      invariant DirectoryFrom(es, i, RecordWriter(version, encode)) == Ok(dir)
    {
      var rec := WriteRecord(entries[i], version, encode);
      if rec.Err? {
        DirectoryStaysFailed(es, i + 1, RecordWriter(version, encode));
        return rec;
      }
      dir := dir + rec.value;
      i := i + 1;
    }
    r := Ok(dir);
  }

  lemma {:induction false} DirectoryStaysFailed(es: seq<YpfEntry>, k: nat, record: YpfEntry -> Result<seq<byte>, PackError>)
    requires k <= |es| && DirectoryFrom(es, k, record).Err?
    ensures DirectoryFrom(es, |es|, record) == DirectoryFrom(es, k, record)
    decreases |es| - k
  {
    if k < |es| {
      DirectoryStaysFailed(es, k + 1, record);
    }
  }

  // ---------------------------------------------------------------------------
  // Putting it together (YpfDef.go:346-350)

  /**
   * Everything after the sort: the payload pass, the header and the records,
   * the check of the directory size against the header, and the archive.
   */
  function PackFinish(sorted: seq<YpfEntry>, fileCount: nat, dirSize: u32, version: int,
                      read: GoString -> Option<seq<byte>>, compress: seq<byte> -> seq<byte>,
                      encode: GoString -> seq<byte>, dataSum: seq<byte> -> u32): (r: Result<seq<byte>, PackError>)
    ensures r.Err? ==> r.error in {ReadFailed, FileTooLarge, FileEmpty, OutputTooLong, NameTooLong, OversizedHeader}
    ensures r.Ok? ==> |r.value| >= HeaderSize
  {
    var payloads := Payloads(sorted, |sorted|, PayloadStepper(sorted, dirSize, version, read, compress, dataSum));
    if payloads.Err? then Err(payloads.error)
    else
      var dir := DirectoryFrom(sorted, |sorted|, RecordWriter(version, encode));
      if dir.Err? then Err(dir.error)
      else
        var full := HeaderBytes(PackHeader(ToU32(version), fileCount, dirSize)) + dir.value;
        if ToU32(|full|) != dirSize then Err(OversizedHeader) else Ok(full + payloads.value)
  }

  /** The sort key of `packYpf`: the name checksum. */
  function ChecksumKey(e: YpfEntry): nat
  {
    e.nameChecksum
  }

  /**
   * `packYpf` (YpfDef.go:192-357) from the listed files on: `files` are the
   * paths below the input directory in listing order; reading a file, zlib and
   * the code page's encoder are parameters. `sorted` names the records after
   * the sort, whose order among equal checksums the source leaves open.
   */
  method PackYpf(files: seq<GoString>, version: int, read: GoString -> Option<seq<byte>>,
                 compress: seq<byte> -> seq<byte>, encode: GoString -> seq<byte>)
    returns (r: Result<seq<byte>, PackError>, ghost sorted: seq<YpfEntry>)
    ensures NamesCheck(files).Some? ==> r == Err(NamesCheck(files).value)
    ensures NamesCheck(files).None? ==>
      var v := ToU32(version);
      multiset(sorted) == multiset(EntriesFor(files, NameSum(v))) && SortedBy(sorted, ChecksumKey)
      && r == PackFinish(sorted, |files|, DirSize(files, v), version, read, compress, encode, DataSum(v))
  {
    var v := ToU32(version);
    var entries := new YpfEntry[|files|](_ => YpfEntry(0, [], 0, 0, 0, 0, 0, 0));
    var err, size := CollectNames(files, v, NameSum(v), entries);
    if err.Some? {
      return Err(err.value), [];
    }
    SortBy(entries, ChecksumKey);
    sorted := entries[..];
    var payloads := AddPayloads(entries, size, version, read, compress, DataSum(v));
    if payloads.Err? {
      return Err(payloads.error), sorted;
    }
    var dir := WriteDirectory(entries, version, encode);
    if dir.Err? {
      return Err(dir.error), sorted;
    }
    var full := HeaderBytes(PackHeader(v, |files|, size)) + dir.value;
    if ToU32(|full|) != size {
      return Err(OversizedHeader), sorted;
    }
    r := Ok(full + payloads.value);
  }

  /**
   * What `packYpf` writes is never read back: its header has no magic, so
   * the directory parser and the extractor both reject it as not a YPF file.
   */
  lemma PackedNeverParses(sorted: seq<YpfEntry>, fileCount: nat, dirSize: u32, version: int,
                          read: GoString -> Option<seq<byte>>, compress: seq<byte> -> seq<byte>,
                          encode: GoString -> seq<byte>, dataSum: seq<byte> -> u32,
                          decode: GoString -> GoString, entry: YpfEntry, inflate: (seq<byte>, nat) -> Option<seq<byte>>)
    requires PackFinish(sorted, fileCount, dirSize, version, read, compress, encode, dataSum).Ok?
    ensures var out := PackFinish(sorted, fileCount, dirSize, version, read, compress, encode, dataSum).value;
      DirectoryOf(out, decode) == Err(NotYpfFile)
      && ExtractFileSpec(out, entry, inflate) == Extracted([], Some(NotYpfFile))
  {
    var out := PackFinish(sorted, fileCount, dirSize, version, read, compress, encode, dataSum).value;
    var h := HeaderBytes(PackHeader(ToU32(version), fileCount, dirSize));
    assert out[..4] == h[..4];
  }

  /** The header as evidently intended: the same fields, with the YPF magic. */
  function PackHeaderCorrected(v: u32, fileCount: nat, dirSize: u32): (h: YpfHeader)
    ensures |h.meta.magic| == 4 && |h.unk| == 16
  {
    YpfHeader(GenericHeader(YpfMagic, v), ToU32(fileCount), dirSize, Zeros(16))
  }

  /**
   * The corrected header is accepted: whatever follows it, the parser reads
   * the header back field for field and does not reject the archive.
   */
  lemma CorrectedHeaderReadsBack(v: u32, fileCount: nat, dirSize: u32, rest: seq<byte>, decode: GoString -> GoString)
    ensures var h := PackHeaderCorrected(v, fileCount, dirSize);
      var data := HeaderBytes(h) + rest;
      HeaderOf(data[..HeaderSize]) == h && DirectoryOf(data, decode) != Err(NotYpfFile)
  {
    var h := PackHeaderCorrected(v, fileCount, dirSize);
    var data := HeaderBytes(h) + rest;
    assert data[..HeaderSize] == HeaderBytes(h);
    HeaderRoundTrip(h);
    assert data[..4] == HeaderBytes(h)[..4];
  }

  /**
   * Every record `packYpf` writes is blank: after the sort the records are
   * still those of the name pass, whose sizes, offset, checksum, flag and
   * type are all zero, since the payload pass fills in copies.
   */
  lemma SortedRecordsBlank(sorted: seq<YpfEntry>, files: seq<GoString>, nameSum: seq<byte> -> u32, k: nat)
    requires multiset(sorted) == multiset(EntriesFor(files, nameSum)) && k < |sorted|
    ensures sorted[k].rawFileSize == 0 && sorted[k].compressedFileSize == 0 && sorted[k].offset == 0
    ensures sorted[k].dataChecksum == 0 && sorted[k].isCompressed == 0 && sorted[k].fileType == 0
    ensures sorted[k].fileName in files && sorted[k].nameChecksum == nameSum(sorted[k].fileName)
  {
    var es := EntriesFor(files, nameSum);
    assert sorted[k] in multiset(es);
    var i :| 0 <= i < |es| && es[i] == sorted[k];
    EntriesForAt(files, nameSum, i);
  }

  /** So, even under a valid header, each file of the archive extracts to nothing. */
  lemma BlankRecordExtractsEmpty(data: seq<byte>, entry: YpfEntry, inflate: (seq<byte>, nat) -> Option<seq<byte>>)
    requires |data| >= HeaderSize && data[..4] == YpfMagic
    requires entry.isCompressed == 0 && entry.compressedFileSize == 0
    ensures ExtractFileSpec(data, entry, inflate).bytes == []
  {
    ExtractedSize(data, entry, inflate);
  }

  /**
   * Over records whose raw sizes are all zero, the archive is the header, the
   * records, and each record's payload in turn.
   */
  lemma BlankPackLayout(sorted: seq<YpfEntry>, fileCount: nat, dirSize: u32, version: int,
                        read: GoString -> Option<seq<byte>>, compress: seq<byte> -> seq<byte>,
                        encode: GoString -> seq<byte>, dataSum: seq<byte> -> u32)
    requires forall k :: 0 <= k < |sorted| ==> sorted[k].rawFileSize == 0
    requires PackFinish(sorted, fileCount, dirSize, version, read, compress, encode, dataSum).Ok?
    ensures PackFinish(sorted, fileCount, dirSize, version, read, compress, encode, dataSum).value
      == HeaderBytes(PackHeader(ToU32(version), fileCount, dirSize))
         + DirectoryFrom(sorted, |sorted|, RecordWriter(version, encode)).value
         + RepeatedPayloads(sorted, |sorted|, read, compress)
  {
    var payloads := Payloads(sorted, |sorted|, PayloadStepper(sorted, dirSize, version, read, compress, dataSum));
    var dir := DirectoryFrom(sorted, |sorted|, RecordWriter(version, encode));
    var full := HeaderBytes(PackHeader(ToU32(version), fileCount, dirSize)) + dir.value;
    assert payloads.Ok? && dir.Ok?;
    assert PackFinish(sorted, fileCount, dirSize, version, read, compress, encode, dataSum) == Ok(full + payloads.value);
    PayloadsAsWritten(sorted, |sorted|, dirSize, version, read, compress, dataSum);
  }

  /**
   * The archive `packYpf` writes, when it writes one: the header without
   * magic, the records of the sorted list, and each file's stored form once
   * per record.
   */
  lemma PackedLayout(files: seq<GoString>, sorted: seq<YpfEntry>, version: int,
                     read: GoString -> Option<seq<byte>>, compress: seq<byte> -> seq<byte>, encode: GoString -> seq<byte>)
    requires multiset(sorted) == multiset(EntriesFor(files, NameSum(ToU32(version))))
    requires var v := ToU32(version);
      PackFinish(sorted, |files|, DirSize(files, v), version, read, compress, encode, DataSum(v)).Ok?
    ensures var v := ToU32(version);
      PackFinish(sorted, |files|, DirSize(files, v), version, read, compress, encode, DataSum(v)).value
      == HeaderBytes(PackHeader(v, |files|, DirSize(files, v)))
         + DirectoryFrom(sorted, |sorted|, RecordWriter(version, encode)).value
         + RepeatedPayloads(sorted, |sorted|, read, compress)
  {
    var v := ToU32(version);
    forall k | 0 <= k < |sorted|
      ensures sorted[k].rawFileSize == 0
    {
      SortedRecordsBlank(sorted, files, NameSum(v), k);
    }
    BlankPackLayout(sorted, |files|, DirSize(files, v), version, read, compress, encode, DataSum(v));
  }

  // ---------------------------------------------------------------------------
  // When packing fails (YpfDef.go:268-280, 313-316, 325-328, 346-349)

  /**
   * The payload pass over the first n records fails when one of their files is
   * bad; otherwise it can only fail with OutputTooLong, and only below 479.
   */
  lemma {:induction false} PayloadsFail(es: seq<YpfEntry>, n: nat, dirSize: u32, version: int,
                                        read: GoString -> Option<seq<byte>>, compress: seq<byte> -> seq<byte>,
                                        dataSum: seq<byte> -> u32)
    requires n <= |es|
    ensures var r := Payloads(es, n, PayloadStepper(es, dirSize, version, read, compress, dataSum));
      ((exists k :: 0 <= k < n && BadFile(read(SourcePath(es[k])))) ==> r.Err?)
      && (r.Err? ==> (exists k :: 0 <= k < n && BadFile(read(SourcePath(es[k]))))
                     || (r.error == OutputTooLong && version < WideVersion))
    decreases n
  {
    if n > 0 {
      PayloadsFail(es, n - 1, dirSize, version, read, compress, dataSum);
      PayloadsStep(es, n, dirSize, version, read, compress, dataSum);
    }
  }

  /** One record more: a failed pass stays failed; otherwise the record's own step decides. */
  lemma PayloadsStep(es: seq<YpfEntry>, n: nat, dirSize: u32, version: int,
                     read: GoString -> Option<seq<byte>>, compress: seq<byte> -> seq<byte>,
                     dataSum: seq<byte> -> u32)
    requires 0 < n <= |es|
    ensures var step := PayloadStepper(es, dirSize, version, read, compress, dataSum);
      var r := Payloads(es, n, step);
      var prev := Payloads(es, n - 1, step);
      (prev.Err? ==> r == prev)
      && (prev.Ok? ==> (r.Err? && r.error != OutputTooLong <==> BadFile(read(SourcePath(es[n - 1])))))
      && (r == Err(OutputTooLong) ==> version < WideVersion)
  {
    var step := PayloadStepper(es, dirSize, version, read, compress, dataSum);
    var prev := Payloads(es, n - 1, step);
    if prev.Ok? {
      assert step(prev.value, es[n - 1]) == PayloadStep(prev.value, es, es[n - 1], dirSize, version, read, compress, dataSum);
    }
  }


  /** The sum of `size` over the records. */
  function SizeSum(es: seq<YpfEntry>, size: YpfEntry -> nat): nat
    decreases |es|
  {
    if es == [] then 0 else SizeSum(es[..|es| - 1], size) + size(es[|es| - 1])
  }

  /** The bytes one record takes in the directory: its encoded name and the fixed fields. */
  function RecordBytes(version: int, encode: GoString -> seq<byte>): YpfEntry -> nat
  {
    (e: YpfEntry) => RecordLength(|encode(e.fileName)|, version)
  }

  /** The bytes the records take in the directory. */
  function DirectoryLength(es: seq<YpfEntry>, version: int, encode: GoString -> seq<byte>): nat
  {
    SizeSum(es, RecordBytes(version, encode))
  }


  /** A name that does not fit the record's length byte once encoded (YpfDef.go:313-316). */
  predicate LongName(e: YpfEntry, encode: GoString -> seq<byte>)
  {
    |encode(e.fileName)| > 0xFF
  }

  /** Whatever writes the records, the directory pass fails exactly when one record fails. */
  lemma {:induction false} DirectoryFromFails(es: seq<YpfEntry>, n: nat, record: YpfEntry -> Result<seq<byte>, PackError>)
    requires n <= |es|
    ensures DirectoryFrom(es, n, record).Err? <==> exists k :: 0 <= k < n && record(es[k]).Err?
    decreases n
  {
    if n > 0 {
      DirectoryFromFails(es, n - 1, record);
    }
  }


  /** Whatever writes the records, a successful pass takes the sum of their sizes. */
  lemma {:induction false} DirectoryFromLength(es: seq<YpfEntry>, n: nat, record: YpfEntry -> Result<seq<byte>, PackError>,
                                               size: YpfEntry -> nat)
    requires n <= |es|
    requires forall k :: 0 <= k < n && record(es[k]).Ok? ==> |record(es[k]).value| == size(es[k])
    ensures DirectoryFrom(es, n, record).Ok? ==> |DirectoryFrom(es, n, record).value| == SizeSum(es[..n], size)
    decreases n
  {
    if n > 0 {
      DirectoryFromLength(es, n - 1, record, size);
      assert es[..n][..n - 1] == es[..n - 1];
    }
  }


  /**
   * The directory pass over the first n records fails exactly when one of
   * their names encodes to more than 255 bytes, and then with NameTooLong;
   * otherwise it takes DirectoryLength bytes.
   */
  lemma DirectoryFails(es: seq<YpfEntry>, n: nat, version: int, encode: GoString -> seq<byte>)
    requires n <= |es|
    ensures var r := DirectoryFrom(es, n, RecordWriter(version, encode));
      (r.Err? <==> exists k :: 0 <= k < n && LongName(es[k], encode))
      && (r.Err? ==> r.error == NameTooLong)
      && (r.Ok? ==> |r.value| == DirectoryLength(es[..n], version, encode))
  {
    var record := RecordWriter(version, encode);
    var size := RecordBytes(version, encode);
    forall k | 0 <= k < n
      ensures record(es[k]) == RecordAsWritten(es[k], version, encode)
      ensures size(es[k]) == RecordLength(|encode(es[k].fileName)|, version)
    {
    }
    DirectoryFromFails(es, n, record);
    DirectoryFromLength(es, n, record, size);
  }

  /**
   * Once both passes succeed, the size check of YpfDef.go:346-349 fails
   * exactly when the header's directory size differs, in 32 bits, from the
   * bytes the header and the records actually take.
   */
  lemma OversizedHeaderExactly(sorted: seq<YpfEntry>, fileCount: nat, dirSize: u32, version: int,
                               read: GoString -> Option<seq<byte>>, compress: seq<byte> -> seq<byte>,
                               encode: GoString -> seq<byte>, dataSum: seq<byte> -> u32)
    requires Payloads(sorted, |sorted|, PayloadStepper(sorted, dirSize, version, read, compress, dataSum)).Ok?
    requires DirectoryFrom(sorted, |sorted|, RecordWriter(version, encode)).Ok?
    ensures var r := PackFinish(sorted, fileCount, dirSize, version, read, compress, encode, dataSum);
      var written := ToU32(HeaderSize + DirectoryLength(sorted, version, encode));
      (r == Err(OversizedHeader) <==> written != dirSize) && (r.Ok? <==> written == dirSize)
  {
    DirectoryFails(sorted, |sorted|, version, encode);
    assert sorted[..|sorted|] == sorted;
    var payloads := Payloads(sorted, |sorted|, PayloadStepper(sorted, dirSize, version, read, compress, dataSum));
    var dir := DirectoryFrom(sorted, |sorted|, RecordWriter(version, encode));
    var full := HeaderBytes(PackHeader(ToU32(version), fileCount, dirSize)) + dir.value;
    assert |full| == HeaderSize + DirectoryLength(sorted, version, encode);
    assert PackFinish(sorted, fileCount, dirSize, version, read, compress, encode, dataSum)
      == if ToU32(|full|) != dirSize then Err(OversizedHeader) else Ok(full + payloads.value);
  }

  /**
   * Everything after the sort fails when a file is bad or a name encodes to
   * more than 255 bytes, and for no other reason than OutputTooLong below 479
   * or a directory size that differs from the bytes written.
   */
  lemma PackFinishFails(sorted: seq<YpfEntry>, fileCount: nat, dirSize: u32, version: int,
                        read: GoString -> Option<seq<byte>>, compress: seq<byte> -> seq<byte>,
                        encode: GoString -> seq<byte>, dataSum: seq<byte> -> u32)
    ensures var r := PackFinish(sorted, fileCount, dirSize, version, read, compress, encode, dataSum);
      ((exists k :: 0 <= k < |sorted| && BadFile(read(SourcePath(sorted[k])))) ==> r.Err?)
      && ((exists k :: 0 <= k < |sorted| && LongName(sorted[k], encode)) ==> r.Err?)
      && (r.Err? ==> (exists k :: 0 <= k < |sorted| && BadFile(read(SourcePath(sorted[k]))))
                     || (exists k :: 0 <= k < |sorted| && LongName(sorted[k], encode))
                     || (r.error == OutputTooLong && version < WideVersion)
                     || (r.error == OversizedHeader
                         && ToU32(HeaderSize + DirectoryLength(sorted, version, encode)) != dirSize))
  {
    PayloadsFail(sorted, |sorted|, dirSize, version, read, compress, dataSum);
    DirectoryFails(sorted, |sorted|, version, encode);
    var payloads := Payloads(sorted, |sorted|, PayloadStepper(sorted, dirSize, version, read, compress, dataSum));
    var dir := DirectoryFrom(sorted, |sorted|, RecordWriter(version, encode));
    if payloads.Ok? && dir.Ok? {
      OversizedHeaderExactly(sorted, fileCount, dirSize, version, read, compress, encode, dataSum);
    }
  }

  /**
   * So `packYpf`, past the name pass, fails whenever a listed file is
   * unreadable, empty or over 0xFFFFFFFF bytes, or a name encodes to more
   * than 255 bytes.
   */
  lemma PackFailsOnBadInput(files: seq<GoString>, sorted: seq<YpfEntry>, version: int,
                            read: GoString -> Option<seq<byte>>, compress: seq<byte> -> seq<byte>,
                            encode: GoString -> seq<byte>)
    requires multiset(sorted) == multiset(EntriesFor(files, NameSum(ToU32(version))))
    ensures var v := ToU32(version);
      var r := PackFinish(sorted, |files|, DirSize(files, v), version, read, compress, encode, DataSum(v));
      ((exists i :: 0 <= i < |files| && BadFile(read(files[i]))) ==> r.Err?)
      && ((exists i :: 0 <= i < |files| && |encode(files[i])| > 0xFF) ==> r.Err?)
  {
    var v := ToU32(version);
    PackFinishFails(sorted, |files|, DirSize(files, v), version, read, compress, encode, DataSum(v));
    if i :| 0 <= i < |files| && (BadFile(read(files[i])) || |encode(files[i])| > 0xFF) {
      var e := EntryFor(files[i], NameSum(v));
      EntriesForAt(files, NameSum(v), i);
      assert e in multiset(EntriesFor(files, NameSum(v)));
      assert e in multiset(sorted);
      var k :| 0 <= k < |sorted| && sorted[k] == e;
      assert SourcePath(sorted[k]) == files[i];
    }
  }

  /** Taking one record out of the list takes its size out of the sum. */
  lemma {:induction false} SizeSumRemove(es: seq<YpfEntry>, j: nat, size: YpfEntry -> nat)
    requires j < |es|
    ensures SizeSum(es, size) == SizeSum(es[..j] + es[j + 1..], size) + size(es[j])
    decreases |es|
  {
    var last := |es| - 1;
    if j < last {
      var c := es[..last];
      SizeSumRemove(c, j, size);
      var rest := es[..j] + es[j + 1..];
      assert rest == (c[..j] + c[j + 1..]) + [es[last]];
      assert rest[..|rest| - 1] == c[..j] + c[j + 1..];
    } else {
      assert es[..j] + es[j + 1..] == es[..last];
    }
  }

  /** The sum does not depend on the order of the records. */
  lemma {:induction false} SizeSumPermutation(a: seq<YpfEntry>, b: seq<YpfEntry>, size: YpfEntry -> nat)
    requires multiset(a) == multiset(b)
    ensures SizeSum(a, size) == SizeSum(b, size)
    decreases |a|
  {
    if a == [] {
      assert |b| == |multiset(b)| == 0;
    } else {
      var x := a[|a| - 1];
      assert a == a[..|a| - 1] + [x];
      assert x in multiset(b);
      var j :| 0 <= j < |b| && b[j] == x;
      var b' := b[..j] + b[j + 1..];
      assert b == b[..j] + [x] + b[j + 1..];
      assert multiset(b') == multiset(b) - multiset{x};
      assert multiset(a[..|a| - 1]) == multiset(a) - multiset{x};
      SizeSumPermutation(a[..|a| - 1], b', size);
      SizeSumRemove(b, j, size);
    }
  }

  /**
   * The header counts each name as Go text (YpfDef.go:251-254); the records
   * hold its encoding. When no record is longer than the header counts it,
   * the directory is no longer than the header says, equally long when every
   * record matches, and shorter when one record is shorter.
   */
  lemma {:induction false} DirectoryLengthOfNames(files: seq<GoString>, nameSum: seq<byte> -> u32, version: int,
                                                  encode: GoString -> seq<byte>)
    requires forall i :: 0 <= i < |files| ==>
      RecordLength(|encode(files[i])|, version) <= RecordSize(files[i], ToU32(version))
    ensures var d := DirectoryLength(EntriesFor(files, nameSum), version, encode);
      var s := SumRecordSizes(files, ToU32(version));
      d <= s
      && ((forall i :: 0 <= i < |files| ==>
             RecordLength(|encode(files[i])|, version) == RecordSize(files[i], ToU32(version))) ==> d == s)
      && ((exists i :: 0 <= i < |files| &&
             RecordLength(|encode(files[i])|, version) < RecordSize(files[i], ToU32(version))) ==> d < s)
    decreases |files|
  {
    if files != [] {
      var init := files[..|files| - 1];
      var es := EntriesFor(files, nameSum);
      EntriesForSnoc(files, |files| - 1, nameSum);
      assert files[..|files|] == files;
      assert es[..|es| - 1] == EntriesFor(init, nameSum);
      DirectoryLengthOfNames(init, nameSum, version, encode);
      assert forall i :: 0 <= i < |init| ==> init[i] == files[i];
      assert RecordBytes(version, encode)(es[|es| - 1]) == RecordLength(|encode(files[|files| - 1])|, version);
    }
  }

  /**
   * When every name keeps its length once encoded and the version fits 32
   * bits, the size check passes.
   */
  lemma HeaderCheckPasses(files: seq<GoString>, sorted: seq<YpfEntry>, version: int,
                          read: GoString -> Option<seq<byte>>, compress: seq<byte> -> seq<byte>,
                          encode: GoString -> seq<byte>)
    requires multiset(sorted) == multiset(EntriesFor(files, NameSum(ToU32(version))))
    requires 0 <= version < 0x1_0000_0000
    requires forall i :: 0 <= i < |files| ==> |encode(files[i])| == |files[i]|
    requires var v := ToU32(version);
      Payloads(sorted, |sorted|, PayloadStepper(sorted, DirSize(files, v), version, read, compress, DataSum(v))).Ok?
      && DirectoryFrom(sorted, |sorted|, RecordWriter(version, encode)).Ok?
    ensures var v := ToU32(version);
      PackFinish(sorted, |files|, DirSize(files, v), version, read, compress, encode, DataSum(v)).Ok?
  {
    var v := ToU32(version);
    SizeSumPermutation(sorted, EntriesFor(files, NameSum(v)), RecordBytes(version, encode));
    DirectoryLengthOfNames(files, NameSum(v), version, encode);
    OversizedHeaderExactly(sorted, |files|, DirSize(files, v), version, read, compress, encode, DataSum(v));
  }

  /**
   * The sorted records take fewer bytes than the header counts when no
   * record is longer than counted and one is shorter.
   */
  lemma DirectoryShorter(files: seq<GoString>, sorted: seq<YpfEntry>, version: int, encode: GoString -> seq<byte>)
    requires multiset(sorted) == multiset(EntriesFor(files, NameSum(ToU32(version))))
    requires forall i :: 0 <= i < |files| ==>
      RecordLength(|encode(files[i])|, version) <= RecordSize(files[i], ToU32(version))
    requires exists i ::
      0 <= i < |files| && RecordLength(|encode(files[i])|, version) < RecordSize(files[i], ToU32(version))
    ensures DirectoryLength(sorted, version, encode) < SumRecordSizes(files, ToU32(version))
    ensures HeaderSize + SumRecordSizes(files, ToU32(version)) < 0x1_0000_0000 ==>
      ToU32(HeaderSize + DirectoryLength(sorted, version, encode)) != DirSize(files, ToU32(version))
  {
    SizeSumPermutation(sorted, EntriesFor(files, NameSum(ToU32(version))), RecordBytes(version, encode));
    DirectoryLengthOfNames(files, NameSum(ToU32(version)), version, encode);
  }

  /**
   * As written, a name whose encoding is shorter than its Go text always
   * trips the size check: when no name grows and one shrinks (a kana takes
   * three bytes as Go text and two under code page 932), `packYpf` fails
   * with "Oversized Header".
   */
  lemma ShorterEncodingOversized(files: seq<GoString>, sorted: seq<YpfEntry>, version: int,
                                 read: GoString -> Option<seq<byte>>, compress: seq<byte> -> seq<byte>,
                                 encode: GoString -> seq<byte>)
    requires multiset(sorted) == multiset(EntriesFor(files, NameSum(ToU32(version))))
    requires 0 <= version < 0x1_0000_0000
    requires forall i :: 0 <= i < |files| ==> |encode(files[i])| <= |files[i]|
    requires exists i :: 0 <= i < |files| && |encode(files[i])| < |files[i]|
    requires HeaderSize + SumRecordSizes(files, ToU32(version)) < 0x1_0000_0000
    requires var v := ToU32(version);
      Payloads(sorted, |sorted|, PayloadStepper(sorted, DirSize(files, v), version, read, compress, DataSum(v))).Ok?
      && DirectoryFrom(sorted, |sorted|, RecordWriter(version, encode)).Ok?
    ensures var v := ToU32(version);
      PackFinish(sorted, |files|, DirSize(files, v), version, read, compress, encode, DataSum(v)) == Err(OversizedHeader)
  {
    var v := ToU32(version);
    assert v as int == version;
    var j :| 0 <= j < |files| && |encode(files[j])| < |files[j]|;
    assert RecordLength(|encode(files[j])|, version) < RecordSize(files[j], v);
    DirectoryShorter(files, sorted, version, encode);
    OversizedHeaderExactly(sorted, |files|, DirSize(files, v), version, read, compress, encode, DataSum(v));
  }

  /**
   * A negative version whose 32-bit form is 479 or more: the header counts
   * the 4 extra bytes of every record (from `uint32(version)`), the records
   * leave them out (from the int), and the size check fails.
   */
  lemma NegativeVersionOversized(files: seq<GoString>, sorted: seq<YpfEntry>, version: int,
                                 read: GoString -> Option<seq<byte>>, compress: seq<byte> -> seq<byte>,
                                 encode: GoString -> seq<byte>)
    requires multiset(sorted) == multiset(EntriesFor(files, NameSum(ToU32(version))))
    requires version < 0 && ToU32(version) >= WideVersion && |files| > 0
    requires forall i :: 0 <= i < |files| ==> |encode(files[i])| == |files[i]|
    requires HeaderSize + SumRecordSizes(files, ToU32(version)) < 0x1_0000_0000
    requires var v := ToU32(version);
      Payloads(sorted, |sorted|, PayloadStepper(sorted, DirSize(files, v), version, read, compress, DataSum(v))).Ok?
      && DirectoryFrom(sorted, |sorted|, RecordWriter(version, encode)).Ok?
    ensures var v := ToU32(version);
      PackFinish(sorted, |files|, DirSize(files, v), version, read, compress, encode, DataSum(v)) == Err(OversizedHeader)
  {
    var v := ToU32(version);
    assert RecordLength(|encode(files[0])|, version) < RecordSize(files[0], v);
    DirectoryShorter(files, sorted, version, encode);
    OversizedHeaderExactly(sorted, |files|, DirSize(files, v), version, read, compress, encode, DataSum(v));
  }

  /** The directory size the check expects: 32 plus the records as encoded, in 32 bits. */
  function DirSizeCorrected(files: seq<GoString>, version: int, encode: GoString -> seq<byte>): u32
  {
    ToU32(HeaderSize + DirectoryLength(EntriesFor(files, NameSum(ToU32(version))), version, encode))
  }

  /** The corrected size is what the sorted records and the header take, in 32 bits. */
  lemma CorrectedSizeMatches(files: seq<GoString>, sorted: seq<YpfEntry>, version: int, encode: GoString -> seq<byte>)
    requires multiset(sorted) == multiset(EntriesFor(files, NameSum(ToU32(version))))
    ensures ToU32(HeaderSize + DirectoryLength(sorted, version, encode)) == DirSizeCorrected(files, version, encode)
  {
    SizeSumPermutation(sorted, EntriesFor(files, NameSum(ToU32(version))), RecordBytes(version, encode));
  }

  /** With the directory size summed over the encoded names, the size check always passes. */
  lemma CorrectedDirSizePasses(files: seq<GoString>, sorted: seq<YpfEntry>, dirSize: u32, version: int,
                               read: GoString -> Option<seq<byte>>, compress: seq<byte> -> seq<byte>,
                               encode: GoString -> seq<byte>)
    requires multiset(sorted) == multiset(EntriesFor(files, NameSum(ToU32(version))))
    requires dirSize == DirSizeCorrected(files, version, encode)
    requires Payloads(sorted, |sorted|, PayloadStepper(sorted, dirSize, version, read, compress, DataSum(ToU32(version)))).Ok?
    requires DirectoryFrom(sorted, |sorted|, RecordWriter(version, encode)).Ok?
    ensures PackFinish(sorted, |files|, dirSize, version, read, compress, encode, DataSum(ToU32(version))).Ok?
  {
    CorrectedSizeMatches(files, sorted, version, encode);
    OversizedHeaderExactly(sorted, |files|, dirSize, version, read, compress, encode, DataSum(ToU32(version)));
  }

}
