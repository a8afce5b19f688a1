/**
 * The YPF archive: its 32-byte header and directory records (YpfDef.go:18-39),
 * the directory parser `parseYpf` (YpfDef.go:58-104), the single-file
 * extractor `extractFileFromYpf` (YpfDef.go:151-181) and the loop of
 * `extractYpf` (YpfDef.go:359-372).
 */
module Ypf {
  import opened Bytes
  import opened Ybn
  import opened Checksum
  import opened Obfuscation

  /** The header: generic header, file count, directory size (header included) and 16 reserved bytes. */
  datatype YpfHeader = YpfHeader(meta: GenericHeader, fileCount: u32, archivedFilesHeaderSize: u32, unk: seq<byte>)

  /** One directory record. */
  datatype YpfEntry = YpfEntry(
    nameChecksum: u32,
    fileName: GoString,
    fileType: u8,
    isCompressed: u8,
    rawFileSize: u32,
    compressedFileSize: u32,
    offset: u64,
    dataChecksum: u32)

  datatype YpfInfo = YpfInfo(header: YpfHeader, files: seq<YpfEntry>)

  datatype YpfError =
    | NotYpfFile                      // the magic is not "YPF\0"
    | NameCheckFailed(name: GoString) // a name's checksum differs from the stored one
    | DataCheckFailed(name: GoString) // a file's checksum differs from the stored one
    | InflateFailed                   // zlib refused the compressed bytes

  /** "YPF\0" */
  const YpfMagic: seq<byte> := [0x59, 0x50, 0x46, 0x00]
  const HeaderSize := 32
  /** From this version on offsets take 8 bytes and checksums are MurmurHash2. */
  const WideVersion := 479

  function HeaderOf(b: seq<byte>): (h: YpfHeader)
    requires |b| == HeaderSize
    ensures |h.meta.magic| == 4 && |h.unk| == 16
  {
    Pow256Values();
    YpfHeader(GenericHeaderOf(b[..8]), LeValue(b[8..12]), LeValue(b[12..16]), b[16..32])
  }

  function HeaderBytes(h: YpfHeader): (b: seq<byte>)
    requires |h.meta.magic| == 4 && |h.unk| == 16
    ensures |b| == HeaderSize
    ensures b[..4] == h.meta.magic
  {
    var b := GenericHeaderBytes(h.meta) + LeBytes(h.fileCount, 4) + LeBytes(h.archivedFilesHeaderSize, 4) + h.unk;
    assert b[..4] == GenericHeaderBytes(h.meta)[..4];
    b
  }

  lemma HeaderRoundTrip(h: YpfHeader)
    requires |h.meta.magic| == 4 && |h.unk| == 16
    ensures HeaderOf(HeaderBytes(h)) == h
  {
    var b := HeaderBytes(h);
    Pow256Values();
    var g := GenericHeaderBytes(h.meta);
    var c := LeBytes(h.fileCount, 4);
    var s := LeBytes(h.archivedFilesHeaderSize, 4);
    assert b == g + c + s + h.unk;
    assert b[..8] == g;
    assert b[8..12] == LeBytes(h.fileCount, 4);
    assert b[12..16] == LeBytes(h.archivedFilesHeaderSize, 4);
    assert b[16..32] == h.unk;
    GenericHeaderRoundTrip(h.meta);
    LeValueOfLeBytes(h.fileCount, 4);
    LeValueOfLeBytes(h.archivedFilesHeaderSize, 4);
  }

  lemma HeaderMagic(data: seq<byte>)
    ensures var h := HeaderOf(FullRead(data, 0, HeaderSize));
      (h.meta.magic == YpfMagic <==> |data| >= HeaderSize && data[..4] == YpfMagic)
      && (|data| >= HeaderSize ==> h == HeaderOf(data[..HeaderSize]))
      && (h.meta.magic == YpfMagic ==> AfterFullRead(data, 0, HeaderSize) == HeaderSize)
  {
    var b := FullRead(data, 0, HeaderSize);
    if |data| < HeaderSize {
      assert b[..8][..4][3] == 0 && b[..8][..4][0] == 0;
    } else {
      assert b[..8][..4] == data[..4];
    }
  }

  /** Width of a stored offset. */
  function OffsetSize(version: u32): nat
  {
    if version < WideVersion then 4 else 8
  }

  /** The fields after the name: type, flag, two sizes, the offset and the data checksum. */
  datatype EntryTail = EntryTail(fileType: u8, isCompressed: u8, rawFileSize: u32, compressedFileSize: u32,
                                 offset: u64, dataChecksum: u32)

  function EntryTailAt(data: seq<byte>, pos: nat, version: u32): (r: (EntryTail, nat))
    ensures r.1 >= pos
  {
    Pow256Values();
    var (t, p1) := ReadUintAt(data, pos, 1);
    var (c, p2) := ReadUintAt(data, p1, 1);
    var (raw, p3) := ReadUintAt(data, p2, 4);
    var (comp, p4) := ReadUintAt(data, p3, 4);
    var (off, p5) := ReadUintAt(data, p4, OffsetSize(version));
    var (dc, p6) := ReadUintAt(data, p5, 4);
    (EntryTail(t, c, raw, comp, off, dc), p6)
  }

  /**
   * The stored name bytes after the length byte at `pos`, which goes through
   * the complement and the swapping table, then that many bytes are read.
   */
  function StoredNameAt(data: seq<byte>, pos: nat, version: u32): (r: (seq<byte>, nat))
    ensures r.1 >= pos
  {
    var len := DecodeLength(version, FullRead(data, pos, 1)[0]);
    ReadBytesAt(data, AfterFullRead(data, pos, 1), len as int)
  }

  /**
   * The record at `pos` (YpfDef.go:71-98). The checksum over the deciphered
   * name bytes must match the stored one; otherwise parsing stops.
   */
  function EntryAt(data: seq<byte>, pos: nat, version: u32, decode: GoString -> GoString): (r: (Result<YpfEntry, YpfError>, nat))
    ensures r.1 >= pos
    ensures r.0.Ok? ==> r.0.value.nameChecksum == ReadUintAt(data, pos, 4).0
    ensures r.0.Err? ==> r.0.error.NameCheckFailed?
  {
    Pow256Values();
    var (checksum, p0) := ReadUintAt(data, pos, 4);
    var (stored, p1) := StoredNameAt(data, p0, version);
    var name := DecipherName(stored, FileNameEncryptionKey(version));
    if checksum != ChecksumByVersion(name, version, true) then (Err(NameCheckFailed(decode(name))), p1)
    else
      var (t, p2) := EntryTailAt(data, p1, version);
      (Ok(YpfEntry(checksum, decode(name), t.fileType, t.isCompressed, t.rawFileSize, t.compressedFileSize,
                   t.offset, t.dataChecksum)), p2)
  }

  /** The first k records, in stored order; the first failed name check ends the run. */
  function EntriesFrom(data: seq<byte>, pos: nat, version: u32, k: nat, decode: GoString -> GoString)
    : (r: (Result<seq<YpfEntry>, YpfError>, nat))
    ensures r.0.Ok? ==> |r.0.value| == k
    ensures r.0.Err? ==> r.0.error.NameCheckFailed?
    decreases k
  {
    if k == 0 then (Ok([]), pos)
    else
      var (prev, p) := EntriesFrom(data, pos, version, k - 1, decode);
      if prev.Err? then (prev, p)
      else
        var (e, p') := EntryAt(data, p, version, decode);
        if e.Err? then (Err(e.error), p') else (Ok(prev.value + [e.value]), p')
  }

  /** The directory in stored order: the header and `FileCount` records after it. */
  function DirectoryOf(data: seq<byte>, decode: GoString -> GoString): (r: Result<YpfInfo, YpfError>)
    ensures !(|data| >= HeaderSize && data[..4] == YpfMagic) <==> r == Err(NotYpfFile)
    ensures r.Ok? ==> r.value.header == HeaderOf(data[..HeaderSize])
    ensures r.Ok? ==> |r.value.files| == r.value.header.fileCount
    ensures r.Err? ==> r.error == NotYpfFile || r.error.NameCheckFailed?
  {
    HeaderMagic(data);
    var header := HeaderOf(FullRead(data, 0, HeaderSize));
    if header.meta.magic != YpfMagic then Err(NotYpfFile)
    else
      var entries := EntriesFrom(data, HeaderSize, header.meta.version, header.fileCount, decode).0;
      if entries.Err? then Err(entries.error) else Ok(YpfInfo(header, entries.value))
  }

  /** Offsets never decrease along the sequence. */
  predicate SortedByOffset(s: seq<YpfEntry>)
  {
    forall i, j :: 0 <= i < j < |s| ==> s[i].offset <= s[j].offset
  }

  /**
   * What `parseYpf` may return: the error of the stored directory, or its
   * header with its records sorted by offset (ties in any order).
   */
  predicate IsParseResult(data: seq<byte>, decode: GoString -> GoString, r: Result<YpfInfo, YpfError>)
  {
    var d := DirectoryOf(data, decode);
    (r.Err? <==> d.Err?)
    && (r.Err? ==> r.error == d.error)
    && (r.Ok? ==> r.value.header == d.value.header
                  && multiset(r.value.files) == multiset(d.value.files)
                  && SortedByOffset(r.value.files))
  }

  /** The field reads after the name (YpfDef.go:87-98). */
  method ReadEntryTail(stm: Reader, version: u32) returns (t: EntryTail)
    modifies stm
    ensures t == EntryTailAt(stm.data, old(stm.pos), version).0
    ensures stm.pos == EntryTailAt(stm.data, old(stm.pos), version).1
  {
    Pow256Values();
    var fileType := stm.ReadUint(1);
    var isCompressed := stm.ReadUint(1);
    var raw := stm.ReadUint(4);
    var comp := stm.ReadUint(4);
    var offset: nat;
    if version < WideVersion {
      var o := stm.ReadUint(4);
      offset := o;
    } else {
      offset := stm.ReadUint(8);
    }
    var dc := stm.ReadUint(4);
    t := EntryTail(fileType, isCompressed, raw, comp, offset, dc);
  }

  /** The in-place decipher loop of YpfDef.go:79-81. */
  method DecipherInPlace(a: array<byte>, key: byte)
    modifies a
    ensures a[..] == DecipherName(old(a[..]), key)
  {
    var j := 0;
    while j < a.Length
      invariant 0 <= j <= a.Length
      invariant a[..j] == DecipherName(old(a[..j]), key)
      invariant a[j..] == old(a[j..])
    {
      ghost var before := a[..];
      a[j] := DecipherByte(a[j], key);
      assert a[..j + 1] == DecipherName(old(a[..j + 1]), key);
      assert a[j + 1..] == before[j + 1..];
      j := j + 1;
    }
    assert a[..] == a[..j];
  }

  /** The length byte and the stored name bytes (YpfDef.go:73-78). */
  method ReadStoredName(stm: Reader, version: u32) returns (stored: seq<byte>)
    modifies stm
    ensures stored == StoredNameAt(stm.data, old(stm.pos), version).0
    ensures stm.pos == StoredNameAt(stm.data, old(stm.pos), version).1
  {
    var _, lb := stm.ReadFull(1);
    var len := LengthSwappingTable(version)[(!lb[0]) as int];
    stored := stm.Read(len as int);
  }

  /** One record (YpfDef.go:71-98). */
  method ReadEntry(stm: Reader, version: u32, decode: GoString -> GoString) returns (r: Result<YpfEntry, YpfError>)
    modifies stm
    ensures r == EntryAt(stm.data, old(stm.pos), version, decode).0
    ensures stm.pos == EntryAt(stm.data, old(stm.pos), version, decode).1
  {
    var checksum := stm.ReadUint(4);
    ghost var p0 := stm.pos;
    var stored := ReadStoredName(stm, version);
    var plain := new byte[|stored|](j requires 0 <= j < |stored| => stored[j]);
    assert plain[..] == stored;
    var key := FileNameEncryptionKey(version);
    DecipherInPlace(plain, key);
    var name := plain[..];
    assert name == DecipherName(StoredNameAt(stm.data, p0, version).0, key);
    if checksum != ChecksumByVersion(name, version, true) {
      return Err(NameCheckFailed(decode(name)));
    }
    var t := ReadEntryTail(stm, version);
    r := Ok(YpfEntry(checksum, decode(name), t.fileType, t.isCompressed, t.rawFileSize, t.compressedFileSize,
                     t.offset, t.dataChecksum));
  }

  /** Exchanges two records. */
  method Swap(a: array<YpfEntry>, i: nat, j: nat)
    requires i < a.Length && j < a.Length
    modifies a
    ensures a[i] == old(a[j]) && a[j] == old(a[i])
    ensures forall k :: 0 <= k < a.Length && k != i && k != j ==> a[k] == old(a[k])
    ensures multiset(a[..]) == old(multiset(a[..]))
  {
    a[i], a[j] := a[j], a[i];
  }

  /** Records whose key never decreases. */
  predicate SortedBy(s: seq<YpfEntry>, key: YpfEntry -> nat)
  {
    forall i, j :: 0 <= i < j < |s| ==> key(s[i]) <= key(s[j])
  }

  /**
   * `sort.Slice` with a key comparison, done as an insertion sort. The Go sort
   * is not stable, so only "sorted and a permutation" is promised.
   */
  method SortBy(a: array<YpfEntry>, key: YpfEntry -> nat)
    modifies a
    ensures SortedBy(a[..], key)
    ensures multiset(a[..]) == old(multiset(a[..]))
  {
    if a.Length == 0 {
      return;
    }
    var i := 1;
    while i < a.Length
      invariant 1 <= i <= a.Length
      invariant SortedBy(a[..i], key)
      invariant multiset(a[..]) == old(multiset(a[..]))
    {
      InsertLast(a, i, key);
      i := i + 1;
    }
    assert a[..] == a[..a.Length];
  }

  /** Moves a[i] left past every larger key, so that a[..i+1] is sorted. */
  method InsertLast(a: array<YpfEntry>, i: nat, key: YpfEntry -> nat)
    requires i < a.Length && SortedBy(a[..i], key)
    modifies a
    ensures SortedBy(a[..i + 1], key)
    ensures multiset(a[..]) == old(multiset(a[..]))
  {
    var j := i;
    while j > 0 && key(a[j - 1]) > key(a[j])
      invariant 0 <= j <= i
      invariant forall k, l :: 0 <= k < l <= i && l != j ==> key(a[k]) <= key(a[l])
      invariant 0 < j < i ==> key(a[j - 1]) <= key(a[j + 1])
      invariant multiset(a[..]) == old(multiset(a[..]))
    {
      Swap(a, j - 1, j);
      j := j - 1;
    }
  }

  function OffsetKey(e: YpfEntry): nat
  {
    e.offset
  }

  /**
   * One more record after the first k (one pass of the loop at YpfDef.go:70-99):
   * the run of k + 1 records is the run of k extended by it, or its error.
   */
  method ReadNextEntry(stm: Reader, version: u32, decode: GoString -> GoString, ghost p0: nat, ghost k: nat)
    returns (e: Result<YpfEntry, YpfError>)
    requires EntriesFrom(stm.data, p0, version, k, decode).0.Ok?
    requires stm.pos == EntriesFrom(stm.data, p0, version, k, decode).1
    modifies stm
    ensures e.Err? ==> EntriesFrom(stm.data, p0, version, k + 1, decode).0 == Err(e.error)
    ensures e.Ok? ==> EntriesFrom(stm.data, p0, version, k + 1, decode).0
                      == Ok(EntriesFrom(stm.data, p0, version, k, decode).0.value + [e.value])
    ensures stm.pos == EntriesFrom(stm.data, p0, version, k + 1, decode).1
  {
    EntriesFromNext(stm.data, p0, version, k, decode);
    e := ReadEntry(stm, version, decode);
  }

  /** The loop of YpfDef.go:70-99: `count` records into a fresh array, by index; a failed name check returns. */
  method ReadEntries(stm: Reader, version: u32, count: nat, decode: GoString -> GoString)
    returns (r: Result<array<YpfEntry>, YpfError>)
    modifies stm
    ensures r.Err? ==> EntriesFrom(stm.data, old(stm.pos), version, count, decode).0 == Err(r.error)
    ensures r.Ok? ==> fresh(r.value)
    ensures r.Ok? ==> EntriesFrom(stm.data, old(stm.pos), version, count, decode).0 == Ok(r.value[..])
  {
    ghost var p0 := stm.pos;
    var files := new YpfEntry[count](_ => YpfEntry(0, [], 0, 0, 0, 0, 0, 0));
    ghost var acc: seq<YpfEntry> := [];
    var i := 0;
    while i < count
      invariant 0 <= i <= count && files[..i] == acc
      invariant EntriesFrom(stm.data, p0, version, i, decode).0 == Ok(acc)
      invariant stm.pos == EntriesFrom(stm.data, p0, version, i, decode).1
    {
      var e := ReadNextEntry(stm, version, decode, p0, i);
      if e.Err? {
        EntriesStayErr(stm.data, p0, version, i + 1, count, decode);
        return Err(e.error);
      }
      files[i] := e.value;
      acc := acc + [e.value];
      i := i + 1;
    }
    assert files[..] == acc;
    r := Ok(files);
  }

  /** `parseYpf`: the header, the records, then the sort by offset. */
  method ParseYpf(data: seq<byte>, decode: GoString -> GoString) returns (r: Result<YpfInfo, YpfError>)
    ensures IsParseResult(data, decode, r)
  {
    var stm := new Reader(data);
    var _, hb := stm.ReadFull(HeaderSize);
    var header := HeaderOf(hb);
    HeaderMagic(data);
    if header.meta.magic != YpfMagic {
      return Err(NotYpfFile);
    }
    var files := ReadEntries(stm, header.meta.version, header.fileCount, decode);
    if files.Err? {
      return Err(files.error);
    }
    SortBy(files.value, OffsetKey);
    r := Ok(YpfInfo(header, files.value[..]));
  }

  lemma EntriesFromNext(data: seq<byte>, pos: nat, version: u32, k: nat, decode: GoString -> GoString)
    requires EntriesFrom(data, pos, version, k, decode).0.Ok?
    ensures var p := EntriesFrom(data, pos, version, k, decode).1; var e := EntryAt(data, p, version, decode).0;
      EntriesFrom(data, pos, version, k + 1, decode).0
        == if e.Err? then Err(e.error) else Ok(EntriesFrom(data, pos, version, k, decode).0.value + [e.value])
    ensures var p := EntriesFrom(data, pos, version, k, decode).1;
      EntriesFrom(data, pos, version, k + 1, decode).1 == EntryAt(data, p, version, decode).1
  {
  }

  lemma {:induction false} EntriesStayErr(data: seq<byte>, pos: nat, version: u32, k: nat, n: nat,
                                          decode: GoString -> GoString)
    requires k <= n && EntriesFrom(data, pos, version, k, decode).0.Err?
    ensures EntriesFrom(data, pos, version, n, decode).0 == EntriesFrom(data, pos, version, k, decode).0
    decreases n - k
  {
    if k < n {
      EntriesStayErr(data, pos, version, k + 1, n, decode);
    }
  }

  // ---------------------------------------------------------------------------
  // Extraction (YpfDef.go:151-181 and 359-372)

  /** `int64(offset)`: stored offsets from 2^63 on turn negative. */
  function AsInt64(o: u64): (v: int)
    ensures v >= 0 <==> o < 0x8000_0000_0000_0000
    ensures v >= 0 ==> v == o
  {
    if o < 0x8000_0000_0000_0000 then o else o - 0x1_0000_0000_0000_0000
  }

  /**
   * Where `extractFileFromYpf` reads the payload: the `Seek` to the stored
   * offset, which a negative int64 offset leaves at the end of the header.
   */
  function PayloadPos(entry: YpfEntry): nat
  {
    var o := AsInt64(entry.offset);
    if o >= 0 then o else HeaderSize
  }

  /** The buffer after one `Read` of the decompressor: what it delivered, cut to n bytes, then zeros. */
  function Filled(got: seq<byte>, n: nat): (b: seq<byte>)
    ensures |b| == n
    ensures |got| >= n ==> b == got[..n]
    ensures |got| < n ==> b[..|got|] == got && b[|got|..] == Zeros(n - |got|)
  {
    if |got| >= n then got[..n] else got + Zeros(n - |got|)
  }

  /** What `extractFileFromYpf` returns: the bytes and the error, which the source returns together. */
  datatype Extracted = Extracted(bytes: seq<byte>, err: Option<YpfError>)

  /**
   * `extractFileFromYpf`. `inflate(a, n)` stands for zlib: None when
   * `zlib.NewReader` rejects the stream, otherwise what one `Read` into an
   * n-byte buffer delivers. A failed data check does not stop the extraction.
   */
  function ExtractFileSpec(data: seq<byte>, entry: YpfEntry, inflate: (seq<byte>, nat) -> Option<seq<byte>>)
    : (r: Extracted)
    ensures !(|data| >= HeaderSize && data[..4] == YpfMagic) ==> r == Extracted([], Some(NotYpfFile))
  {
    HeaderMagic(data);
    var header := HeaderOf(FullRead(data, 0, HeaderSize));
    if header.meta.magic != YpfMagic then Extracted([], Some(NotYpfFile))
    else
      var a := PartialRead(data, PayloadPos(entry), entry.compressedFileSize);
      var err := if entry.dataChecksum != ChecksumByVersion(a, header.meta.version, false)
                 then Some(DataCheckFailed(entry.fileName)) else None;
      if entry.isCompressed != 1 then Extracted(a, err)
      else
        match inflate(a, entry.rawFileSize)
        case None => Extracted(Zeros(entry.rawFileSize), Some(InflateFailed))
        case Some(got) => Extracted(Filled(got, entry.rawFileSize), err)
  }

  /** The file's size is the compressed size when stored plainly and the raw size otherwise. */
  lemma ExtractedSize(data: seq<byte>, entry: YpfEntry, inflate: (seq<byte>, nat) -> Option<seq<byte>>)
    requires |data| >= HeaderSize && data[..4] == YpfMagic
    ensures var r := ExtractFileSpec(data, entry, inflate);
      |r.bytes| == if entry.isCompressed == 1 then entry.rawFileSize else entry.compressedFileSize
  {
  }

  /** A plainly stored payload inside the archive is returned byte for byte. */
  lemma ExtractPlainPayload(data: seq<byte>, entry: YpfEntry, inflate: (seq<byte>, nat) -> Option<seq<byte>>)
    requires |data| >= HeaderSize && data[..4] == YpfMagic
    requires entry.isCompressed != 1
    requires entry.offset < 0x8000_0000_0000_0000 && entry.offset + entry.compressedFileSize <= |data|
    ensures ExtractFileSpec(data, entry, inflate).bytes == data[entry.offset..entry.offset + entry.compressedFileSize]
  {
    assert PayloadPos(entry) == entry.offset;
  }

  /**
   * The error: none exactly when the checksum of the payload bytes matches,
   * except that a stream zlib rejects always reports the zlib error.
   */
  lemma ExtractError(data: seq<byte>, entry: YpfEntry, inflate: (seq<byte>, nat) -> Option<seq<byte>>)
    requires |data| >= HeaderSize && data[..4] == YpfMagic
    ensures var a := PartialRead(data, PayloadPos(entry), entry.compressedFileSize);
      var r := ExtractFileSpec(data, entry, inflate);
      (entry.isCompressed == 1 && inflate(a, entry.rawFileSize).None? ==> r.err == Some(InflateFailed))
      && (entry.isCompressed != 1 || inflate(a, entry.rawFileSize).Some? ==>
            (r.err.None? <==> entry.dataChecksum == ChecksumByVersion(a, LeValue(data[4..8]), false)))
  {
    HeaderMagic(data);
    Pow256Values();
    PrefixOfPrefix(data, HeaderSize, 8);
    SliceOfPrefix(data, 8, 4, 8);
    assert data[..HeaderSize][..8][4..8] == data[4..8];
  }

  /** An offset of 2^63 or more is read from the end of the header instead. */
  lemma HugeOffsetReadsAfterHeader(entry: YpfEntry)
    requires entry.offset >= 0x8000_0000_0000_0000
    ensures PayloadPos(entry) == HeaderSize
  {
  }

  /** `extractFileFromYpf` over a byte reader. */
  method ExtractFileFromYpf(data: seq<byte>, entry: YpfEntry, inflate: (seq<byte>, nat) -> Option<seq<byte>>)
    returns (fileBytes: seq<byte>, err: Option<YpfError>)
    ensures Extracted(fileBytes, err) == ExtractFileSpec(data, entry, inflate)
  {
    var stm := new Reader(data);
    var _, hb := stm.ReadFull(HeaderSize);
    var header := HeaderOf(hb);
    HeaderMagic(data);
    if header.meta.magic != YpfMagic {
      return [], Some(NotYpfFile);
    }
    stm.Seek(AsInt64(entry.offset));
    var a := stm.Read(entry.compressedFileSize);
    err := None;
    if entry.dataChecksum != ChecksumByVersion(a, header.meta.version, false) {
      err := Some(DataCheckFailed(entry.fileName));
    }
    if entry.isCompressed != 1 {
      var re := new Reader(a);
      fileBytes := re.Read(|a|);
      return;
    }
    fileBytes := Zeros(entry.rawFileSize);
    var got := inflate(a, entry.rawFileSize);
    if got.None? {
      err := Some(InflateFailed);
      return;
    }
    fileBytes := Filled(got.value, entry.rawFileSize);
  }

  /** `extractFileFromYpf` on an archive, as a function of the record. */
  function Extractor(data: seq<byte>, inflate: (seq<byte>, nat) -> Option<seq<byte>>): YpfEntry -> Extracted
  {
    e => ExtractFileSpec(data, e, inflate)
  }

  /**
   * The loop of `extractYpf`: the files written, as (name, bytes) pairs in
   * order, and whether every extraction succeeded; the first error stops it.
   */
  function ExtractRun(files: seq<YpfEntry>, extract: YpfEntry -> Extracted): (r: (bool, seq<(GoString, seq<byte>)>))
    ensures |r.1| <= |files|
    ensures r.0 ==> |r.1| == |files|
    ensures !r.0 ==> |r.1| < |files| && extract(files[|r.1|]).err.Some?
    ensures forall i :: 0 <= i < |r.1| ==>
      extract(files[i]).err.None? && r.1[i] == (files[i].fileName, extract(files[i]).bytes)
    decreases |files|
  {
    if files == [] then (true, [])
    else
      var (ok, w) := ExtractRun(files[..|files| - 1], extract);
      if !ok then (false, w)
      else
        var x := extract(files[|files| - 1]);
        if x.err.Some? then (false, w) else (true, w + [(files[|files| - 1].fileName, x.bytes)])
  }

  /** `extractYpf` succeeds exactly when every file extracts without error. */
  lemma {:induction false} ExtractRunOk(files: seq<YpfEntry>, extract: YpfEntry -> Extracted)
    ensures ExtractRun(files, extract).0 <==> forall i :: 0 <= i < |files| ==> extract(files[i]).err.None?
  {
    var r := ExtractRun(files, extract);
    if r.0 {
      assert |r.1| == |files|;
    } else {
      assert extract(files[|r.1|]).err.Some?;
    }
  }

  /** The loop of YpfDef.go:364-370 over the parsed records. */
  method ExtractAll(data: seq<byte>, files: seq<YpfEntry>, inflate: (seq<byte>, nat) -> Option<seq<byte>>)
    returns (ok: bool, written: seq<(GoString, seq<byte>)>)
    ensures (ok, written) == ExtractRun(files, Extractor(data, inflate))
  {
    ghost var extract := Extractor(data, inflate);
    written := [];
    var i := 0;
    while i < |files|
      invariant 0 <= i <= |files|
      invariant ExtractRun(files[..i], extract) == (true, written)
    {
      var fileBytes, err := ExtractFileFromYpf(data, files[i], inflate);
      assert extract(files[i]) == Extracted(fileBytes, err);
      assert files[..i + 1][..i] == files[..i];
      if err.Some? {
        ExtractRunStaysFailed(files, i + 1, extract);
        return false, written;
      }
      written := written + [(files[i].fileName, fileBytes)];
      i := i + 1;
    }
    assert files[..i] == files;
    ok := true;
  }

  /** Once a prefix has failed, every longer prefix has failed with the same output. */
  lemma {:induction false} ExtractRunStaysFailed(files: seq<YpfEntry>, k: nat, extract: YpfEntry -> Extracted)
    requires k <= |files| && !ExtractRun(files[..k], extract).0
    ensures ExtractRun(files, extract) == ExtractRun(files[..k], extract)
    decreases |files| - k
  {
    if k < |files| {
      assert files[..k + 1][..k] == files[..k];
      ExtractRunStaysFailed(files, k + 1, extract);
    } else {
      assert files[..k] == files;
    }
  }

  /**
   * `extractYpf`: parse the directory, then extract the records in the order
   * parsing left them; returns false on a parse error or the first failed file.
   */
  method ExtractYpf(data: seq<byte>, decode: GoString -> GoString, inflate: (seq<byte>, nat) -> Option<seq<byte>>)
    returns (ok: bool, written: seq<(GoString, seq<byte>)>, parsed: Result<YpfInfo, YpfError>)
    ensures IsParseResult(data, decode, parsed)
    ensures parsed.Err? ==> !ok && written == []
    ensures parsed.Ok? ==> (ok, written) == ExtractRun(parsed.value.files, Extractor(data, inflate))
  {
    parsed := ParseYpf(data, decode);
    if parsed.Err? {
      return false, [], parsed;
    }
    ok, written := ExtractAll(data, parsed.value.files, inflate);
  }
}
