/**
 * The script-list file (YSTL): its parser `parseYstl` (YstlDef.go:63-87) and
 * the instruction text `parseYstlFile` writes for it (YstlDef.go:49-58).
 */
module Ystl {
  import opened Bytes
  import opened Ybn
  import opened Text

  datatype YstlHeader = YstlHeader(meta: GenericHeader, count: u32)

  /**
   * One script record. `sourceLength` is part of the record type but the
   * parser reads the length into a local, so the field keeps its zero value.
   */
  datatype ScriptInfo = ScriptInfo(
    id: u32,
    sourceLength: u32,
    source: GoString,
    modificationTime: u64,
    varCount: u32,
    lblCount: u32,
    txtCount: u32)

  datatype YstlInfo = YstlInfo(header: YstlHeader, scripts: seq<ScriptInfo>)

  datatype ParseError = NotYbnFile

  /** "YSTL" */
  const YstlMagic: seq<byte> := [0x59, 0x53, 0x54, 0x4C]
  const HeaderSize := 12

  function HeaderOf(b: seq<byte>): YstlHeader
    requires |b| == HeaderSize
  {
    Pow256Values();
    YstlHeader(GenericHeaderOf(b[..8]), LeValue(b[8..12]))
  }

  /** The record read at `pos`, and the position after it. */
  function ScriptAt(data: seq<byte>, pos: nat, decode: GoString -> GoString): (r: (ScriptInfo, nat))
    ensures r.0.sourceLength == 0
    ensures r.1 >= pos
  {
    Pow256Values();
    var (id, p1) := ReadUintAt(data, pos, 4);
    var (len, p2) := ReadUintAt(data, p1, 4);
    var (name, p3) := ReadBytesAt(data, p2, len);
    var (time, p4) := ReadUintAt(data, p3, 8);
    var (vars, p5) := ReadUintAt(data, p4, 4);
    var (lbls, p6) := ReadUintAt(data, p5, 4);
    var (txts, p7) := ReadUintAt(data, p6, 4);
    (ScriptInfo(id, 0, decode(name), time, vars, lbls, txts), p7)
  }

  /** The length field of the record at `pos`. */
  function SourceLengthAt(data: seq<byte>, pos: nat): nat
    requires pos + 8 <= |data|
  {
    LeValue(data[pos + 4..pos + 8])
  }

  /**
   * A complete record is the id, the length, that many name bytes, the time
   * and three counts: it takes 28 + length bytes, and its source is the
   * decoding of exactly the name bytes.
   */
  lemma ScriptAtWellFormed(data: seq<byte>, pos: nat, decode: GoString -> GoString)
    requires pos + 8 <= |data| && pos + 28 + SourceLengthAt(data, pos) <= |data|
    ensures var len := SourceLengthAt(data, pos);
      ScriptAt(data, pos, decode) ==
        (ScriptInfo(
          LeValue(data[pos..pos + 4]), 0,
          decode(data[pos + 8..pos + 8 + len]),
          LeValue(data[pos + 8 + len..pos + 16 + len]),
          LeValue(data[pos + 16 + len..pos + 20 + len]),
          LeValue(data[pos + 20 + len..pos + 24 + len]),
          LeValue(data[pos + 24 + len..pos + 28 + len])),
         pos + 28 + len)
  {
  }

  /** The first k records from `pos`, one after the other, and the position after the last. */
  function ScriptsFrom(data: seq<byte>, pos: nat, k: nat, decode: GoString -> GoString): (r: (seq<ScriptInfo>, nat))
    ensures |r.0| == k && r.1 >= pos
    ensures forall i :: 0 <= i < k ==> r.0[i].sourceLength == 0
    decreases k
  {
    if k == 0 then ([], pos)
    else
      var (prev, p) := ScriptsFrom(data, pos, k - 1, decode);
      var (s, p') := ScriptAt(data, p, decode);
      (prev + [s], p')
  }

  /** The header `binary.Read` fills: the first twelve bytes, or all zeros when there are fewer. */
  lemma HeaderMagic(data: seq<byte>)
    ensures var h := HeaderOf(FullRead(data, 0, HeaderSize));
      (h.meta.magic == YstlMagic <==> |data| >= HeaderSize && data[..4] == YstlMagic)
      && (|data| >= HeaderSize ==> h == HeaderOf(data[..HeaderSize]))
  {
    var b := FullRead(data, 0, HeaderSize);
    if |data| < HeaderSize {
      assert b[..8][..4][0] == 0;
    } else {
      assert b[..8][..4] == data[..4];
    }
  }

  /** What `parseYstl` returns. */
  function ParseYstlSpec(data: seq<byte>, decode: GoString -> GoString): (r: Result<YstlInfo, ParseError>)
    ensures r.Err? <==> !(|data| >= HeaderSize && data[..4] == YstlMagic)
    ensures r.Ok? ==> r.value.header == HeaderOf(data[..HeaderSize])
    ensures r.Ok? ==> |r.value.scripts| == r.value.header.count
    ensures r.Ok? ==> forall i :: 0 <= i < |r.value.scripts| ==> r.value.scripts[i].sourceLength == 0
  {
    HeaderMagic(data);
    var header := HeaderOf(FullRead(data, 0, HeaderSize));
    if header.meta.magic != YstlMagic then Err(NotYbnFile)
    else Ok(YstlInfo(header, ScriptsFrom(data, HeaderSize, header.count, decode).0))
  }

  /** Reads one record (YstlDef.go:74-84). */
  method ReadScript(stm: Reader, decode: GoString -> GoString) returns (scr: ScriptInfo)
    modifies stm
    ensures (scr, stm.pos) == ScriptAt(stm.data, old(stm.pos), decode)
  {
    Pow256Values();
    var id := stm.ReadUint(4);
    var sourceLength := stm.ReadUint(4);
    var encodedName := stm.Read(sourceLength);
    var modificationTime := stm.ReadUint(8);
    var varCount := stm.ReadUint(4);
    var lblCount := stm.ReadUint(4);
    var txtCount := stm.ReadUint(4);
    scr := ScriptInfo(id, 0, decode(encodedName), modificationTime, varCount, lblCount, txtCount);
  }

  /** `parseYstl`: the header, the magic check, then exactly `Count` records filled in by index. */
  method ParseYstl(data: seq<byte>, decode: GoString -> GoString) returns (r: Result<YstlInfo, ParseError>)
    ensures r == ParseYstlSpec(data, decode)
  {
    var stm := new Reader(data);
    var _, hb := stm.ReadFull(HeaderSize);
    var header := HeaderOf(hb);
    HeaderMagic(data);
    if header.meta.magic != YstlMagic {
      return Err(NotYbnFile);
    }
    assert stm.pos == HeaderSize;
    var scripts := ReadScripts(stm, header.count, decode);
    r := Ok(YstlInfo(header, scripts));
  }

  /** The loop of YstlDef.go:72-85: `count` records into a fresh array, by index. */
  method ReadScripts(stm: Reader, count: nat, decode: GoString -> GoString) returns (scripts: seq<ScriptInfo>)
    modifies stm
    ensures (scripts, stm.pos) == ScriptsFrom(stm.data, old(stm.pos), count, decode)
  {
    ghost var p0 := stm.pos;
    var a := new ScriptInfo[count](_ => ScriptInfo(0, 0, [], 0, 0, 0, 0));
    ghost var acc: seq<ScriptInfo> := [];
    var i := 0;
    while i < count
      invariant 0 <= i <= count
      invariant a[..i] == acc
      invariant (acc, stm.pos) == ScriptsFrom(stm.data, p0, i, decode)
      modifies a, stm
    {
      var scr := ReadNextScript(stm, decode, p0, i);
      a[i] := scr;
      acc := acc + [scr];
      assert a[..i + 1] == acc;
      i := i + 1;
    }
    assert a[..] == a[..count];
    scripts := a[..];
  }

  /** One more record after the first k: the run of k + 1 records is the run of k extended by it. */
  method ReadNextScript(stm: Reader, decode: GoString -> GoString, ghost p0: nat, ghost k: nat) returns (scr: ScriptInfo)
    requires stm.pos == ScriptsFrom(stm.data, p0, k, decode).1
    modifies stm
    ensures ScriptsFrom(stm.data, p0, k + 1, decode) == (ScriptsFrom(stm.data, p0, k, decode).0 + [scr], stm.pos)
  {
    scr := ReadScript(stm, decode);
  }

  // ---------------------------------------------------------------------------
  // Instruction text

  /** "yst" */
  const Yst: seq<byte> := [0x79, 0x73, 0x74]
  /** ".ybn => " */
  const YbnArrow: seq<byte> := [0x2E, 0x79, 0x62, 0x6E, 0x20, 0x3D, 0x3E, 0x20]
  /** "  (" */
  const OpenCounts: seq<byte> := [0x20, 0x20, 0x28]
  const Comma: byte := 0x2C
  /** ")" then a newline */
  const CloseLine: seq<byte> := [0x29, 0x0A]

  /** One line of `yst%05d.ybn => %s  (%v,%v,%v,%v)\n`. */
  function InstructionLine(s: ScriptInfo): (line: GoString)
    ensures |line| > 3 && line[..3] == Yst
    ensures line[|line| - 1] == Newline
  {
    Yst + Pad5(s.id) + YbnArrow + s.source + OpenCounts
      + Decimal(s.modificationTime) + [Comma] + Decimal(s.varCount) + [Comma]
      + Decimal(s.lblCount) + [Comma] + Decimal(s.txtCount) + CloseLine
  }

  /** The whole text: one line per record, in record order. */
  function Instructions(scripts: seq<ScriptInfo>): GoString
    decreases |scripts|
  {
    if scripts == [] then [] else Instructions(scripts[..|scripts| - 1]) + InstructionLine(scripts[|scripts| - 1])
  }

  /** The `+=` loop of YstlDef.go:51-55; the `TrimRight` result is dropped, so the text is used as built. */
  method RenderInstructions(scripts: seq<ScriptInfo>) returns (out: GoString)
    ensures out == Instructions(scripts)
  {
    out := [];
    var i := 0;
    while i < |scripts|
      invariant 0 <= i <= |scripts|
      invariant out == Instructions(scripts[..i])
    {
      assert scripts[..i + 1][..i] == scripts[..i];
      out := out + InstructionLine(scripts[i]);
      i := i + 1;
    }
    assert scripts[..i] == scripts;
  }

  /** The script number can be read back from the five or more digits after "yst". */
  lemma InstructionLineId(s: ScriptInfo)
    ensures var line := InstructionLine(s); var d := |Pad5(s.id)|;
      3 + d <= |line| && Atoi(line[3..3 + d]) == Some(s.id)
  {
    var line := InstructionLine(s);
    var d := |Pad5(s.id)|;
    assert line[3..3 + d] == Pad5(s.id);
    AtoiOfPad5(s.id);
  }

  /** A non-empty text ends in a newline: nothing trims the last one. */
  lemma {:induction false} InstructionsEndWithNewline(scripts: seq<ScriptInfo>)
    requires scripts != []
    ensures var t := Instructions(scripts); |t| > 0 && t[|t| - 1] == Newline
  {
    var line := InstructionLine(scripts[|scripts| - 1]);
    var t := Instructions(scripts);
    assert t == Instructions(scripts[..|scripts| - 1]) + line;
    assert t[|t| - 1] == line[|line| - 1];
  }
}
