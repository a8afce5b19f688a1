/**
 * The saved-variable file (YSVR): `parseYsvr` (YsvrDef.go:56-94), a header,
 * then `Count` variables, each a seven-byte header, its dimension sizes and
 * a payload whose shape the variable's type selects.
 */
module Ysvr {
  import opened Bytes
  import opened Ybn

  datatype YsvrHeader = YsvrHeader(meta: GenericHeader, count: u16)

  /** Scope 1 is global and 2 static; type 1 is a long, 2 a double, 3 a string. */
  datatype VarHeader = VarHeader(scope: u8, scriptId: u16, varIndex: u16, varType: u8, dimCount: u8)

  /**
   * The value a variable carries. A double is kept as its eight raw bytes;
   * type 0 and every unknown type carry nothing.
   */
  datatype VarData = NoData | Long(value: int) | Double(bits: seq<byte>) | Str(text: GoString)

  datatype Variable = Variable(header: VarHeader, dimSize: seq<u32>, data: VarData)

  datatype YsvrInfo = YsvrInfo(header: YsvrHeader, vars: seq<Variable>)

  datatype ParseError = NotYbnFile

  /** "YSVR" */
  const YsvrMagic: seq<byte> := [0x59, 0x53, 0x56, 0x52]
  const HeaderSize := 10
  const VarHeaderSize := 7

  function HeaderOf(b: seq<byte>): YsvrHeader
    requires |b| == HeaderSize
  {
    Pow256Values();
    YsvrHeader(GenericHeaderOf(b[..8]), LeValue(b[8..10]))
  }

  function VarHeaderOf(b: seq<byte>): VarHeader
    requires |b| == VarHeaderSize
  {
    Pow256Values();
    VarHeader(b[0] as int, LeValue(b[1..3]), LeValue(b[3..5]), b[5] as int, b[6] as int)
  }

  /** The payload for a type, read at `pos`, and the position after it. */
  function PayloadAt(data: seq<byte>, pos: nat, varType: u8, decode: GoString -> GoString): (r: (VarData, nat))
    ensures varType == 0 || varType > 3 ==> r == (NoData, pos)
    ensures varType == 1 ==> r.0.Long?
    ensures varType == 2 ==> r.0.Double? && |r.0.bits| == 8
    ensures varType == 3 ==> r.0.Str?
  {
    Pow256Values();
    if varType == 1 then
      (Long(Int64Of(FullRead(data, pos, 8))), AfterFullRead(data, pos, 8))
    else if varType == 2 then
      (Double(FullRead(data, pos, 8)), AfterFullRead(data, pos, 8))
    else if varType == 3 then
      var (len, p1) := ReadUintAt(data, pos, 2);
      var (b, p2) := ReadBytesAt(data, p1, len);
      (Str(decode(b)), p2)
    else (NoData, pos)
  }

  /** The variable read at `pos`, and the position after it. */
  function VariableAt(data: seq<byte>, pos: nat, decode: GoString -> GoString): (r: (Variable, nat))
    ensures |r.0.dimSize| == r.0.header.dimCount
    ensures r.1 >= pos
  {
    var header := VarHeaderOf(FullRead(data, pos, VarHeaderSize));
    var p1 := AfterFullRead(data, pos, VarHeaderSize);
    var n := header.dimCount;
    var dims := LeWords(FullRead(data, p1, 4 * n), n);
    var p2 := AfterFullRead(data, p1, 4 * n);
    var (payload, p3) := PayloadAt(data, p2, header.varType, decode);
    (Variable(header, dims, payload), p3)
  }

  /** The number of bytes a type's payload takes in complete input. */
  function PayloadSize(data: seq<byte>, pos: nat, varType: u8): nat
    requires varType == 3 ==> pos + 2 <= |data|
  {
    if varType == 1 || varType == 2 then 8
    else if varType == 3 then 2 + LeValue(data[pos..pos + 2])
    else 0
  }

  /** On complete input a payload takes exactly its size, and a string its length-prefixed bytes. */
  lemma PayloadAtWellFormed(data: seq<byte>, pos: nat, varType: u8, decode: GoString -> GoString)
    requires varType == 3 ==> pos + 2 <= |data|
    requires pos + PayloadSize(data, pos, varType) <= |data|
    ensures PayloadAt(data, pos, varType, decode).1 == pos + PayloadSize(data, pos, varType)
    ensures varType == 1 ==> PayloadAt(data, pos, varType, decode).0 == Long(Int64Of(data[pos..pos + 8]))
    ensures varType == 2 ==> PayloadAt(data, pos, varType, decode).0 == Double(data[pos..pos + 8])
    ensures varType == 3 ==>
      PayloadAt(data, pos, varType, decode).0 == Str(decode(data[pos + 2..pos + PayloadSize(data, pos, varType)]))
  {
    Pow256Values();
  }

  /**
   * On complete input a variable takes its seven header bytes, then four bytes
   * per dimension, then its payload; header and sizes are the bytes there.
   */
  lemma VariableAtWellFormed(data: seq<byte>, pos: nat, decode: GoString -> GoString)
    requires pos + VarHeaderSize <= |data|
    requires pos + VarHeaderSize + 4 * data[pos + 6] as int <= |data|
    ensures var r := VariableAt(data, pos, decode); var p := pos + VarHeaderSize + 4 * data[pos + 6] as int;
      r.0.header == VarHeaderOf(data[pos..pos + VarHeaderSize])
      && r.0.dimSize == LeWords(data[pos + VarHeaderSize..p], data[pos + 6] as int)
      && (r.0.data, r.1) == PayloadAt(data, p, data[pos + 5] as int, decode)
  {
  }

  /** The first k variables from `pos`, one after the other, and the position after the last. */
  function VariablesFrom(data: seq<byte>, pos: nat, k: nat, decode: GoString -> GoString): (r: (seq<Variable>, nat))
    ensures |r.0| == k && r.1 >= pos
    decreases k
  {
    if k == 0 then ([], pos)
    else
      var (prev, p) := VariablesFrom(data, pos, k - 1, decode);
      var (v, p') := VariableAt(data, p, decode);
      (prev + [v], p')
  }

  lemma HeaderMagic(data: seq<byte>)
    ensures var h := HeaderOf(FullRead(data, 0, HeaderSize));
      (h.meta.magic == YsvrMagic <==> |data| >= HeaderSize && data[..4] == YsvrMagic)
      && (|data| >= HeaderSize ==> h == HeaderOf(data[..HeaderSize]))
  {
    var b := FullRead(data, 0, HeaderSize);
    if |data| < HeaderSize {
      assert b[..8][..4][0] == 0;
    } else {
      assert b[..8][..4] == data[..4];
    }
  }

  /** What `parseYsvr` returns. */
  function ParseYsvrSpec(data: seq<byte>, decode: GoString -> GoString): (r: Result<YsvrInfo, ParseError>)
    ensures r.Err? <==> !(|data| >= HeaderSize && data[..4] == YsvrMagic)
    ensures r.Ok? ==> r.value.header == HeaderOf(data[..HeaderSize])
    ensures r.Ok? ==> |r.value.vars| == r.value.header.count
  {
    HeaderMagic(data);
    var header := HeaderOf(FullRead(data, 0, HeaderSize));
    if header.meta.magic != YsvrMagic then Err(NotYbnFile)
    else Ok(YsvrInfo(header, VariablesFrom(data, HeaderSize, header.count, decode).0))
  }

  /** The switch of YsvrDef.go:71-91. */
  method ReadPayload(stm: Reader, varType: u8, decode: GoString -> GoString) returns (d: VarData)
    modifies stm
    ensures (d, stm.pos) == PayloadAt(stm.data, old(stm.pos), varType, decode)
  {
    Pow256Values();
    match varType {
      case 0 =>
        d := NoData;
      case 1 =>
        var _, b := stm.ReadFull(8);
        d := Long(Int64Of(b));
      case 2 =>
        var _, b := stm.ReadFull(8);
        d := Double(b);
      case 3 =>
        var len := stm.ReadUint(2);
        var b := stm.Read(len);
        d := Str(decode(b));
      case _ =>
        d := NoData;
    }
  }

  /** One variable: its header, its dimension sizes in one read, its payload (YsvrDef.go:67-91). */
  method ReadVariable(stm: Reader, decode: GoString -> GoString) returns (v: Variable)
    modifies stm
    ensures (v, stm.pos) == VariableAt(stm.data, old(stm.pos), decode)
  {
    var _, hb := stm.ReadFull(VarHeaderSize);
    var header := VarHeaderOf(hb);
    var _, db := stm.ReadFull(4 * header.dimCount);
    var dims := LeWords(db, header.dimCount);
    var payload := ReadPayload(stm, header.varType, decode);
    v := Variable(header, dims, payload);
  }

  /** The loop of YsvrDef.go:65-92: `count` variables into a fresh array, by index. */
  method ReadVariables(stm: Reader, count: nat, decode: GoString -> GoString) returns (vars: seq<Variable>)
    modifies stm
    ensures (vars, stm.pos) == VariablesFrom(stm.data, old(stm.pos), count, decode)
  {
    ghost var p0 := stm.pos;
    var a := new Variable[count](_ => Variable(VarHeader(0, 0, 0, 0, 0), [], NoData));
    var i := 0;
    while i < count
      invariant 0 <= i <= count
      invariant a[..i] == VariablesFrom(stm.data, p0, i, decode).0
      invariant stm.pos == VariablesFrom(stm.data, p0, i, decode).1
      modifies a, stm
    {
      ghost var prev := a[..i];
      var v := ReadVariable(stm, decode);
      a[i] := v;
      assert a[..i + 1] == prev + [v];
      i := i + 1;
    }
    assert a[..] == a[..count];
    vars := a[..];
  }

  /** `parseYsvr`. */
  method ParseYsvr(data: seq<byte>, decode: GoString -> GoString) returns (r: Result<YsvrInfo, ParseError>)
    ensures r == ParseYsvrSpec(data, decode)
  {
    var stm := new Reader(data);
    var _, hb := stm.ReadFull(HeaderSize);
    var header := HeaderOf(hb);
    HeaderMagic(data);
    if header.meta.magic != YsvrMagic {
      return Err(NotYbnFile);
    }
    assert stm.pos == HeaderSize;
    var vars := ReadVariables(stm, header.count, decode);
    r := Ok(YsvrInfo(header, vars));
  }
}
