/**
 * Pieces shared by the compiled-script (YBN) formats: the eight-byte generic
 * header (YbnDef.go:12-15) and the zero-terminated string reader
 * `readAnsiStr` (YbnDef.go:42-55).
 */
module Ybn {
  import opened Bytes

  /** Four magic bytes, then a little-endian u32 version. */
  datatype GenericHeader = GenericHeader(magic: seq<byte>, version: u32)

  const GenericHeaderSize := 8

  /** The header decoded from its eight bytes. */
  function GenericHeaderOf(b: seq<byte>): (h: GenericHeader)
    requires |b| == GenericHeaderSize
    ensures |h.magic| == 4
  {
    Pow256Values();
    GenericHeader(b[..4], LeValue(b[4..8]))
  }

  /** The eight bytes `binary.Write` emits for a header. */
  function GenericHeaderBytes(h: GenericHeader): (b: seq<byte>)
    requires |h.magic| == 4
    ensures |b| == GenericHeaderSize
  {
    h.magic + LeBytes(h.version, 4)
  }

  lemma GenericHeaderRoundTrip(h: GenericHeader)
    requires |h.magic| == 4
    ensures GenericHeaderOf(GenericHeaderBytes(h)) == h
  {
    var b := GenericHeaderBytes(h);
    Pow256Values();
    assert b[..4] == h.magic;
    assert b[4..8] == LeBytes(h.version, 4);
    LeValueOfLeBytes(h.version, 4);
  }

  lemma GenericHeaderBytesRoundTrip(b: seq<byte>)
    requires |b| == GenericHeaderSize
    ensures GenericHeaderBytes(GenericHeaderOf(b)) == b
  {
    LeBytesOfLeValue(b[4..8]);
    assert b == b[..4] + b[4..8];
  }

  /** The bytes `readAnsiStr` collects: everything before the first zero. */
  function AnsiStrBytes(data: seq<byte>, pos: nat): seq<byte>
    requires pos >= |data| || 0 in data[pos..]
  {
    if pos >= |data| then [] else data[pos..pos + FirstIndex(data[pos..], 0)]
  }

  /** Where the reader stands afterwards: just past the zero, or unmoved at the end of input. */
  function AfterAnsiStr(data: seq<byte>, pos: nat): nat
    requires pos >= |data| || 0 in data[pos..]
  {
    if pos >= |data| then pos else pos + FirstIndex(data[pos..], 0) + 1
  }

  /**
   * The string holds no zero, the reader ends just past the zero that follows
   * it, and at the end of the input nothing is read.
   */
  lemma AnsiStrFacts(data: seq<byte>, pos: nat)
    requires pos >= |data| || 0 in data[pos..]
    ensures 0 !in AnsiStrBytes(data, pos)
    ensures pos >= |data| ==> AnsiStrBytes(data, pos) == [] && AfterAnsiStr(data, pos) == pos
    ensures pos < |data| ==> var s := AnsiStrBytes(data, pos);
      pos + |s| < |data| && s == data[pos..pos + |s|] && data[pos + |s|] == 0
      && AfterAnsiStr(data, pos) == pos + |s| + 1
  {
    if pos < |data| {
      var z := FirstIndex(data[pos..], 0);
      assert forall j :: 0 <= j < z ==> data[pos..pos + z][j] == data[pos..][j];
    }
  }

  /** The string `readAnsiStr` returns: empty without decoding, or the decoded bytes. */
  function AnsiStr(data: seq<byte>, pos: nat, decode: GoString -> GoString): GoString
    requires pos >= |data| || 0 in data[pos..]
  {
    var s := AnsiStrBytes(data, pos);
    if s == [] then [] else decode(s)
  }

  /**
   * `readAnsiStr` over a byte reader. A read past the end leaves the last byte
   * in place, so on input that ends before a zero the loop would never stop:
   * callers must supply a terminating zero (or an exhausted reader).
   */
  method ReadAnsiStr(r: Reader, decode: GoString -> GoString) returns (s: GoString)
    requires r.pos >= |r.data| || 0 in r.data[r.pos..]
    modifies r
    ensures s == AnsiStr(r.data, old(r.pos), decode)
    ensures r.pos == AfterAnsiStr(r.data, old(r.pos))
  {
    ghost var p0 := r.pos;
    var ok, b := r.ReadByte();
    if !ok {
      // b stays 0: the loop does not run and the result is empty
      return [];
    }
    var bf := BytesUntilZero(r, b, p0);
    if |bf| == 0 {
      return [];
    }
    s := decode(bf);
  }

  /** The loop of `readAnsiStr`, after the first byte `b` of the string was read at `p0`. */
  method BytesUntilZero(r: Reader, b: byte, ghost p0: nat) returns (bf: seq<byte>)
    requires p0 < |r.data| && 0 in r.data[p0..]
    requires r.pos == p0 + 1 && b == r.data[p0]
    modifies r
    ensures bf == AnsiStrBytes(r.data, p0)
    ensures r.pos == AfterAnsiStr(r.data, p0)
  {
    ghost var z := FirstIndex(r.data[p0..], 0);
    assert r.data[p0 + z] == 0;
    assert forall j :: 0 <= j < z ==> r.data[p0 + j] == r.data[p0..][j];
    bf := [];
    var c := b;
    while c != 0
      invariant |bf| <= z && r.pos == p0 + |bf| + 1
      invariant forall j :: 0 <= j < |bf| ==> bf[j] == r.data[p0 + j]
      invariant c == r.data[p0 + |bf|]
      decreases z - |bf|
    {
      bf := bf + [c];
      var ok, got := r.ReadByte();
      if ok {
        c := got;
      }
    }
    assert bf == r.data[p0..p0 + z];
  }
}
