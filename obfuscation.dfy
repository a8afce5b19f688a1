/**
 * How a YPF directory hides file names: the name's length byte is stored
 * complemented and passed through a version-dependent swapping table, and
 * every name byte is complemented and xor-ed with a version-dependent key
 * (YpfDef.go:41-56, 74-81, 183-190 and 329-333).
 */
module Obfuscation {
  import opened Bytes

  /** The pairs the table of version 500 and later exchanges (YpfDef.go:43). */
  function SwapFrom500(b: byte): byte
  {
    if b == 3 then 10 else if b == 10 then 3
    else if b == 6 then 53 else if b == 53 then 6
    else if b == 9 then 11 else if b == 11 then 9
    else if b == 12 then 16 else if b == 16 then 12
    else if b == 13 then 19 else if b == 19 then 13
    else if b == 17 then 24 else if b == 24 then 17
    else if b == 20 then 46 else if b == 46 then 20
    else if b == 21 then 27 else if b == 27 then 21
    else if b == 28 then 30 else if b == 30 then 28
    else if b == 32 then 35 else if b == 35 then 32
    else if b == 38 then 41 else if b == 41 then 38
    else if b == 44 then 47 else if b == 47 then 44
    else b
  }

  /** The pairs the table of earlier versions exchanges (YpfDef.go:45). */
  function SwapBefore500(b: byte): byte
  {
    if b == 3 then 72 else if b == 72 then 3
    else if b == 6 then 53 else if b == 53 then 6
    else if b == 9 then 11 else if b == 11 then 9
    else if b == 12 then 16 else if b == 16 then 12
    else if b == 13 then 19 else if b == 19 then 13
    else if b == 17 then 25 else if b == 25 then 17
    else if b == 21 then 27 else if b == 27 then 21
    else if b == 28 then 30 else if b == 30 then 28
    else if b == 32 then 35 else if b == 35 then 32
    else if b == 38 then 41 else if b == 41 then 38
    else if b == 44 then 47 else if b == 47 then 44
    else if b == 46 then 50 else if b == 50 then 46
    else b
  }

  function SwapByte(version: u32, b: byte): byte
  {
    if version >= 500 then SwapFrom500(b) else SwapBefore500(b)
  }

  /** Each table exchanges disjoint pairs, so applying it twice gives the byte back. */
  lemma SwapByteInvolution(version: u32, b: byte)
    ensures SwapByte(version, SwapByte(version, b)) == b
  {
  }

  /** `getLengthSwappingTable`: entry b is the partner of b. */
  function LengthSwappingTable(version: u32): (t: seq<byte>)
    ensures |t| == 256
    ensures forall b: byte :: t[b as int] == SwapByte(version, b)
  {
    seq(256, i requires 0 <= i < 256 => SwapByte(version, i as byte))
  }

  /** The table is its own inverse. */
  lemma TableIsInvolution(version: u32, b: byte)
    ensures var t := LengthSwappingTable(version); t[t[b as int] as int] == b
  {
    SwapByteInvolution(version, b);
  }

  /** `getFileNameEncryptionKey`. */
  function FileNameEncryptionKey(version: u32): (k: byte)
    ensures k == 64 <==> version == 290
    ensures k == 54 <==> version > 500
    ensures k == 0 <==> version != 290 && version <= 500
  {
    if version == 290 then 64 else if version > 500 then 54 else 0
  }

  /** What the reader does with a stored name byte: complement, then xor the key. */
  function DecipherByte(x: byte, key: byte): byte
  {
    (!x) ^ key
  }

  /** What the writer does with a name byte: xor the key, then complement. */
  function CipherByte(x: byte, key: byte): byte
  {
    !(x ^ key)
  }

  /** The two transforms are one and the same map, and that map undoes itself. */
  lemma CipherIsDecipher(x: byte, key: byte)
    ensures CipherByte(x, key) == DecipherByte(x, key)
    ensures DecipherByte(CipherByte(x, key), key) == x
  {
  }

  function DecipherName(s: seq<byte>, key: byte): (r: seq<byte>)
    ensures |r| == |s|
    ensures forall j :: 0 <= j < |s| ==> r[j] == DecipherByte(s[j], key)
  {
    seq(|s|, j requires 0 <= j < |s| => DecipherByte(s[j], key))
  }

  function CipherName(s: seq<byte>, key: byte): (r: seq<byte>)
    ensures |r| == |s|
    ensures forall j :: 0 <= j < |s| ==> r[j] == CipherByte(s[j], key)
  {
    seq(|s|, j requires 0 <= j < |s| => CipherByte(s[j], key))
  }

  /** A name the writer ciphers with a key is read back by the reader with that key. */
  lemma NameCipherRoundTrip(s: seq<byte>, key: byte)
    ensures DecipherName(CipherName(s, key), key) == s
  {
    forall j | 0 <= j < |s|
      ensures DecipherName(CipherName(s, key), key)[j] == s[j]
    {
      CipherIsDecipher(s[j], key);
    }
  }

  /** The name length the reader derives from a stored length byte (YpfDef.go:74-76). */
  function DecodeLength(version: u32, stored: byte): byte
  {
    LengthSwappingTable(version)[(!stored) as int]
  }

  /** `IndexOfByte`: the first index holding `candidate`, truncated to a byte; 0 when there is none. */
  method IndexOfByte(arr: seq<byte>, candidate: byte) returns (r: byte)
    ensures candidate in arr ==> r as int == FirstIndex(arr, candidate) % 256
    ensures candidate !in arr ==> r == 0
  {
    var index := 0;
    while index < |arr|
      invariant 0 <= index <= |arr|
      invariant candidate !in arr[..index]
    {
      if arr[index] == candidate {
        FirstIndexIsFirst(arr, candidate, index);
        ByteOfSmall(index % 256);
        return (index % 256) as byte;
      }
      index := index + 1;
    }
    assert arr[..index] == arr;
    r := 0;
  }

  lemma ByteToIntToByte(b: byte)
    ensures (b as int) as byte == b
  {
  }

  /** In the self-inverse table, the first index holding v is the partner of v. */
  lemma IndexInSwappingTable(version: u32, v: byte)
    ensures v in LengthSwappingTable(version)
    ensures FirstIndex(LengthSwappingTable(version), v) == SwapByte(version, v) as int
  {
    var t := LengthSwappingTable(version);
    var w := SwapByte(version, v);
    SwapByteInvolution(version, v);
    assert t[w as int] == v;
    var f := FirstIndex(t, v);
    ByteOfSmall(f);
    var fb := f as byte;
    assert t[fb as int] == v;
    SwapByteInvolution(version, fb);
  }

  /**
   * The length byte `packYpf` writes (YpfDef.go:329-330): the index of the
   * length in the table, without the complement the reader undoes.
   */
  function EncodeLengthAsWritten(version: u32, len: byte): (b: byte)
    ensures b == SwapByte(version, len)
  {
    IndexInSwappingTable(version, len);
    ByteToIntToByte(SwapByte(version, len));
    FirstIndex(LengthSwappingTable(version), len) as byte
  }

  /** What `IndexOfByte` finds in the table is the length byte as written. */
  lemma IndexOfByteInTable(version: u32, len: byte, r: byte)
    requires len in LengthSwappingTable(version) ==> r as int == FirstIndex(LengthSwappingTable(version), len) % 256
    ensures r == EncodeLengthAsWritten(version, len)
  {
    IndexInSwappingTable(version, len);
  }

  /** The length byte that the reader maps back to the length. */
  function EncodeLength(version: u32, len: byte): byte
  {
    !LengthSwappingTable(version)[len as int]
  }

  /** The corrected length byte always decodes to the length it encodes. */
  lemma LengthRoundTrip(version: u32, len: byte)
    ensures DecodeLength(version, EncodeLength(version, len)) == len
  {
    TableIsInvolution(version, len);
  }

  /**
   * The length byte as written never decodes to the length it was meant to
   * encode, for any version and any length: the reader complements the byte
   * first, and the table maps only the partner of a length back to it.
   */
  lemma LengthAsWrittenNeverRoundTrips(version: u32, len: byte)
    ensures DecodeLength(version, EncodeLengthAsWritten(version, len)) != len
  {
    var b := SwapByte(version, len);
    SwapByteInvolution(version, !b);
    assert !b != b;
  }

  /** A concrete case: a five-byte name in a version 500 archive reads back as 250 bytes long. */
  lemma LengthAsWrittenExample()
    ensures EncodeLengthAsWritten(500, 5) == 5
    ensures DecodeLength(500, 5) == 250
  {
    assert SwapByte(500, 5) == 5;
    assert SwapByte(500, 250) == 250;
  }
}
