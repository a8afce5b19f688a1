/**
 * Byte strings, fixed-width little-endian integers, and the position-carrying
 * reader every parser of the tool is built on: Go's `bytes.Reader`, driven by
 * `binary.Read` (all-or-nothing reads of a fixed-size value) and by the
 * reader's own `Read` (a partial copy into a zeroed buffer).
 */
module Bytes {

  type byte = bv8

  /** A Go string is an immutable byte string; `len` counts bytes. */
  type GoString = seq<byte>

  type u8 = x: int | 0 <= x < 0x100
  type u16 = x: int | 0 <= x < 0x1_0000
  type u32 = x: int | 0 <= x < 0x1_0000_0000
  type u64 = x: int | 0 <= x < 0x1_0000_0000_0000_0000

  datatype Option<+T> = None | Some(value: T)

  /** A parse outcome: the decoded value, or the error the source reports. */
  datatype Result<+T, +E> = Ok(value: T) | Err(error: E)

  /** A number below 256 survives the conversion to a byte and back. */
  lemma ByteOfSmall(r: nat)
    requires r < 256
    ensures (r as byte) as nat == r
  {
    assert r % 256 == r;
  }

  function Min(a: int, b: int): int { if a <= b then a else b }

  function Zeros(n: nat): (z: seq<byte>)
    ensures |z| == n
    ensures forall i :: 0 <= i < n ==> z[i] == 0
  {
    seq(n, _ => 0)
  }

  function Pow256(n: nat): (p: nat)
    ensures p >= 1
  {
    if n == 0 then 1 else 256 * Pow256(n - 1)
  }

  lemma Pow256Values()
    ensures Pow256(1) == 0x100 && Pow256(2) == 0x1_0000 && Pow256(4) == 0x1_0000_0000
    ensures Pow256(8) == 0x1_0000_0000_0000_0000
  {
  }

  /** The unsigned integer whose little-endian encoding is `s`. */
  function LeValue(s: seq<byte>): (v: nat)
    ensures v < Pow256(|s|)
  {
    if s == [] then 0 else s[0] as nat + 256 * LeValue(s[1..])
  }

  /** The `n`-byte little-endian encoding of `v` (what `binary.Write` emits for an n-byte integer). */
  function LeBytes(v: nat, n: nat): (s: seq<byte>)
    ensures |s| == n
  {
    if n == 0 then [] else [(v % 256) as byte] + LeBytes(v / 256, n - 1)
  }

  /** Reading back an encoded integer that fits its width yields the integer. */
  lemma {:induction false} LeValueOfLeBytes(v: nat, n: nat)
    requires v < Pow256(n)
    ensures LeValue(LeBytes(v, n)) == v
  {
    if n > 0 {
      var q, r := v / 256, v % 256;
      DivBound(v, Pow256(n - 1));
      LeValueOfLeBytes(q, n - 1);
      var s := LeBytes(v, n);
      assert s[1..] == LeBytes(q, n - 1);
      ByteOfSmall(r);
      assert LeValue(s) == r + 256 * q;
    }
  }

  lemma DivBound(v: nat, p: nat)
    requires v < 256 * p
    ensures v / 256 < p && v == 256 * (v / 256) + v % 256
  {
  }

  /** Re-encoding the value of a byte string gives the byte string back. */
  lemma {:induction false} LeBytesOfLeValue(s: seq<byte>)
    ensures LeBytes(LeValue(s), |s|) == s
  {
    if s != [] {
      var rest := LeValue(s[1..]);
      LowByteSplit(s[0], rest);
      LeBytesOfLeValue(s[1..]);
    }
  }

  lemma LowByteSplit(b: byte, rest: nat)
    ensures (b as nat + 256 * rest) % 256 == b as nat
    ensures (b as nat + 256 * rest) / 256 == rest
    ensures ((b as nat + 256 * rest) % 256) as byte == b
  {
  }

  lemma {:induction false} LeValueOfZeros(n: nat)
    ensures LeValue(Zeros(n)) == 0
  {
    if n > 0 {
      assert Zeros(n)[1..] == Zeros(n - 1);
      LeValueOfZeros(n - 1);
    }
  }

  /** `n` little-endian u32 words packed back to back (`binary.Read` into a `[]uint32` or a run of uint32 fields). */
  function LeWords(b: seq<byte>, n: nat): (w: seq<u32>)
    requires |b| == 4 * n
    ensures |w| == n
    decreases n
  {
    Pow256Values();
    if n == 0 then [] else [LeValue(b[..4])] + LeWords(b[4..], n - 1)
  }

  /** The bytes `binary.Write` emits for a run of u32 values. */
  function WordsBytes(w: seq<u32>): (b: seq<byte>)
    ensures |b| == 4 * |w|
  {
    if w == [] then [] else LeBytes(w[0], 4) + WordsBytes(w[1..])
  }

  lemma {:induction false} LeWordsOfWordsBytes(w: seq<u32>)
    ensures LeWords(WordsBytes(w), |w|) == w
  {
    if w != [] {
      var b := WordsBytes(w);
      assert b[..4] == LeBytes(w[0], 4);
      assert b[4..] == WordsBytes(w[1..]);
      Pow256Values();
      LeValueOfLeBytes(w[0], 4);
      LeWordsOfWordsBytes(w[1..]);
    }
  }

  lemma {:induction false} WordsBytesOfLeWords(b: seq<byte>, n: nat)
    requires |b| == 4 * n
    ensures WordsBytes(LeWords(b, n)) == b
  {
    if n > 0 {
      var w := LeWords(b, n);
      assert w[1..] == LeWords(b[4..], n - 1);
      LeBytesOfLeValue(b[..4]);
      WordsBytesOfLeWords(b[4..], n - 1);
      assert b == b[..4] + b[4..];
    }
  }

  /** The two's-complement value of an 8-byte little-endian integer (Go's int64). */
  function Int64Of(s: seq<byte>): (v: int)
    requires |s| == 8
    ensures -0x8000_0000_0000_0000 <= v < 0x8000_0000_0000_0000
  {
    Pow256Values();
    var u := LeValue(s);
    if u < 0x8000_0000_0000_0000 then u else u - 0x1_0000_0000_0000_0000
  }

  /** The position of the first occurrence of `c` in `arr`. */
  function FirstIndex(arr: seq<byte>, c: byte): (i: nat)
    requires c in arr
    ensures i < |arr| && arr[i] == c
    ensures forall j :: 0 <= j < i ==> arr[j] != c
  {
    if arr[0] == c then 0 else 1 + FirstIndex(arr[1..], c)
  }

  lemma FirstIndexIsFirst(arr: seq<byte>, c: byte, i: nat)
    requires i < |arr| && arr[i] == c && c !in arr[..i]
    ensures FirstIndex(arr, c) == i
  {
    var f := FirstIndex(arr, c);
    assert forall j :: 0 <= j < i ==> arr[..i][j] == arr[j];
  }

  // ---------------------------------------------------------------------------
  // Reader semantics, as functions of the data and the current position.

  /** `binary.Read` of an n-byte value succeeds when n bytes remain. */
  predicate FullReadOk(data: seq<byte>, pos: nat, n: nat)
  {
    pos + n <= |data|
  }

  /**
   * The n bytes `binary.Read` decodes. On a short read the destination is left
   * untouched; every destination in the tool is freshly zeroed, so that is n zeros.
   */
  function FullRead(data: seq<byte>, pos: nat, n: nat): (b: seq<byte>)
    ensures |b| == n
    ensures FullReadOk(data, pos, n) ==> b == data[pos..pos + n]
  {
    if pos + n <= |data| then data[pos..pos + n] else Zeros(n)
  }

  /** A short read still drains what is left (`io.ReadFull`). */
  function AfterFullRead(data: seq<byte>, pos: nat, n: nat): (p: nat)
    ensures FullReadOk(data, pos, n) ==> p == pos + n
    ensures p >= pos
  {
    if pos + n <= |data| then pos + n else if pos < |data| then |data| else pos
  }

  /** How many bytes one `Read` call on the reader copies into an n-byte buffer. */
  function Available(data: seq<byte>, pos: nat, n: nat): (k: nat)
    ensures k <= n
    ensures pos < |data| ==> pos + k <= |data|
  {
    if pos >= |data| then 0 else Min(n, |data| - pos)
  }

  /** The buffer after one `Read` call: the bytes that were left, then zeros. */
  function PartialRead(data: seq<byte>, pos: nat, n: nat): (b: seq<byte>)
    ensures |b| == n
    ensures pos + n <= |data| ==> b == data[pos..pos + n]
  {
    var k := Available(data, pos, n);
    if k == 0 then Zeros(n) else data[pos..pos + k] + Zeros(n - k)
  }

  function AfterPartialRead(data: seq<byte>, pos: nat, n: nat): (p: nat)
    ensures pos + n <= |data| ==> p == pos + n
  {
    pos + Available(data, pos, n)
  }

  /** `binary.Read` of an unsigned n-byte integer into a zeroed variable: the value and the new position. */
  function ReadUintAt(data: seq<byte>, pos: nat, n: nat): (r: (nat, nat))
    ensures r.0 < Pow256(n) && r.1 == AfterFullRead(data, pos, n)
    ensures FullReadOk(data, pos, n) ==> r == (LeValue(data[pos..pos + n]), pos + n)
  {
    (LeValue(FullRead(data, pos, n)), AfterFullRead(data, pos, n))
  }

  lemma PrefixOfPrefix(s: seq<byte>, n: nat, m: nat)
    requires m <= n <= |s|
    ensures s[..n][..m] == s[..m]
  {
  }

  lemma SliceOfPrefix(s: seq<byte>, n: nat, i: nat, j: nat)
    requires i <= j <= n <= |s|
    ensures s[..n][i..j] == s[i..j]
  {
  }

  lemma SliceToEnd(s: seq<byte>, i: nat)
    requires i <= |s|
    ensures s[i..|s|] == s[i..]
  {
  }

  /** One `Read` call into a fresh n-byte buffer: the buffer and the new position. */
  function ReadBytesAt(data: seq<byte>, pos: nat, n: nat): (r: (seq<byte>, nat))
    ensures |r.0| == n && r.1 == AfterPartialRead(data, pos, n)
    ensures pos + n <= |data| ==> r == (data[pos..pos + n], pos + n)
  {
    (PartialRead(data, pos, n), AfterPartialRead(data, pos, n))
  }

  /** Go's `bytes.Reader` over an immutable byte slice. */
  class Reader {
    const data: seq<byte>
    var pos: nat

    constructor (data: seq<byte>)
      ensures this.data == data && pos == 0
    {
      this.data := data;
      pos := 0;
    }

    /** `binary.Read` of an n-byte value: `ok` tells whether the value was decoded. */
    method ReadFull(n: nat) returns (ok: bool, b: seq<byte>)
      modifies this
      ensures ok == FullReadOk(data, old(pos), n)
      ensures b == FullRead(data, old(pos), n)
      ensures pos == AfterFullRead(data, old(pos), n)
    {
      ok := pos + n <= |data|;
      if ok {
        b := data[pos..pos + n];
        pos := pos + n;
      } else {
        b := Zeros(n);
        if pos < |data| {
          pos := |data|;
        }
      }
    }

    /** `binary.Read` of one byte: the next byte, or nothing at the end of the input. */
    method ReadByte() returns (ok: bool, b: byte)
      modifies this
      ensures ok == (old(pos) < |data|)
      ensures ok ==> b == data[old(pos)] && pos == old(pos) + 1
      ensures !ok ==> pos == old(pos)
    {
      var got;
      ok, got := ReadFull(1);
      b := got[0];
    }

    /** `binary.Read` of an unsigned little-endian n-byte integer into a zeroed variable. */
    method ReadUint(n: nat) returns (v: nat)
      modifies this
      ensures (v, pos) == ReadUintAt(data, old(pos), n)
    {
      var _, b := ReadFull(n);
      v := LeValue(b);
    }

    /** One `Read` call into a fresh n-byte buffer. */
    method Read(n: nat) returns (b: seq<byte>)
      modifies this
      ensures (b, pos) == ReadBytesAt(data, old(pos), n)
    {
      var k := Available(data, pos, n);
      b := if k == 0 then Zeros(n) else data[pos..pos + k] + Zeros(n - k);
      pos := pos + k;
    }

    /** `Seek(offset, io.SeekStart)`: a negative offset is refused and the position kept. */
    method Seek(offset: int)
      modifies this
      ensures pos == if offset >= 0 then offset else old(pos)
    {
      if offset >= 0 {
        pos := offset;
      }
    }
  }
}
