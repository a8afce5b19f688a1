/**
 * The decimal text the tools print with `fmt` and read back with
 * `strconv.Atoi`, and the `strings.Split` used on slot lists.
 */
module Text {
  import opened Bytes

  const Space: byte := 0x20
  const Newline: byte := 0x0A
  const ZeroChar: byte := 0x30

  predicate IsDigit(c: byte)
  {
    0x30 <= c <= 0x39
  }

  function DigitChar(d: nat): (c: byte)
    requires d < 10
    ensures IsDigit(c) && (c - ZeroChar) as nat == d
  {
    ByteOfSmall(d);
    ZeroChar + d as byte
  }

  /** `%v` / `%d` of a natural number: its decimal digits, most significant first. */
  function Decimal(n: nat): (s: seq<byte>)
    ensures |s| >= 1
    ensures forall i :: 0 <= i < |s| ==> IsDigit(s[i])
    decreases n
  {
    if n < 10 then [DigitChar(n)] else Decimal(n / 10) + [DigitChar(n % 10)]
  }

  /** `%05d`: left-padded with '0' to at least five characters. */
  function Pad5(n: nat): (s: seq<byte>)
    ensures |s| >= 5
    ensures forall i :: 0 <= i < |s| ==> IsDigit(s[i])
  {
    var d := Decimal(n);
    if |d| >= 5 then d else seq(5 - |d|, _ => ZeroChar) + d
  }

  /** The value of a run of decimal digits. */
  function DigitsValue(s: seq<byte>): nat
    requires forall i :: 0 <= i < |s| ==> IsDigit(s[i])
    decreases |s|
  {
    if s == [] then 0 else 10 * DigitsValue(s[..|s| - 1]) + (s[|s| - 1] - ZeroChar) as nat
  }

  lemma {:induction false} DigitsValueOfDecimal(n: nat)
    ensures DigitsValue(Decimal(n)) == n
    decreases n
  {
    if n >= 10 {
      var s := Decimal(n);
      assert s[..|s| - 1] == Decimal(n / 10);
      DigitsValueOfDecimal(n / 10);
    }
  }

  /** Leading zeros do not change the value. */
  lemma {:induction false} DigitsValueLeadingZeros(k: nat, s: seq<byte>)
    requires forall i :: 0 <= i < |s| ==> IsDigit(s[i])
    ensures var z := seq(k, _ => ZeroChar) + s;
      (forall i :: 0 <= i < |z| ==> IsDigit(z[i])) && DigitsValue(z) == DigitsValue(s)
    decreases |s|
  {
    var z := seq(k, _ => ZeroChar) + s;
    if s == [] {
      assert z == seq(k, _ => ZeroChar);
      AllZerosValue(k);
    } else {
      assert z[..|z| - 1] == seq(k, _ => ZeroChar) + s[..|s| - 1];
      DigitsValueLeadingZeros(k, s[..|s| - 1]);
    }
  }

  lemma {:induction false} AllZerosValue(k: nat)
    ensures DigitsValue(seq(k, _ => ZeroChar)) == 0
    decreases k
  {
    if k > 0 {
      assert seq(k, _ => ZeroChar)[..k - 1] == seq(k - 1, _ => ZeroChar);
      AllZerosValue(k - 1);
    }
  }

  const MinInt64 := -0x8000_0000_0000_0000
  const MaxInt64 := 0x7FFF_FFFF_FFFF_FFFF

  predicate AllDigits(s: seq<byte>)
  {
    forall i :: 0 <= i < |s| ==> IsDigit(s[i])
  }

  /**
   * `strconv.Atoi` on a 64-bit platform: an optional sign, then one or more
   * decimal digits, with a value that fits an int64; anything else is an error.
   */
  function Atoi(s: seq<byte>): (r: Option<int>)
    ensures r.Some? ==> MinInt64 <= r.value <= MaxInt64
    ensures r.Some? ==> |s| >= 1
  {
    if s == [] then None
    else
      var signed := s[0] == 0x2B || s[0] == 0x2D;
      var body := if signed then s[1..] else s;
      if body == [] || !AllDigits(body) then None
      else
        var v: int := if s[0] == 0x2D then 0 - DigitsValue(body) as int else DigitsValue(body) as int;
        if MinInt64 <= v <= MaxInt64 then Some(v) else None
  }

  /** Printing a number and reading it back gives the number. */
  lemma AtoiOfDecimal(n: nat)
    requires n <= MaxInt64
    ensures Atoi(Decimal(n)) == Some(n)
  {
    DigitsValueOfDecimal(n);
  }

  lemma AtoiOfPad5(n: nat)
    requires n <= MaxInt64
    ensures Atoi(Pad5(n)) == Some(n)
  {
    var d := Decimal(n);
    DigitsValueOfDecimal(n);
    if |d| < 5 {
      DigitsValueLeadingZeros(5 - |d|, d);
    }
  }

  /** `uint32(in)`: two's-complement truncation to 32 bits. */
  function ToU32(x: int): (r: u32)
    ensures 0 <= x < 0x1_0000_0000 ==> r == x
  {
    x % 0x1_0000_0000
  }

  /** `byte(in)`: truncation to the low eight bits. */
  function ToByte(x: int): (r: byte)
    ensures 0 <= x < 0x100 ==> r as int == x
  {
    ByteOfSmall(x % 0x100);
    (x % 0x100) as byte
  }

  /** The bytes of an ASCII literal. */
  function Ascii(s: string): (b: seq<byte>)
    ensures |b| == |s|
  {
    seq(|s|, i requires 0 <= i < |s| => ((s[i] as int) % 0x100) as byte)
  }

  /** `strings.Split(s, " ")`: the pieces between single spaces; "" splits into one empty piece. */
  function SplitSpace(s: seq<byte>): (parts: seq<seq<byte>>)
    ensures |parts| >= 1
    ensures forall k :: 0 <= k < |parts| ==> Space !in parts[k]
    decreases |s|
  {
    if Space !in s then [s]
    else
      var i := FirstIndex(s, Space);
      [s[..i]] + SplitSpace(s[i + 1..])
  }

  /** The pieces joined with single spaces. */
  function JoinSpace(parts: seq<seq<byte>>): seq<byte>
    requires |parts| >= 1
    decreases |parts|
  {
    if |parts| == 1 then parts[0] else parts[0] + [Space] + JoinSpace(parts[1..])
  }

  lemma {:induction false} SplitJoin(s: seq<byte>)
    ensures JoinSpace(SplitSpace(s)) == s
    decreases |s|
  {
    if Space in s {
      var i := FirstIndex(s, Space);
      var rest := SplitSpace(s[i + 1..]);
      var parts := [s[..i]] + rest;
      assert SplitSpace(s) == parts;
      assert parts[0] == s[..i] && parts[1..] == rest;
      assert JoinSpace(parts) == s[..i] + [Space] + JoinSpace(rest);
      SplitJoin(s[i + 1..]);
      assert s == s[..i] + [Space] + s[i + 1..];
    }
  }

  lemma {:induction false} JoinSplit(parts: seq<seq<byte>>)
    requires |parts| >= 1
    requires forall k :: 0 <= k < |parts| ==> Space !in parts[k]
    ensures SplitSpace(JoinSpace(parts)) == parts
    decreases |parts|
  {
    if |parts| > 1 {
      var s := JoinSpace(parts);
      var p := parts[0];
      assert s == p + [Space] + JoinSpace(parts[1..]);
      assert s[|p|] == Space;
      assert forall j :: 0 <= j < |p| ==> s[j] == p[j];
      FirstIndexIsFirst(s, Space, |p|);
      assert s[..|p|] == p;
      assert s[|p| + 1..] == JoinSpace(parts[1..]);
      assert Space in s;
      JoinSplit(parts[1..]);
    }
  }
}
