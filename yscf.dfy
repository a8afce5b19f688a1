/**
 * The engine configuration file (YSCF): the fixed 78-byte header with the
 * window caption after it (YscfDef.go:15-43), `parseYscf` (YscfDef.go:86-99),
 * the `Key=value` instruction text `parseYscfFile` writes (YscfDef.go:61-81),
 * and `packYscfFile` (YscfDef.go:101-241), which applies the values the edited
 * text supplies and writes the header and caption back.
 */
module Yscf {
  import opened Bytes
  import opened Ybn
  import opened Text

  /** Where files are looked up first in each build: 0 the archive, 1 the folder. */
  datatype FilePriority = FilePriority(dev: u32, debug: u32, release: u32)

  datatype YscfHeader = YscfHeader(
    meta: GenericHeader,
    padding1: u32,
    compile: u32,
    screenWidth: u32,
    screenHeight: u32,
    enable: u32,
    imageTypeSlots: seq<byte>,
    soundTypeSlots: seq<byte>,
    thread: u32,
    debugMode: u32,
    sound: u32,
    windowResize: u32,
    windowFrame: u32,
    filePriority: FilePriority,
    padding2: u32,
    captionLength: u16)

  /** A header whose arrays have the lengths of the fixed-size Go arrays. */
  predicate ValidHeader(h: YscfHeader)
  {
    |h.meta.magic| == 4 && |h.imageTypeSlots| == 8 && |h.soundTypeSlots| == 4
  }

  datatype YscfInfo = YscfInfo(header: YscfHeader, caption: GoString)

  datatype YscfError =
    | NotYbnFile     // the magic is not "YSCF"
    | BadNumber      // `strconv.Atoi` rejected a value: `packYscfFile` returns false
    | SlotOverflow   // more slot values than the array holds: the index expression panics

  /** "YSCF" */
  const YscfMagic: seq<byte> := [0x59, 0x53, 0x43, 0x46]
  const HeaderSize := 78

  /** The five words between the generic header and the slot arrays. */
  function LeadingWords(h: YscfHeader): (w: seq<u32>)
  {
    [h.padding1, h.compile, h.screenWidth, h.screenHeight, h.enable]
  }

  /** The nine words between the slot arrays and the caption length. */
  function TrailingWords(h: YscfHeader): (w: seq<u32>)
  {
    [h.thread, h.debugMode, h.sound, h.windowResize, h.windowFrame,
     h.filePriority.dev, h.filePriority.debug, h.filePriority.release, h.padding2]
  }

  /** The header `binary.Read` fills from 78 bytes. */
  function HeaderOf(b: seq<byte>): (h: YscfHeader)
    requires |b| == HeaderSize
    ensures ValidHeader(h)
  {
    Pow256Values();
    var w1 := LeWords(b[8..28], 5);
    var w2 := LeWords(b[40..76], 9);
    YscfHeader(GenericHeaderOf(b[..8]), w1[0], w1[1], w1[2], w1[3], w1[4],
      b[28..36], b[36..40], w2[0], w2[1], w2[2], w2[3], w2[4],
      FilePriority(w2[5], w2[6], w2[7]), w2[8], LeValue(b[76..78]))
  }

  /** The 78 bytes `binary.Write` emits for a header. */
  function HeaderBytes(h: YscfHeader): (b: seq<byte>)
    requires ValidHeader(h)
    ensures |b| == HeaderSize
  {
    GenericHeaderBytes(h.meta) + WordsBytes(LeadingWords(h)) + h.imageTypeSlots + h.soundTypeSlots
      + WordsBytes(TrailingWords(h)) + LeBytes(h.captionLength, 2)
  }

  lemma HeaderRoundTrip(h: YscfHeader)
    requires ValidHeader(h)
    ensures HeaderOf(HeaderBytes(h)) == h
  {
    var b := HeaderBytes(h);
    Pow256Values();
    assert b[..8] == GenericHeaderBytes(h.meta);
    assert b[8..28] == WordsBytes(LeadingWords(h));
    assert b[28..36] == h.imageTypeSlots;
    assert b[36..40] == h.soundTypeSlots;
    assert b[40..76] == WordsBytes(TrailingWords(h));
    assert b[76..78] == LeBytes(h.captionLength, 2);
    GenericHeaderRoundTrip(h.meta);
    LeWordsOfWordsBytes(LeadingWords(h));
    LeWordsOfWordsBytes(TrailingWords(h));
    LeValueOfLeBytes(h.captionLength, 2);
  }

  lemma HeaderBytesRoundTrip(b: seq<byte>)
    requires |b| == HeaderSize
    ensures HeaderBytes(HeaderOf(b)) == b
  {
    var h := HeaderOf(b);
    Words5(LeWords(b[8..28], 5));
    Words9(LeWords(b[40..76], 9));
    assert LeadingWords(h) == LeWords(b[8..28], 5);
    assert TrailingWords(h) == LeWords(b[40..76], 9);
    GenericHeaderBytesRoundTrip(b[..8]);
    WordsBytesOfLeWords(b[8..28], 5);
    WordsBytesOfLeWords(b[40..76], 9);
    LeBytesOfLeValue(b[76..78]);
    HeaderSlices(b);
  }

  lemma Words5(w: seq<u32>)
    requires |w| == 5
    ensures w == [w[0], w[1], w[2], w[3], w[4]]
  {
  }

  lemma Words9(w: seq<u32>)
    requires |w| == 9
    ensures w == [w[0], w[1], w[2], w[3], w[4], w[5], w[6], w[7], w[8]]
  {
  }

  /** The header bytes cut at the field boundaries of `HeaderBytes`. */
  lemma HeaderSlices(b: seq<byte>)
    requires |b| == HeaderSize
    ensures b == b[..8] + b[8..28] + b[28..36] + b[36..40] + b[40..76] + b[76..78]
  {
  }

  lemma HeaderMagic(data: seq<byte>)
    ensures var h := HeaderOf(FullRead(data, 0, HeaderSize));
      (h.meta.magic == YscfMagic <==> |data| >= HeaderSize && data[..4] == YscfMagic)
      && (|data| >= HeaderSize ==> h == HeaderOf(data[..HeaderSize]))
  {
    var b := FullRead(data, 0, HeaderSize);
    if |data| < HeaderSize {
      assert b[..8][..4][0] == 0;
    } else {
      assert b[..8][..4] == data[..4];
    }
  }

  /** What `parseYscf` returns: the header, then `CaptionLength` bytes read as the caption. */
  function ParseYscfSpec(data: seq<byte>, decode: GoString -> GoString): (r: Result<YscfInfo, YscfError>)
  {
    var header := HeaderOf(FullRead(data, 0, HeaderSize));
    if header.meta.magic != YscfMagic then Err(NotYbnFile)
    else Ok(YscfInfo(header, decode(ReadBytesAt(data, HeaderSize, header.captionLength).0)))
  }

  /**
   * A file parses exactly when it holds a whole header that starts with
   * "YSCF"; the header is then its first 78 bytes, and the caption the
   * `CaptionLength` bytes after them.
   */
  lemma ParseYscfFacts(data: seq<byte>, decode: GoString -> GoString)
    ensures var r := ParseYscfSpec(data, decode);
      && (r.Err? <==> !(|data| >= HeaderSize && data[..4] == YscfMagic))
      && (r.Err? ==> r.error == NotYbnFile)
      && (r.Ok? ==> r.value.header == HeaderOf(data[..HeaderSize]))
      && (r.Ok? ==> r.value.caption == decode(ReadBytesAt(data, HeaderSize, r.value.header.captionLength).0))
  {
    HeaderMagic(data);
  }

  /** `parseYscf`. */
  method ParseYscf(data: seq<byte>, decode: GoString -> GoString) returns (r: Result<YscfInfo, YscfError>)
    ensures r == ParseYscfSpec(data, decode)
  {
    var stm := new Reader(data);
    var _, hb := stm.ReadFull(HeaderSize);
    var header := HeaderOf(hb);
    HeaderMagic(data);
    if header.meta.magic != YscfMagic {
      return Err(NotYbnFile);
    }
    var captionBytes := stm.Read(header.captionLength);
    r := Ok(YscfInfo(header, decode(captionBytes)));
  }

  // The instruction text.

  const Equals: byte := 0x3D
  const OpenBracket: byte := 0x5B
  const CloseBracket: byte := 0x5D

  /** The sixteen keys, in the order the lines are written and the capture groups are numbered. */
  const Keys: seq<string> := ["Version", "Compile", "ScreenWidth", "ScreenHeight", "Enable",
    "ImageTypeSlots", "SoundTypeSlots", "Thread", "DebugMode", "Sound", "WindowResize",
    "WindowFrame", "FilePriorityDev", "FilePriorityDebug", "FilePriorityRelease", "Caption"]

  /** Group numbers of the two slot lists and of the caption. */
  const ImageSlotsGroup := 6
  const SoundSlotsGroup := 7
  const CaptionGroup := 16

  /** The u32 field that capture group `i` names, for every group but the slots and the caption. */
  predicate IsWordGroup(i: nat)
  {
    1 <= i <= 15 && i != ImageSlotsGroup && i != SoundSlotsGroup
  }

  predicate IsSlotGroup(i: nat)
  {
    i == ImageSlotsGroup || i == SoundSlotsGroup
  }

  /** The slot array capture group `i` names, and its length. */
  function SlotsOf(h: YscfHeader, i: nat): seq<byte>
    requires IsSlotGroup(i)
  {
    if i == ImageSlotsGroup then h.imageTypeSlots else h.soundTypeSlots
  }

  function SlotCount(i: nat): nat
    requires IsSlotGroup(i)
  {
    if i == ImageSlotsGroup then 8 else 4
  }

  function GetWord(h: YscfHeader, i: nat): u32
    requires IsWordGroup(i)
  {
    match i
    case 1 => h.meta.version
    case 2 => h.compile
    case 3 => h.screenWidth
    case 4 => h.screenHeight
    case 5 => h.enable
    case 8 => h.thread
    case 9 => h.debugMode
    case 10 => h.sound
    case 11 => h.windowResize
    case 12 => h.windowFrame
    case 13 => h.filePriority.dev
    case 14 => h.filePriority.debug
    case 15 => h.filePriority.release
  }

  /** The header with the field of group `i` set to `v`; every other field is kept. */
  function SetWord(h: YscfHeader, i: nat, v: u32): (h': YscfHeader)
    requires IsWordGroup(i)
    ensures GetWord(h', i) == v
    ensures forall j :: IsWordGroup(j) && j != i ==> GetWord(h', j) == GetWord(h, j)
    ensures h'.meta.magic == h.meta.magic && h'.padding1 == h.padding1 && h'.padding2 == h.padding2
    ensures h'.imageTypeSlots == h.imageTypeSlots && h'.soundTypeSlots == h.soundTypeSlots
    ensures h'.captionLength == h.captionLength
  {
    match i
    case 1 => h.(meta := h.meta.(version := v))
    case 2 => h.(compile := v)
    case 3 => h.(screenWidth := v)
    case 4 => h.(screenHeight := v)
    case 5 => h.(enable := v)
    case 8 => h.(thread := v)
    case 9 => h.(debugMode := v)
    case 10 => h.(sound := v)
    case 11 => h.(windowResize := v)
    case 12 => h.(windowFrame := v)
    case 13 => h.(filePriority := h.filePriority.(dev := v))
    case 14 => h.(filePriority := h.filePriority.(debug := v))
    case 15 => h.(filePriority := h.filePriority.(release := v))
  }

  lemma SetWordOfGetWord(h: YscfHeader, i: nat)
    requires IsWordGroup(i)
    ensures SetWord(h, i, GetWord(h, i)) == h
  {
  }

  /** `%v` of a byte array: the decimal values separated by single spaces (inside the brackets). */
  function SlotList(slots: seq<byte>): (s: seq<byte>)
    requires |slots| >= 1
  {
    JoinSpace(SlotTexts(slots))
  }

  function SlotTexts(slots: seq<byte>): (parts: seq<seq<byte>>)
    ensures |parts| == |slots|
    ensures forall j :: 0 <= j < |slots| ==> parts[j] == Decimal(slots[j] as int)
  {
    seq(|slots|, j requires 0 <= j < |slots| => Decimal(slots[j] as int))
  }

  /**
   * The value the instruction text shows for group `i`: what that capture
   * group of the text's pattern holds when the text is read back.
   */
  function RenderedValue(info: YscfInfo, i: nat): GoString
    requires ValidHeader(info.header) && 1 <= i <= 16
  {
    if i == ImageSlotsGroup then SlotList(info.header.imageTypeSlots)
    else if i == SoundSlotsGroup then SlotList(info.header.soundTypeSlots)
    else if i == CaptionGroup then info.caption
    else Decimal(GetWord(info.header, i))
  }

  /** The sixteen values, in key order. */
  function RenderedValues(info: YscfInfo): (v: seq<GoString>)
    requires ValidHeader(info.header)
    ensures |v| == 16
    ensures forall k :: 0 <= k < 16 ==> v[k] == RenderedValue(info, k + 1)
  {
    seq(16, k requires 0 <= k < 16 => RenderedValue(info, k + 1))
  }

  /** One `Key=value` line; the slot lists are shown inside brackets. */
  function RenderLine(i: nat, value: GoString): (line: seq<byte>)
    requires 1 <= i <= 16
    ensures |line| > 0 && line[|line| - 1] == Newline
  {
    var shown := if i == ImageSlotsGroup || i == SoundSlotsGroup then [OpenBracket] + value + [CloseBracket] else value;
    Ascii(Keys[i - 1]) + [Equals] + shown + [Newline]
  }

  function RenderLines(values: seq<GoString>, k: nat): (out: seq<byte>)
    requires |values| == 16 && k <= 16
    ensures k > 0 ==> |out| > 0 && out[|out| - 1] == Newline
  {
    if k == 0 then [] else RenderLines(values, k - 1) + RenderLine(k, values[k - 1])
  }

  /**
   * The instruction text of `parseYscfFile`: sixteen lines in key order. The
   * trailing newline stays, because the trimmed string is discarded.
   */
  function RenderInstructions(info: YscfInfo): (out: seq<byte>)
    requires ValidHeader(info.header)
    ensures |out| > 0 && out[|out| - 1] == Newline
  {
    RenderLines(RenderedValues(info), 16)
  }

  // Applying the edited values.

  /**
   * The slot loop of YscfDef.go:160-169 over the first k pieces: each piece
   * must be a number, and is then stored, truncated to a byte, at its index in
   * a fresh zero array; a piece past the end of the array panics.
   */
  function SlotsFrom(parts: seq<seq<byte>>, n: nat, k: nat): (r: Result<seq<byte>, YscfError>)
    requires k <= |parts|
    ensures r.Ok? ==> |r.value| == n && k <= n
    ensures r.Err? ==> r.error != NotYbnFile
    decreases k
  {
    if k == 0 then Ok(Zeros(n))
    else
      match SlotsFrom(parts, n, k - 1)
      case Err(e) => Err(e)
      case Ok(a) =>
        match Atoi(parts[k - 1])
        case None => Err(BadNumber)
        case Some(v) => if k - 1 >= n then Err(SlotOverflow) else Ok(a[k - 1 := ToByte(v)])
  }

  /** After k pieces, slot j < k holds piece j's number truncated to a byte, and the rest are zero. */
  lemma {:induction false} SlotsFromValues(parts: seq<seq<byte>>, n: nat, k: nat)
    requires k <= |parts| && SlotsFrom(parts, n, k).Ok?
    ensures var a := SlotsFrom(parts, n, k).value;
      (forall j :: 0 <= j < k ==> Atoi(parts[j]).Some? && a[j] == ToByte(Atoi(parts[j]).value))
      && (forall j :: k <= j < n ==> a[j] == 0)
    decreases k
  {
    if k > 0 {
      var prev := SlotsFrom(parts, n, k - 1);
      assert prev.Ok?;
      SlotsFromValues(parts, n, k - 1);
      var v := Atoi(parts[k - 1]);
      assert v.Some? && k - 1 < n;
      var a := prev.value[k - 1 := ToByte(v.value)];
      assert SlotsFrom(parts, n, k) == Ok(a);
      forall j | 0 <= j < k
        ensures Atoi(parts[j]).Some? && a[j] == ToByte(Atoi(parts[j]).value)
      {
        if j < k - 1 {
          assert a[j] == prev.value[j];
        }
      }
      forall j | k <= j < n
        ensures a[j] == 0
      {
        assert a[j] == prev.value[j];
      }
    }
  }

  /** The slot array a capture describes. */
  function ParseSlotsSpec(text: GoString, n: nat): (r: Result<seq<byte>, YscfError>)
  {
    SlotsFrom(SplitSpace(text), n, |SplitSpace(text)|)
  }

  /** The slot loop itself, on an array. */
  method ParseSlots(text: GoString, n: nat) returns (r: Result<seq<byte>, YscfError>)
    ensures r == ParseSlotsSpec(text, n)
  {
    var t := SplitSpace(text);
    var a := new byte[n](_ => 0);
    assert a[..] == Zeros(n);
    var j := 0;
    while j < |t|
      invariant 0 <= j <= |t|
      invariant SlotsFrom(t, n, j) == Ok(a[..])
    {
      var err := StoreSlot(a, t, j);
      if err.Some? {
        SlotsFromStaysErr(t, n, j + 1, err.value);
        return Err(err.value);
      }
      j := j + 1;
    }
    r := Ok(a[..]);
  }

  /** One pass of the slot loop: piece `j` parsed and stored at index `j`. */
  method StoreSlot(a: array<byte>, t: seq<seq<byte>>, j: nat) returns (err: Option<YscfError>)
    requires j < |t| && SlotsFrom(t, a.Length, j) == Ok(a[..])
    modifies a
    ensures err.None? ==> SlotsFrom(t, a.Length, j + 1) == Ok(a[..])
    ensures err.Some? ==> SlotsFrom(t, a.Length, j + 1) == Err(err.value)
  {
    var v := Atoi(t[j]);
    if v.None? {
      return Some(BadNumber);
    }
    if j >= a.Length {
      return Some(SlotOverflow);
    }
    a[j] := ToByte(v.value);
    err := None;
  }

  /** Once the loop has failed, the later pieces do not change the error. */
  lemma {:induction false} SlotsFromStaysErr(parts: seq<seq<byte>>, n: nat, k: nat, e: YscfError)
    requires k <= |parts| && SlotsFrom(parts, n, k) == Err(e)
    ensures SlotsFrom(parts, n, |parts|) == Err(e)
    decreases |parts| - k
  {
    if k < |parts| {
      SlotsFromStaysErr(parts, n, k + 1, e);
    }
  }

  /**
   * More numbers than the array holds make `packYscfFile` panic: nine values
   * for the eight image slots, say.
   */
  lemma {:induction false} TooManySlotsPanics(parts: seq<seq<byte>>, n: nat)
    requires |parts| > n
    requires forall j :: 0 <= j < |parts| ==> Atoi(parts[j]).Some?
    ensures SlotsFrom(parts, n, |parts|) == Err(SlotOverflow)
  {
    SlotsFromAllNumbers(parts, n, n);
    SlotsFromStaysErr(parts, n, n + 1, SlotOverflow);
  }

  lemma {:induction false} SlotsFromAllNumbers(parts: seq<seq<byte>>, n: nat, k: nat)
    requires k <= n && k <= |parts|
    requires forall j :: 0 <= j < |parts| ==> Atoi(parts[j]).Some?
    ensures SlotsFrom(parts, n, k).Ok?
    decreases k
  {
    if k > 0 {
      SlotsFromAllNumbers(parts, n, k - 1);
      var a := SlotsFrom(parts, n, k - 1).value;
      var v := Atoi(parts[k - 1]);
      assert v.Some?;
      assert SlotsFrom(parts, n, k) == Ok(a[k - 1 := ToByte(v.value)]);
    }
  }

  /** A trailing space leaves an empty last piece, which is not a number: "1 " is refused. */
  lemma TrailingSpaceRefused()
    ensures ParseSlotsSpec([0x31, 0x20], 8) == Err(BadNumber)
  {
    var text: seq<byte> := [0x31, 0x20];
    assert text[1] == Space && text[..1] == [0x31];
    FirstIndexIsFirst(text, Space, 1);
    assert text[2..] == [];
    assert SplitSpace([]) == [[]];
    assert SplitSpace(text) == [[0x31], []];
    assert Atoi([0x31]) == Some(1);
    assert Atoi([]) == None;
  }

  /** Unlisted slots become 0: "7" as the image slots gives 7 followed by seven zeros. */
  lemma ShortSlotListZeroFills()
    ensures ParseSlotsSpec([0x37], 8) == Ok([7, 0, 0, 0, 0, 0, 0, 0])
  {
    var text: seq<byte> := [0x37];
    assert Space !in text;
    assert SplitSpace(text) == [text];
    assert Atoi(text) == Some(7);
    assert ToByte(7) == 7;
    assert Zeros(8)[0 := 7] == [7, 0, 0, 0, 0, 0, 0, 0];
  }

  /** The slot texts of an array, read back, rebuild the array. */
  lemma {:induction false} SlotsFromOfTexts(slots: seq<byte>, k: nat)
    requires k <= |slots|
    ensures SlotsFrom(SlotTexts(slots), |slots|, k) == Ok(slots[..k] + Zeros(|slots| - k))
    decreases k
  {
    if k > 0 {
      SlotsFromOfTexts(slots, k - 1);
      var parts := SlotTexts(slots);
      var x := slots[k - 1];
      AtoiOfDecimal(x as int);
      assert Atoi(parts[k - 1]) == Some(x as int);
      assert ToByte(x as int) == x;
      assert SlotsFrom(parts, |slots|, k) == Ok((slots[..k - 1] + Zeros(|slots| - (k - 1)))[k - 1 := x]);
      StoreNextSlot(slots, k);
    } else {
      assert slots[..0] + Zeros(|slots|) == Zeros(|slots|);
    }
  }

  lemma StoreNextSlot(slots: seq<byte>, k: nat)
    requires 0 < k <= |slots|
    ensures (slots[..k - 1] + Zeros(|slots| - (k - 1)))[k - 1 := slots[k - 1]] == slots[..k] + Zeros(|slots| - k)
  {
    var a := (slots[..k - 1] + Zeros(|slots| - (k - 1)))[k - 1 := slots[k - 1]];
    var b := slots[..k] + Zeros(|slots| - k);
    assert |a| == |b|;
    forall j | 0 <= j < |a|
      ensures a[j] == b[j]
    {
      if j < k {
        assert a[j] == slots[j] == b[j];
      } else {
        assert a[j] == 0 == b[j];
      }
    }
  }

  /** A slot list as printed parses back to the same array. */
  lemma SlotListRoundTrip(slots: seq<byte>)
    requires |slots| >= 1
    ensures ParseSlotsSpec(SlotList(slots), |slots|) == Ok(slots)
  {
    var parts := SlotTexts(slots);
    SlotTextsHaveNoSpace(slots);
    JoinSplit(parts);
    assert SplitSpace(SlotList(slots)) == parts;
    SlotsFromOfTexts(slots, |slots|);
    assert slots[..|slots|] + Zeros(0) == slots;
  }

  lemma SlotTextsHaveNoSpace(slots: seq<byte>)
    ensures forall k :: 0 <= k < |slots| ==> Space !in SlotTexts(slots)[k]
  {
    var parts := SlotTexts(slots);
    forall k | 0 <= k < |parts|
      ensures Space !in parts[k]
    {
      assert !IsDigit(Space);
    }
  }

  /**
   * What capture group `i` does to the script (YscfDef.go:123-232): an empty
   * capture changes nothing; a number is parsed and truncated to 32 bits; a
   * slot list replaces its whole array; the caption replaces the caption and
   * sets the length field to the caption's length in the text, mod 2^16.
   */
  function Override(s: YscfInfo, i: nat, text: GoString): (r: Result<YscfInfo, YscfError>)
    requires 1 <= i <= 16 && ValidHeader(s.header)
    ensures text == [] ==> r == Ok(s)
    ensures r.Ok? ==> KeepsFixedFields(s.header, r.value.header)
    ensures r.Err? ==> r.error != NotYbnFile && text != [] && i != CaptionGroup
  {
    var h := s.header;
    if text == [] then Ok(s)
    else if i == CaptionGroup then Ok(YscfInfo(h.(captionLength := CaptionLengthAsWritten(text)), text))
    else if i == ImageSlotsGroup then
      match ParseSlotsSpec(text, 8)
      case Err(e) => Err(e)
      case Ok(a) => Ok(s.(header := h.(imageTypeSlots := a)))
    else if i == SoundSlotsGroup then
      match ParseSlotsSpec(text, 4)
      case Err(e) => Err(e)
      case Ok(a) => Ok(s.(header := h.(soundTypeSlots := a)))
    else
      match Atoi(text)
      case None => Err(BadNumber)
      case Some(v) => Ok(s.(header := SetWord(h, i, ToU32(v))))
  }

  /**
   * A successful capture sets its own field (a number truncated to 32 bits,
   * a parsed slot array) and leaves every other field of the script as it was;
   * only the caption group touches the caption and its length field.
   */
  lemma OverrideFields(s: YscfInfo, i: nat, text: GoString)
    requires 1 <= i <= 16 && ValidHeader(s.header)
    ensures var r := Override(s, i, text);
      && (r.Ok? && i != CaptionGroup ==> r.value.caption == s.caption)
      && (r.Ok? && i != CaptionGroup ==> r.value.header.captionLength == s.header.captionLength)
      && (r.Ok? && text != [] && IsWordGroup(i) ==> Atoi(text).Some?)
      && (r.Ok? && text != [] && IsWordGroup(i) ==> GetWord(r.value.header, i) == ToU32(Atoi(text).value))
      && (r.Ok? ==> forall j :: IsWordGroup(j) && j != i ==> GetWord(r.value.header, j) == GetWord(s.header, j))
      && (r.Ok? && text != [] && IsSlotGroup(i) ==> ParseSlotsSpec(text, SlotCount(i)).Ok?)
      && (r.Ok? && text != [] && IsSlotGroup(i) ==> SlotsOf(r.value.header, i) == ParseSlotsSpec(text, SlotCount(i)).value)
      && (r.Ok? ==> forall g :: IsSlotGroup(g) && g != i ==> SlotsOf(r.value.header, g) == SlotsOf(s.header, g))
  {
  }

  /** The fields no instruction names keep their values, and the arrays their lengths. */
  predicate KeepsFixedFields(h: YscfHeader, h': YscfHeader)
  {
    ValidHeader(h') && h'.meta.magic == h.meta.magic && h'.padding1 == h.padding1 && h'.padding2 == h.padding2
  }

  /** `uint16(len(matches[16]))`: the caption's length as text, not as written. */
  function CaptionLengthAsWritten(text: GoString): (n: u16)
    ensures |text| < 0x1_0000 ==> n == |text|
  {
    |text| % 0x1_0000
  }

  /** The first k capture groups applied in order; the first failure ends the run. */
  function OverridesFrom(s: YscfInfo, captures: seq<GoString>, k: nat): (r: Result<YscfInfo, YscfError>)
    requires |captures| == 16 && k <= 16 && ValidHeader(s.header)
    ensures r.Ok? ==> KeepsFixedFields(s.header, r.value.header)
    ensures r.Err? ==> r.error != NotYbnFile
    ensures (forall j :: 0 <= j < k ==> captures[j] == []) ==> r == Ok(s)
    decreases k
  {
    if k == 0 then Ok(s)
    else
      match OverridesFrom(s, captures, k - 1)
      case Err(e) => Err(e)
      case Ok(s') => Override(s', k, captures[k - 1])
  }

  /**
   * After the loop, a numeric field holds its capture's number truncated to
   * 32 bits when the capture is non-empty, and its parsed value otherwise.
   */
  lemma {:induction false} OverridesFromWord(s: YscfInfo, captures: seq<GoString>, k: nat, i: nat)
    requires |captures| == 16 && k <= 16 && ValidHeader(s.header) && IsWordGroup(i)
    requires OverridesFrom(s, captures, k).Ok?
    ensures i <= k && captures[i - 1] != [] ==> Atoi(captures[i - 1]).Some?
    ensures GetWord(OverridesFrom(s, captures, k).value.header, i)
      == if i <= k && captures[i - 1] != [] then ToU32(Atoi(captures[i - 1]).value) else GetWord(s.header, i)
    decreases k
  {
    if k > 0 {
      var prev := OverridesFrom(s, captures, k - 1);
      assert prev.Ok?;
      OverridesFromWord(s, captures, k - 1, i);
      var next := Override(prev.value, k, captures[k - 1]);
      assert OverridesFrom(s, captures, k) == next;
      OverrideFields(prev.value, k, captures[k - 1]);
      if k == i && captures[i - 1] != [] {
        assert GetWord(next.value.header, i) == ToU32(Atoi(captures[i - 1]).value);
      } else {
        assert GetWord(next.value.header, i) == GetWord(prev.value.header, i);
      }
    }
  }

  /** A slot array holds its capture's list when the capture is non-empty, and its parsed value otherwise. */
  lemma {:induction false} OverridesFromSlots(s: YscfInfo, captures: seq<GoString>, k: nat, g: nat)
    requires |captures| == 16 && k <= 16 && ValidHeader(s.header) && IsSlotGroup(g)
    requires OverridesFrom(s, captures, k).Ok?
    ensures g <= k && captures[g - 1] != [] ==> ParseSlotsSpec(captures[g - 1], SlotCount(g)).Ok?
    ensures SlotsOf(OverridesFrom(s, captures, k).value.header, g)
      == if g <= k && captures[g - 1] != [] then ParseSlotsSpec(captures[g - 1], SlotCount(g)).value else SlotsOf(s.header, g)
    decreases k
  {
    if k > 0 {
      var prev := OverridesFrom(s, captures, k - 1);
      assert prev.Ok?;
      OverridesFromSlots(s, captures, k - 1, g);
      var next := Override(prev.value, k, captures[k - 1]);
      assert OverridesFrom(s, captures, k) == next;
      OverrideFields(prev.value, k, captures[k - 1]);
      if k == g && captures[g - 1] != [] {
        assert SlotsOf(next.value.header, g) == ParseSlotsSpec(captures[g - 1], SlotCount(g)).value;
      } else {
        assert SlotsOf(next.value.header, g) == SlotsOf(prev.value.header, g);
      }
    }
  }

  /** One case of the switch in YscfDef.go:128-232. */
  method ApplyCapture(script: YscfInfo, i: nat, text: GoString) returns (r: Result<YscfInfo, YscfError>)
    requires 1 <= i <= 16 && ValidHeader(script.header)
    ensures r == Override(script, i, text)
  {
    if text == [] {
      return Ok(script);
    }
    var h := script.header;
    if i == CaptionGroup {
      r := Ok(YscfInfo(h.(captionLength := CaptionLengthAsWritten(text)), text));
    } else if i == ImageSlotsGroup {
      var a := ParseSlots(text, 8);
      if a.Err? {
        return Err(a.error);
      }
      r := Ok(script.(header := h.(imageTypeSlots := a.value)));
    } else if i == SoundSlotsGroup {
      var a := ParseSlots(text, 4);
      if a.Err? {
        return Err(a.error);
      }
      r := Ok(script.(header := h.(soundTypeSlots := a.value)));
    } else {
      var v := Atoi(text);
      if v.None? {
        return Err(BadNumber);
      }
      r := Ok(script.(header := SetWord(h, i, ToU32(v.value))));
    }
  }

  /** The loop of YscfDef.go:122-233 over the sixteen capture groups; the first failure returns. */
  method ApplyOverrides(s: YscfInfo, captures: seq<GoString>) returns (r: Result<YscfInfo, YscfError>)
    requires |captures| == 16 && ValidHeader(s.header)
    ensures r == OverridesFrom(s, captures, |captures|)
  {
    var script := s;
    var i := 1;
    while i < 17
      invariant 1 <= i <= 17
      invariant OverridesFrom(s, captures, i - 1) == Ok(script)
    {
      var next := ApplyCapture(script, i, captures[i - 1]);
      if next.Err? {
        OverridesStayErr(s, captures, i, |captures|, next.error);
        return next;
      }
      script := next.value;
      i := i + 1;
    }
    r := Ok(script);
  }

  /** Once a capture fails, every longer run ends in that failure. */
  lemma {:induction false} OverridesStayErr(s: YscfInfo, captures: seq<GoString>, k: nat, n: nat, e: YscfError)
    requires |captures| == 16 && k <= n <= 16 && ValidHeader(s.header)
    requires OverridesFrom(s, captures, k) == Err(e)
    ensures OverridesFrom(s, captures, n) == Err(e)
    decreases n
  {
    if k < n {
      OverridesStayErr(s, captures, k, n - 1, e);
    }
  }

  /** Each value the instruction text shows, applied to the script it came from, changes nothing. */
  lemma RenderedValueIsFixpoint(info: YscfInfo, i: nat)
    requires ValidHeader(info.header) && 1 <= i <= 15
    ensures Override(info, i, RenderedValues(info)[i - 1]) == Ok(info)
  {
    var h := info.header;
    var v := RenderedValues(info);
    if i == ImageSlotsGroup {
      SlotListRoundTrip(h.imageTypeSlots);
    } else if i == SoundSlotsGroup {
      SlotListRoundTrip(h.soundTypeSlots);
    } else {
      RenderedWordIsFixpoint(info, i);
    }
  }

  lemma RenderedWordIsFixpoint(info: YscfInfo, i: nat)
    requires ValidHeader(info.header) && IsWordGroup(i)
    ensures Override(info, i, RenderedValues(info)[i - 1]) == Ok(info)
  {
    var h := info.header;
    var x := GetWord(h, i);
    AtoiOfDecimal(x);
    OverrideWord(info, i, Decimal(x), x);
    SetWordOfGetWord(h, i);
  }

  /** A numeric capture sets its field to the number, truncated to 32 bits. */
  lemma OverrideWord(s: YscfInfo, i: nat, text: GoString, v: int)
    requires ValidHeader(s.header) && IsWordGroup(i) && text != [] && Atoi(text) == Some(v)
    ensures Override(s, i, text) == Ok(s.(header := SetWord(s.header, i, ToU32(v))))
  {
  }

  lemma {:induction false} RenderedPrefixIsFixpoint(info: YscfInfo, k: nat)
    requires ValidHeader(info.header) && k <= 15
    ensures OverridesFrom(info, RenderedValues(info), k) == Ok(info)
    decreases k
  {
    if k > 0 {
      RenderedPrefixIsFixpoint(info, k - 1);
      RenderedValueIsFixpoint(info, k);
    }
  }

  /**
   * Packing with the instruction text exactly as it was written out restores
   * every field of the header, except that a non-empty caption's length field
   * becomes the caption's length as text.
   */
  lemma RenderedValuesRoundTrip(info: YscfInfo)
    requires ValidHeader(info.header)
    ensures OverridesFrom(info, RenderedValues(info), 16)
      == Ok(if info.caption == [] then info
            else info.(header := info.header.(captionLength := CaptionLengthAsWritten(info.caption))))
  {
    RenderedPrefixIsFixpoint(info, 15);
  }

  /** The bytes written: the header, then the caption in the code page. */
  function PackedBytes(s: YscfInfo, encode: GoString -> GoString): (b: seq<byte>)
    requires ValidHeader(s.header)
    ensures |b| >= HeaderSize && b[..HeaderSize] == HeaderBytes(s.header)
    ensures b[HeaderSize..] == encode(s.caption)
  {
    HeaderBytes(s.header) + encode(s.caption)
  }

  /** What `packYscfFile` writes, given the original file and the sixteen captured values. */
  function PackYscfSpec(data: seq<byte>, captures: seq<GoString>, decode: GoString -> GoString,
                        encode: GoString -> GoString): (r: Result<seq<byte>, YscfError>)
    requires |captures| == 16
    ensures (r.Err? && r.error == NotYbnFile) <==> ParseYscfSpec(data, decode).Err?
  {
    match ParseYscfSpec(data, decode)
    case Err(e) => Err(e)
    case Ok(info) =>
      match OverridesFrom(info, captures, |captures|)
      case Err(e) => Err(e)
      case Ok(s) =>
        Ok(PackedBytes(s, encode))
  }

  /** `packYscfFile` with an instruction file: parse, apply the values, serialise. */
  method PackYscf(data: seq<byte>, captures: seq<GoString>, decode: GoString -> GoString,
                  encode: GoString -> GoString) returns (r: Result<seq<byte>, YscfError>)
    requires |captures| == 16
    ensures r == PackYscfSpec(data, captures, decode, encode)
  {
    var parsed := ParseYscf(data, decode);
    if parsed.Err? {
      return Err(parsed.error);
    }
    var script := ApplyOverrides(parsed.value, captures);
    if script.Err? {
      return Err(script.error);
    }
    r := Ok(PackedBytes(script.value, encode));
  }

  /** The header of a packed file reads back as the header that was packed. */
  lemma PackedHeaderReadsBack(s: YscfInfo, encode: GoString -> GoString, decode: GoString -> GoString)
    requires ValidHeader(s.header) && s.header.meta.magic == YscfMagic
    ensures var r := ParseYscfSpec(PackedBytes(s, encode), decode);
      r.Ok? && r.value.header == s.header
  {
    var b := PackedBytes(s, encode);
    ParseYscfFacts(b, decode);
    HeaderRoundTrip(s.header);
    HeaderBytesMagic(s.header);
    assert b[..4] == b[..HeaderSize][..4];
  }

  /** The first four header bytes are the magic. */
  lemma HeaderBytesMagic(h: YscfHeader)
    requires ValidHeader(h)
    ensures HeaderBytes(h)[..4] == h.meta.magic
  {
    assert HeaderBytes(h)[..4] == GenericHeaderBytes(h.meta)[..4];
  }

  /**
   * As written, a caption whose encoded length differs from its length as
   * text is read back from the wrong number of bytes: the bytes the reader
   * takes are not the caption that was written.
   */
  lemma CaptionLengthAsWrittenMisreads(s: YscfInfo, text: GoString, encode: GoString -> GoString)
    requires ValidHeader(s.header) && s.header.meta.magic == YscfMagic
    requires text != [] && |text| < 0x1_0000 && |encode(text)| != |text|
    ensures var s' := Override(s, CaptionGroup, text).value; var out := PackedBytes(s', encode);
      ReadBytesAt(out, HeaderSize, s'.header.captionLength).0 != encode(text)
  {
    var s' := Override(s, CaptionGroup, text).value;
    var out := PackedBytes(s', encode);
    var read := ReadBytesAt(out, HeaderSize, s'.header.captionLength).0;
    assert |read| == |text|;
  }

  /** The length field set to the caption's encoded length, as the reader needs it. */
  function CaptionLengthCorrected(text: GoString, encode: GoString -> GoString): (n: u16)
    ensures |encode(text)| < 0x1_0000 ==> n == |encode(text)|
  {
    |encode(text)| % 0x1_0000
  }

  /** With the corrected length, a packed caption reads back as the decoded caption bytes. */
  lemma CaptionLengthCorrectedReadsBack(s: YscfInfo, text: GoString, encode: GoString -> GoString,
                                        decode: GoString -> GoString)
    requires ValidHeader(s.header) && s.header.meta.magic == YscfMagic
    requires |encode(text)| < 0x1_0000
    ensures var s' := YscfInfo(s.header.(captionLength := CaptionLengthCorrected(text, encode)), text);
      ParseYscfSpec(PackedBytes(s', encode), decode) == Ok(YscfInfo(s'.header, decode(encode(text))))
  {
    var s' := YscfInfo(s.header.(captionLength := CaptionLengthCorrected(text, encode)), text);
    var out := PackedBytes(s', encode);
    PackedHeaderReadsBack(s', encode, decode);
    ParseYscfFacts(out, decode);
    assert |out| == HeaderSize + |encode(text)|;
    SliceToEnd(out, HeaderSize);
  }
}
