/**
 * The three checksum families an archive version selects between
 * (YpfDef.go:106-149): a table-driven CRC-32, Adler-32 and MurmurHash2.
 */
module Checksum {
  import opened Bytes

  // ---------------------------------------------------------------------------
  // CRC-32, reflected, polynomial 0xEDB88320 (section 8 of RFC 1952)

  /** One bit of the reflected CRC-32 shift register. */
  function CrcBit(c: bv32): bv32
  {
    if c & 1 == 1 then 0xEDB8_8320 ^ (c >> 1) else c >> 1
  }

  /** Eight register steps: one byte's worth. */
  function CrcByteSteps(c: bv32): bv32
  {
    CrcBit(CrcBit(CrcBit(CrcBit(CrcBit(CrcBit(CrcBit(CrcBit(c))))))))
  }

  /**
   * Entry n of the lookup table passed to `crc32.Checksum` at YpfDef.go:109-142.
   * The source spells the 256 constants out; here each is computed from the
   * polynomial, and the InlineTableLines lemmas below prove that every computed
   * entry equals the constant written in the source.
   */
  function TableEntry(n: byte): bv32
  {
    CrcByteSteps(n as bv32)
  }

  /** One table-driven update of the register by one input byte. */
  function CrcUpdate(c: bv32, b: byte): bv32
  {
    TableEntry(((c & 0xFF) as byte) ^ b) ^ (c >> 8)
  }

  /** The register after feeding `data` through the update, starting from all ones. */
  function CrcRegister(data: seq<byte>): bv32
    decreases |data|
  {
    if data == [] then 0xFFFF_FFFF
    else CrcUpdate(CrcRegister(data[..|data| - 1]), data[|data| - 1])
  }

  /** `crc32.Checksum(data, table)`: the complemented final register. */
  function Crc32(data: seq<byte>): bv32
  {
    !CrcRegister(data)
  }

  /** Feeding one more byte is one more update of the register. */
  lemma CrcRegisterSnoc(init: seq<byte>, b: byte, c: bv32)
    requires CrcRegister(init) == c
    ensures CrcRegister(init + [b]) == CrcUpdate(c, b)
  {
    assert (init + [b])[..|init|] == init;
  }

  /** The check value of the standard: CRC-32 of the ASCII digits "123456789". */
  lemma Crc32CheckValue()
    ensures Crc32([0x31, 0x32, 0x33, 0x34, 0x35, 0x36, 0x37, 0x38, 0x39]) == 0xCBF4_3926
  {
    var s: seq<byte> := [];
    CrcRegisterSnoc(s, 0x31, 0xFFFF_FFFF);
    s := s + [0x31];
    assert CrcRegister(s) == 0x7C23_1048;
    CrcRegisterSnoc(s, 0x32, 0x7C23_1048);
    s := s + [0x32];
    assert CrcRegister(s) == 0xB0AC_BB32;
    CrcRegisterSnoc(s, 0x33, 0xB0AC_BB32);
    s := s + [0x33];
    assert CrcRegister(s) == 0x77B7_9C2D;
    CrcRegisterSnoc(s, 0x34, 0x77B7_9C2D);
    s := s + [0x34];
    assert CrcRegister(s) == 0x641C_1F5C;
    CrcRegisterSnoc(s, 0x35, 0x641C_1F5C);
    s := s + [0x35];
    assert CrcRegister(s) == 0x340A_C5E3;
    CrcRegisterSnoc(s, 0x36, 0x340A_C5E3);
    s := s + [0x36];
    assert CrcRegister(s) == 0xF68D_2C9E;
    CrcRegisterSnoc(s, 0x37, 0xF68D_2C9E);
    s := s + [0x37];
    assert CrcRegister(s) == 0xAFFC_9660;
    CrcRegisterSnoc(s, 0x38, 0xAFFC_9660);
    s := s + [0x38];
    assert CrcRegister(s) == 0x651F_2550;
    CrcRegisterSnoc(s, 0x39, 0x651F_2550);
    s := s + [0x39];
    assert CrcRegister(s) == 0x340B_C6D9;
    assert s == [0x31, 0x32, 0x33, 0x34, 0x35, 0x36, 0x37, 0x38, 0x39];
  }


  // ---------------------------------------------------------------------------
  // Adler-32 (section 2.2 of RFC 1950)

  const AdlerBase := 65521

  /** The two running sums of the standard, each reduced modulo 65521 after every byte. */
  function AdlerSums(data: seq<byte>): (r: (nat, nat))
    ensures r.0 < AdlerBase && r.1 < AdlerBase
    decreases |data|
  {
    if data == [] then (1, 0)
    else
      var (a, b) := AdlerSums(data[..|data| - 1]);
      var a' := (a + data[|data| - 1] as nat) % AdlerBase;
      (a', (b + a') % AdlerBase)
  }

  /** `adler32.Checksum`: the second sum in the high half, the first in the low half. */
  function Adler32(data: seq<byte>): (v: u32)
    ensures v % 0x1_0000 == AdlerSums(data).0 && v / 0x1_0000 == AdlerSums(data).1
  {
    var (a, b) := AdlerSums(data);
    b * 0x1_0000 + a
  }

  /** Unreduced first sum: one plus the sum of all bytes. */
  function SumA(data: seq<byte>): nat
    decreases |data|
  {
    if data == [] then 1 else SumA(data[..|data| - 1]) + data[|data| - 1] as nat
  }

  /** Unreduced second sum: the sum of the first sum over every non-empty prefix. */
  function SumB(data: seq<byte>): nat
    decreases |data|
  {
    if data == [] then 0 else SumB(data[..|data| - 1]) + SumA(data)
  }

  lemma ModAdd(x: nat, y: nat)
    ensures (x % AdlerBase + y) % AdlerBase == (x + y) % AdlerBase
  {
  }

  /**
   * Reducing after every byte gives the sums of the definition taken modulo
   * 65521 once at the end, which is what lets an implementation defer the
   * reduction over long runs of input.
   */
  lemma {:induction false} AdlerClosedForm(data: seq<byte>)
    ensures AdlerSums(data) == (SumA(data) % AdlerBase, SumB(data) % AdlerBase)
    decreases |data|
  {
    if data != [] {
      var init := data[..|data| - 1];
      AdlerClosedForm(init);
      var (a, b) := AdlerSums(init);
      var x := data[|data| - 1] as nat;
      ModAdd(SumA(init), x);
      var a' := (a + x) % AdlerBase;
      assert a' == SumA(data) % AdlerBase;
      ModAdd(SumB(init), a');
      ModAdd(SumA(data), SumB(init));
      assert (b + a') % AdlerBase == (SumB(init) + SumA(data)) % AdlerBase;
    }
  }

  // ---------------------------------------------------------------------------
  // MurmurHash2, 32-bit, as published by Austin Appleby

  const MurmurM: bv32 := 0x5BD1_E995

  /** The little-endian 32-bit word in the first four bytes. */
  function Word(b: seq<byte>): bv32
    requires |b| >= 4
  {
    (b[0] as bv32) | ((b[1] as bv32) << 8) | ((b[2] as bv32) << 16) | ((b[3] as bv32) << 24)
  }

  /** Mixing of one four-byte block into the hash state. */
  function MurmurBlock(h: bv32, k: bv32): bv32
  {
    var k1 := k * MurmurM;
    var k2 := (k1 ^ (k1 >> 24)) * MurmurM;
    (h * MurmurM) ^ k2
  }

  /** Blocks of four bytes, then the one to three trailing bytes. */
  function MurmurBody(h: bv32, data: seq<byte>): bv32
    decreases |data|
  {
    if |data| >= 4 then MurmurBody(MurmurBlock(h, Word(data)), data[4..])
    else if |data| == 3 then (h ^ ((data[2] as bv32) << 16) ^ ((data[1] as bv32) << 8) ^ (data[0] as bv32)) * MurmurM
    else if |data| == 2 then (h ^ ((data[1] as bv32) << 8) ^ (data[0] as bv32)) * MurmurM
    else if |data| == 1 then (h ^ (data[0] as bv32)) * MurmurM
    else h
  }

  function MurmurFinal(h: bv32): bv32
  {
    var h1 := (h ^ (h >> 13)) * MurmurM;
    h1 ^ (h1 >> 15)
  }

  /** `murmur.MurmurHash2(data, seed)`; the length enters the state truncated to 32 bits. */
  function MurmurHash2(data: seq<byte>, seed: bv32): bv32
  {
    MurmurFinal(MurmurBody(seed ^ ((|data| % 0x1_0000_0000) as bv32), data))
  }

  /** Reference values of the published algorithm with seed 0. */
  lemma MurmurHash2OfEmpty()
    ensures MurmurHash2([], 0) == 0
  {
  }

  lemma MurmurHash2OfOneByte()
    ensures MurmurHash2([0x61], 0) == 0x9268_5F5E
  {
    var d: seq<byte> := [0x61];
    assert ((|d| % 0x1_0000_0000) as bv32) == 1;
    assert MurmurBody(1, d) == 0x6EB7_97E0;
    assert MurmurFinal(0x6EB7_97E0) == 0x9268_5F5E;
  }

  lemma MurmurHash2OfOneBlock()
    ensures MurmurHash2([0x61, 0x62, 0x63, 0x64], 0) == 0x2687_3021
  {
    var d: seq<byte> := [0x61, 0x62, 0x63, 0x64];
    assert ((|d| % 0x1_0000_0000) as bv32) == 4;
    assert Word(d) == 0x6463_6261;
    assert MurmurBlock(4, 0x6463_6261) == 0x83B2_1F23;
    assert d[4..] == [];
    assert MurmurBody(4, d) == MurmurBody(0x83B2_1F23, []) == 0x83B2_1F23;
    assert MurmurFinal(0x83B2_1F23) == 0x2687_3021;
  }

  // ---------------------------------------------------------------------------

  /**
   * `checksumByVersion`: archives before version 479 use the CRC-32 for names
   * and Adler-32 for file data; from 479 on both use MurmurHash2 with seed 0.
   */
  function ChecksumByVersion(data: seq<byte>, version: u32, isName: bool): (r: u32)
    ensures version < 479 && isName ==> r == Crc32(data) as int
    ensures version < 479 && !isName ==> r == Adler32(data)
    ensures version >= 479 ==> r == MurmurHash2(data, 0) as int
  {
    if version < 479 then
      if isName then Crc32(data) as int else Adler32(data)
    else MurmurHash2(data, 0) as int
  }

  /** What each family yields for empty input: names, data, and any checksum from 479 on. */
  lemma ChecksumOfEmpty(version: u32, isName: bool)
    ensures ChecksumByVersion([], version, isName) == if version >= 479 || isName then 0 else 1
  {
    if version >= 479 {
      MurmurHash2OfEmpty();
    }
  }

  lemma InlineTableLines110To113()
    ensures TableEntry(0) == 0x00000000 && TableEntry(1) == 0x77073096 && TableEntry(2) == 0xee0e612c && TableEntry(3) == 0x990951ba && TableEntry(4) == 0x076dc419 && TableEntry(5) == 0x706af48f && TableEntry(6) == 0xe963a535 && TableEntry(7) == 0x9e6495a3
    ensures TableEntry(8) == 0x0edb8832 && TableEntry(9) == 0x79dcb8a4 && TableEntry(10) == 0xe0d5e91e && TableEntry(11) == 0x97d2d988 && TableEntry(12) == 0x09b64c2b && TableEntry(13) == 0x7eb17cbd && TableEntry(14) == 0xe7b82d07 && TableEntry(15) == 0x90bf1d91
    ensures TableEntry(16) == 0x1db71064 && TableEntry(17) == 0x6ab020f2 && TableEntry(18) == 0xf3b97148 && TableEntry(19) == 0x84be41de && TableEntry(20) == 0x1adad47d && TableEntry(21) == 0x6ddde4eb && TableEntry(22) == 0xf4d4b551 && TableEntry(23) == 0x83d385c7
    ensures TableEntry(24) == 0x136c9856 && TableEntry(25) == 0x646ba8c0 && TableEntry(26) == 0xfd62f97a && TableEntry(27) == 0x8a65c9ec && TableEntry(28) == 0x14015c4f && TableEntry(29) == 0x63066cd9 && TableEntry(30) == 0xfa0f3d63 && TableEntry(31) == 0x8d080df5
  {
  }

  /** Entries 32 to 63 agree with the inline table, lines 114-117. */
  lemma InlineTableLines114To117()
    ensures TableEntry(32) == 0x3b6e20c8 && TableEntry(33) == 0x4c69105e && TableEntry(34) == 0xd56041e4 && TableEntry(35) == 0xa2677172 && TableEntry(36) == 0x3c03e4d1 && TableEntry(37) == 0x4b04d447 && TableEntry(38) == 0xd20d85fd && TableEntry(39) == 0xa50ab56b
    ensures TableEntry(40) == 0x35b5a8fa && TableEntry(41) == 0x42b2986c && TableEntry(42) == 0xdbbbc9d6 && TableEntry(43) == 0xacbcf940 && TableEntry(44) == 0x32d86ce3 && TableEntry(45) == 0x45df5c75 && TableEntry(46) == 0xdcd60dcf && TableEntry(47) == 0xabd13d59
    ensures TableEntry(48) == 0x26d930ac && TableEntry(49) == 0x51de003a && TableEntry(50) == 0xc8d75180 && TableEntry(51) == 0xbfd06116 && TableEntry(52) == 0x21b4f4b5 && TableEntry(53) == 0x56b3c423 && TableEntry(54) == 0xcfba9599 && TableEntry(55) == 0xb8bda50f
    ensures TableEntry(56) == 0x2802b89e && TableEntry(57) == 0x5f058808 && TableEntry(58) == 0xc60cd9b2 && TableEntry(59) == 0xb10be924 && TableEntry(60) == 0x2f6f7c87 && TableEntry(61) == 0x58684c11 && TableEntry(62) == 0xc1611dab && TableEntry(63) == 0xb6662d3d
  {
  }

  /** Entries 64 to 95 agree with the inline table, lines 118-121. */
  lemma InlineTableLines118To121()
    ensures TableEntry(64) == 0x76dc4190 && TableEntry(65) == 0x01db7106 && TableEntry(66) == 0x98d220bc && TableEntry(67) == 0xefd5102a && TableEntry(68) == 0x71b18589 && TableEntry(69) == 0x06b6b51f && TableEntry(70) == 0x9fbfe4a5 && TableEntry(71) == 0xe8b8d433
    ensures TableEntry(72) == 0x7807c9a2 && TableEntry(73) == 0x0f00f934 && TableEntry(74) == 0x9609a88e && TableEntry(75) == 0xe10e9818 && TableEntry(76) == 0x7f6a0dbb && TableEntry(77) == 0x086d3d2d && TableEntry(78) == 0x91646c97 && TableEntry(79) == 0xe6635c01
    ensures TableEntry(80) == 0x6b6b51f4 && TableEntry(81) == 0x1c6c6162 && TableEntry(82) == 0x856530d8 && TableEntry(83) == 0xf262004e && TableEntry(84) == 0x6c0695ed && TableEntry(85) == 0x1b01a57b && TableEntry(86) == 0x8208f4c1 && TableEntry(87) == 0xf50fc457
    ensures TableEntry(88) == 0x65b0d9c6 && TableEntry(89) == 0x12b7e950 && TableEntry(90) == 0x8bbeb8ea && TableEntry(91) == 0xfcb9887c && TableEntry(92) == 0x62dd1ddf && TableEntry(93) == 0x15da2d49 && TableEntry(94) == 0x8cd37cf3 && TableEntry(95) == 0xfbd44c65
  {
  }

  /** Entries 96 to 127 agree with the inline table, lines 122-125. */
  lemma InlineTableLines122To125()
    ensures TableEntry(96) == 0x4db26158 && TableEntry(97) == 0x3ab551ce && TableEntry(98) == 0xa3bc0074 && TableEntry(99) == 0xd4bb30e2 && TableEntry(100) == 0x4adfa541 && TableEntry(101) == 0x3dd895d7 && TableEntry(102) == 0xa4d1c46d && TableEntry(103) == 0xd3d6f4fb
    ensures TableEntry(104) == 0x4369e96a && TableEntry(105) == 0x346ed9fc && TableEntry(106) == 0xad678846 && TableEntry(107) == 0xda60b8d0 && TableEntry(108) == 0x44042d73 && TableEntry(109) == 0x33031de5 && TableEntry(110) == 0xaa0a4c5f && TableEntry(111) == 0xdd0d7cc9
    ensures TableEntry(112) == 0x5005713c && TableEntry(113) == 0x270241aa && TableEntry(114) == 0xbe0b1010 && TableEntry(115) == 0xc90c2086 && TableEntry(116) == 0x5768b525 && TableEntry(117) == 0x206f85b3 && TableEntry(118) == 0xb966d409 && TableEntry(119) == 0xce61e49f
    ensures TableEntry(120) == 0x5edef90e && TableEntry(121) == 0x29d9c998 && TableEntry(122) == 0xb0d09822 && TableEntry(123) == 0xc7d7a8b4 && TableEntry(124) == 0x59b33d17 && TableEntry(125) == 0x2eb40d81 && TableEntry(126) == 0xb7bd5c3b && TableEntry(127) == 0xc0ba6cad
  {
  }

  /** Entries 128 to 159 agree with the inline table, lines 126-129. */
  lemma InlineTableLines126To129()
    ensures TableEntry(128) == 0xedb88320 && TableEntry(129) == 0x9abfb3b6 && TableEntry(130) == 0x03b6e20c && TableEntry(131) == 0x74b1d29a && TableEntry(132) == 0xead54739 && TableEntry(133) == 0x9dd277af && TableEntry(134) == 0x04db2615 && TableEntry(135) == 0x73dc1683
    ensures TableEntry(136) == 0xe3630b12 && TableEntry(137) == 0x94643b84 && TableEntry(138) == 0x0d6d6a3e && TableEntry(139) == 0x7a6a5aa8 && TableEntry(140) == 0xe40ecf0b && TableEntry(141) == 0x9309ff9d && TableEntry(142) == 0x0a00ae27 && TableEntry(143) == 0x7d079eb1
    ensures TableEntry(144) == 0xf00f9344 && TableEntry(145) == 0x8708a3d2 && TableEntry(146) == 0x1e01f268 && TableEntry(147) == 0x6906c2fe && TableEntry(148) == 0xf762575d && TableEntry(149) == 0x806567cb && TableEntry(150) == 0x196c3671 && TableEntry(151) == 0x6e6b06e7
    ensures TableEntry(152) == 0xfed41b76 && TableEntry(153) == 0x89d32be0 && TableEntry(154) == 0x10da7a5a && TableEntry(155) == 0x67dd4acc && TableEntry(156) == 0xf9b9df6f && TableEntry(157) == 0x8ebeeff9 && TableEntry(158) == 0x17b7be43 && TableEntry(159) == 0x60b08ed5
  {
  }

  /** Entries 160 to 191 agree with the inline table, lines 130-133. */
  lemma InlineTableLines130To133()
    ensures TableEntry(160) == 0xd6d6a3e8 && TableEntry(161) == 0xa1d1937e && TableEntry(162) == 0x38d8c2c4 && TableEntry(163) == 0x4fdff252 && TableEntry(164) == 0xd1bb67f1 && TableEntry(165) == 0xa6bc5767 && TableEntry(166) == 0x3fb506dd && TableEntry(167) == 0x48b2364b
    ensures TableEntry(168) == 0xd80d2bda && TableEntry(169) == 0xaf0a1b4c && TableEntry(170) == 0x36034af6 && TableEntry(171) == 0x41047a60 && TableEntry(172) == 0xdf60efc3 && TableEntry(173) == 0xa867df55 && TableEntry(174) == 0x316e8eef && TableEntry(175) == 0x4669be79
    ensures TableEntry(176) == 0xcb61b38c && TableEntry(177) == 0xbc66831a && TableEntry(178) == 0x256fd2a0 && TableEntry(179) == 0x5268e236 && TableEntry(180) == 0xcc0c7795 && TableEntry(181) == 0xbb0b4703 && TableEntry(182) == 0x220216b9 && TableEntry(183) == 0x5505262f
    ensures TableEntry(184) == 0xc5ba3bbe && TableEntry(185) == 0xb2bd0b28 && TableEntry(186) == 0x2bb45a92 && TableEntry(187) == 0x5cb36a04 && TableEntry(188) == 0xc2d7ffa7 && TableEntry(189) == 0xb5d0cf31 && TableEntry(190) == 0x2cd99e8b && TableEntry(191) == 0x5bdeae1d
  {
  }

  /** Entries 192 to 223 agree with the inline table, lines 134-137. */
  lemma InlineTableLines134To137()
    ensures TableEntry(192) == 0x9b64c2b0 && TableEntry(193) == 0xec63f226 && TableEntry(194) == 0x756aa39c && TableEntry(195) == 0x026d930a && TableEntry(196) == 0x9c0906a9 && TableEntry(197) == 0xeb0e363f && TableEntry(198) == 0x72076785 && TableEntry(199) == 0x05005713
    ensures TableEntry(200) == 0x95bf4a82 && TableEntry(201) == 0xe2b87a14 && TableEntry(202) == 0x7bb12bae && TableEntry(203) == 0x0cb61b38 && TableEntry(204) == 0x92d28e9b && TableEntry(205) == 0xe5d5be0d && TableEntry(206) == 0x7cdcefb7 && TableEntry(207) == 0x0bdbdf21
    ensures TableEntry(208) == 0x86d3d2d4 && TableEntry(209) == 0xf1d4e242 && TableEntry(210) == 0x68ddb3f8 && TableEntry(211) == 0x1fda836e && TableEntry(212) == 0x81be16cd && TableEntry(213) == 0xf6b9265b && TableEntry(214) == 0x6fb077e1 && TableEntry(215) == 0x18b74777
    ensures TableEntry(216) == 0x88085ae6 && TableEntry(217) == 0xff0f6a70 && TableEntry(218) == 0x66063bca && TableEntry(219) == 0x11010b5c && TableEntry(220) == 0x8f659eff && TableEntry(221) == 0xf862ae69 && TableEntry(222) == 0x616bffd3 && TableEntry(223) == 0x166ccf45
  {
  }

  /** Entries 224 to 255 agree with the inline table, lines 138-141. */
  lemma InlineTableLines138To141()
    ensures TableEntry(224) == 0xa00ae278 && TableEntry(225) == 0xd70dd2ee && TableEntry(226) == 0x4e048354 && TableEntry(227) == 0x3903b3c2 && TableEntry(228) == 0xa7672661 && TableEntry(229) == 0xd06016f7 && TableEntry(230) == 0x4969474d && TableEntry(231) == 0x3e6e77db
    ensures TableEntry(232) == 0xaed16a4a && TableEntry(233) == 0xd9d65adc && TableEntry(234) == 0x40df0b66 && TableEntry(235) == 0x37d83bf0 && TableEntry(236) == 0xa9bcae53 && TableEntry(237) == 0xdebb9ec5 && TableEntry(238) == 0x47b2cf7f && TableEntry(239) == 0x30b5ffe9
    ensures TableEntry(240) == 0xbdbdf21c && TableEntry(241) == 0xcabac28a && TableEntry(242) == 0x53b39330 && TableEntry(243) == 0x24b4a3a6 && TableEntry(244) == 0xbad03605 && TableEntry(245) == 0xcdd70693 && TableEntry(246) == 0x54de5729 && TableEntry(247) == 0x23d967bf
    ensures TableEntry(248) == 0xb3667a2e && TableEntry(249) == 0xc4614ab8 && TableEntry(250) == 0x5d681b02 && TableEntry(251) == 0x2a6f2b94 && TableEntry(252) == 0xb40bbe37 && TableEntry(253) == 0xc30c8ea1 && TableEntry(254) == 0x5a05df1b && TableEntry(255) == 0x2d02ef8d
  {
  }
}
