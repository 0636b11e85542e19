/** The table-driven CRC-32: a lookup a byte does what the register does in eight steps. */
module Crc32 {
  import opened CrcRegister

  const ROW_0: seq<bv32> := [
    0x0000_0000, 0x7707_3096, 0xee0e_612c, 0x9909_51ba, 0x076d_c419, 0x706a_f48f, 0xe963_a535, 0x9e64_95a3,
    0x0edb_8832, 0x79dc_b8a4, 0xe0d5_e91e, 0x97d2_d988, 0x09b6_4c2b, 0x7eb1_7cbd, 0xe7b8_2d07, 0x90bf_1d91]
  const ROW_1: seq<bv32> := [
    0x1db7_1064, 0x6ab0_20f2, 0xf3b9_7148, 0x84be_41de, 0x1ada_d47d, 0x6ddd_e4eb, 0xf4d4_b551, 0x83d3_85c7,
    0x136c_9856, 0x646b_a8c0, 0xfd62_f97a, 0x8a65_c9ec, 0x1401_5c4f, 0x6306_6cd9, 0xfa0f_3d63, 0x8d08_0df5]
  const ROW_2: seq<bv32> := [
    0x3b6e_20c8, 0x4c69_105e, 0xd560_41e4, 0xa267_7172, 0x3c03_e4d1, 0x4b04_d447, 0xd20d_85fd, 0xa50a_b56b,
    0x35b5_a8fa, 0x42b2_986c, 0xdbbb_c9d6, 0xacbc_f940, 0x32d8_6ce3, 0x45df_5c75, 0xdcd6_0dcf, 0xabd1_3d59]
  const ROW_3: seq<bv32> := [
    0x26d9_30ac, 0x51de_003a, 0xc8d7_5180, 0xbfd0_6116, 0x21b4_f4b5, 0x56b3_c423, 0xcfba_9599, 0xb8bd_a50f,
    0x2802_b89e, 0x5f05_8808, 0xc60c_d9b2, 0xb10b_e924, 0x2f6f_7c87, 0x5868_4c11, 0xc161_1dab, 0xb666_2d3d]
  const ROW_4: seq<bv32> := [
    0x76dc_4190, 0x01db_7106, 0x98d2_20bc, 0xefd5_102a, 0x71b1_8589, 0x06b6_b51f, 0x9fbf_e4a5, 0xe8b8_d433,
    0x7807_c9a2, 0x0f00_f934, 0x9609_a88e, 0xe10e_9818, 0x7f6a_0dbb, 0x086d_3d2d, 0x9164_6c97, 0xe663_5c01]
  const ROW_5: seq<bv32> := [
    0x6b6b_51f4, 0x1c6c_6162, 0x8565_30d8, 0xf262_004e, 0x6c06_95ed, 0x1b01_a57b, 0x8208_f4c1, 0xf50f_c457,
    0x65b0_d9c6, 0x12b7_e950, 0x8bbe_b8ea, 0xfcb9_887c, 0x62dd_1ddf, 0x15da_2d49, 0x8cd3_7cf3, 0xfbd4_4c65]
  const ROW_6: seq<bv32> := [
    0x4db2_6158, 0x3ab5_51ce, 0xa3bc_0074, 0xd4bb_30e2, 0x4adf_a541, 0x3dd8_95d7, 0xa4d1_c46d, 0xd3d6_f4fb,
    0x4369_e96a, 0x346e_d9fc, 0xad67_8846, 0xda60_b8d0, 0x4404_2d73, 0x3303_1de5, 0xaa0a_4c5f, 0xdd0d_7cc9]
  const ROW_7: seq<bv32> := [
    0x5005_713c, 0x2702_41aa, 0xbe0b_1010, 0xc90c_2086, 0x5768_b525, 0x206f_85b3, 0xb966_d409, 0xce61_e49f,
    0x5ede_f90e, 0x29d9_c998, 0xb0d0_9822, 0xc7d7_a8b4, 0x59b3_3d17, 0x2eb4_0d81, 0xb7bd_5c3b, 0xc0ba_6cad]
  const ROW_8: seq<bv32> := [
    0xedb8_8320, 0x9abf_b3b6, 0x03b6_e20c, 0x74b1_d29a, 0xead5_4739, 0x9dd2_77af, 0x04db_2615, 0x73dc_1683,
    0xe363_0b12, 0x9464_3b84, 0x0d6d_6a3e, 0x7a6a_5aa8, 0xe40e_cf0b, 0x9309_ff9d, 0x0a00_ae27, 0x7d07_9eb1]
  const ROW_9: seq<bv32> := [
    0xf00f_9344, 0x8708_a3d2, 0x1e01_f268, 0x6906_c2fe, 0xf762_575d, 0x8065_67cb, 0x196c_3671, 0x6e6b_06e7,
    0xfed4_1b76, 0x89d3_2be0, 0x10da_7a5a, 0x67dd_4acc, 0xf9b9_df6f, 0x8ebe_eff9, 0x17b7_be43, 0x60b0_8ed5]
  const ROW_A: seq<bv32> := [
    0xd6d6_a3e8, 0xa1d1_937e, 0x38d8_c2c4, 0x4fdf_f252, 0xd1bb_67f1, 0xa6bc_5767, 0x3fb5_06dd, 0x48b2_364b,
    0xd80d_2bda, 0xaf0a_1b4c, 0x3603_4af6, 0x4104_7a60, 0xdf60_efc3, 0xa867_df55, 0x316e_8eef, 0x4669_be79]
  const ROW_B: seq<bv32> := [
    0xcb61_b38c, 0xbc66_831a, 0x256f_d2a0, 0x5268_e236, 0xcc0c_7795, 0xbb0b_4703, 0x2202_16b9, 0x5505_262f,
    0xc5ba_3bbe, 0xb2bd_0b28, 0x2bb4_5a92, 0x5cb3_6a04, 0xc2d7_ffa7, 0xb5d0_cf31, 0x2cd9_9e8b, 0x5bde_ae1d]
  const ROW_C: seq<bv32> := [
    0x9b64_c2b0, 0xec63_f226, 0x756a_a39c, 0x026d_930a, 0x9c09_06a9, 0xeb0e_363f, 0x7207_6785, 0x0500_5713,
    0x95bf_4a82, 0xe2b8_7a14, 0x7bb1_2bae, 0x0cb6_1b38, 0x92d2_8e9b, 0xe5d5_be0d, 0x7cdc_efb7, 0x0bdb_df21]
  const ROW_D: seq<bv32> := [
    0x86d3_d2d4, 0xf1d4_e242, 0x68dd_b3f8, 0x1fda_836e, 0x81be_16cd, 0xf6b9_265b, 0x6fb0_77e1, 0x18b7_4777,
    0x8808_5ae6, 0xff0f_6a70, 0x6606_3bca, 0x1101_0b5c, 0x8f65_9eff, 0xf862_ae69, 0x616b_ffd3, 0x166c_cf45]
  const ROW_E: seq<bv32> := [
    0xa00a_e278, 0xd70d_d2ee, 0x4e04_8354, 0x3903_b3c2, 0xa767_2661, 0xd060_16f7, 0x4969_474d, 0x3e6e_77db,
    0xaed1_6a4a, 0xd9d6_5adc, 0x40df_0b66, 0x37d8_3bf0, 0xa9bc_ae53, 0xdebb_9ec5, 0x47b2_cf7f, 0x30b5_ffe9]
  const ROW_F: seq<bv32> := [
    0xbdbd_f21c, 0xcaba_c28a, 0x53b3_9330, 0x24b4_a3a6, 0xbad0_3605, 0xcdd7_0693, 0x54de_5729, 0x23d9_67bf,
    0xb366_7a2e, 0xc461_4ab8, 0x5d68_1b02, 0x2a6f_2b94, 0xb40b_be37, 0xc30c_8ea1, 0x5a05_df1b, 0x2d02_ef8d]

  const TABLE: seq<bv32> :=
    (((ROW_0 + ROW_1) + (ROW_2 + ROW_3)) + ((ROW_4 + ROW_5) + (ROW_6 + ROW_7)))
    + (((ROW_8 + ROW_9) + (ROW_A + ROW_B)) + ((ROW_C + ROW_D) + (ROW_E + ROW_F)))

  // ---------- The table ----------

  function WordStep8(c: bv32): (r: bv32) {
    WordStep(WordStep(WordStep(WordStep(WordStep(WordStep(WordStep(WordStep(c))))))))
  }

  /** The table holds what eight steps make of every byte. */
  predicate Entry(b: bv8) {
    TABLE[b as int] == WordStep8(b as bv32)
  }

  // The 256 entries are compared one by one: Entries00 to EntriesF8 take eight of them each, `TableEntries` all.

  lemma {:induction false} Entries00(b: bv8)
    requires 0 <= b <= 7
    ensures Entry(b)
  {
    assert Entry(0) && Entry(1) && Entry(2) && Entry(3) && Entry(4) && Entry(5) && Entry(6) && Entry(7);
  }

  lemma {:induction false} Entries08(b: bv8)
    requires 8 <= b <= 15
    ensures Entry(b)
  {
    assert Entry(8) && Entry(9) && Entry(10) && Entry(11) && Entry(12) && Entry(13) && Entry(14) && Entry(15);
  }

  lemma {:induction false} Entries10(b: bv8)
    requires 16 <= b <= 23
    ensures Entry(b)
  {
    assert Entry(16) && Entry(17) && Entry(18) && Entry(19) && Entry(20) && Entry(21) && Entry(22) && Entry(23);
  }

  lemma {:induction false} Entries18(b: bv8)
    requires 24 <= b <= 31
    ensures Entry(b)
  {
    assert Entry(24) && Entry(25) && Entry(26) && Entry(27) && Entry(28) && Entry(29) && Entry(30) && Entry(31);
  }

  lemma {:induction false} Entries20(b: bv8)
    requires 32 <= b <= 39
    ensures Entry(b)
  {
    assert Entry(32) && Entry(33) && Entry(34) && Entry(35) && Entry(36) && Entry(37) && Entry(38) && Entry(39);
  }

  lemma {:induction false} Entries28(b: bv8)
    requires 40 <= b <= 47
    ensures Entry(b)
  {
    assert Entry(40) && Entry(41) && Entry(42) && Entry(43) && Entry(44) && Entry(45) && Entry(46) && Entry(47);
  }

  lemma {:induction false} Entries30(b: bv8)
    requires 48 <= b <= 55
    ensures Entry(b)
  {
    assert Entry(48) && Entry(49) && Entry(50) && Entry(51) && Entry(52) && Entry(53) && Entry(54) && Entry(55);
  }

  lemma {:induction false} Entries38(b: bv8)
    requires 56 <= b <= 63
    ensures Entry(b)
  {
    assert Entry(56) && Entry(57) && Entry(58) && Entry(59) && Entry(60) && Entry(61) && Entry(62) && Entry(63);
  }

  lemma {:induction false} Entries40(b: bv8)
    requires 64 <= b <= 71
    ensures Entry(b)
  {
    assert Entry(64) && Entry(65) && Entry(66) && Entry(67) && Entry(68) && Entry(69) && Entry(70) && Entry(71);
  }

  lemma {:induction false} Entries48(b: bv8)
    requires 72 <= b <= 79
    ensures Entry(b)
  {
    assert Entry(72) && Entry(73) && Entry(74) && Entry(75) && Entry(76) && Entry(77) && Entry(78) && Entry(79);
  }

  lemma {:induction false} Entries50(b: bv8)
    requires 80 <= b <= 87
    ensures Entry(b)
  {
    assert Entry(80) && Entry(81) && Entry(82) && Entry(83) && Entry(84) && Entry(85) && Entry(86) && Entry(87);
  }

  lemma {:induction false} Entries58(b: bv8)
    requires 88 <= b <= 95
    ensures Entry(b)
  {
    assert Entry(88) && Entry(89) && Entry(90) && Entry(91) && Entry(92) && Entry(93) && Entry(94) && Entry(95);
  }

  lemma {:induction false} Entries60(b: bv8)
    requires 96 <= b <= 103
    ensures Entry(b)
  {
    assert Entry(96) && Entry(97) && Entry(98) && Entry(99) && Entry(100) && Entry(101) && Entry(102) && Entry(103);
  }

  lemma {:induction false} Entries68(b: bv8)
    requires 104 <= b <= 111
    ensures Entry(b)
  {
    assert Entry(104) && Entry(105) && Entry(106) && Entry(107) && Entry(108) && Entry(109) && Entry(110) && Entry(111);
  }

  lemma {:induction false} Entries70(b: bv8)
    requires 112 <= b <= 119
    ensures Entry(b)
  {
    assert Entry(112) && Entry(113) && Entry(114) && Entry(115) && Entry(116) && Entry(117) && Entry(118) && Entry(119);
  }

  lemma {:induction false} Entries78(b: bv8)
    requires 120 <= b <= 127
    ensures Entry(b)
  {
    assert Entry(120) && Entry(121) && Entry(122) && Entry(123) && Entry(124) && Entry(125) && Entry(126) && Entry(127);
  }

  lemma {:induction false} Entries80(b: bv8)
    requires 128 <= b <= 135
    ensures Entry(b)
  {
    assert Entry(128) && Entry(129) && Entry(130) && Entry(131) && Entry(132) && Entry(133) && Entry(134) && Entry(135);
  }

  lemma {:induction false} Entries88(b: bv8)
    requires 136 <= b <= 143
    ensures Entry(b)
  {
    assert Entry(136) && Entry(137) && Entry(138) && Entry(139) && Entry(140) && Entry(141) && Entry(142) && Entry(143);
  }

  lemma {:induction false} Entries90(b: bv8)
    requires 144 <= b <= 151
    ensures Entry(b)
  {
    assert Entry(144) && Entry(145) && Entry(146) && Entry(147) && Entry(148) && Entry(149) && Entry(150) && Entry(151);
  }

  lemma {:induction false} Entries98(b: bv8)
    requires 152 <= b <= 159
    ensures Entry(b)
  {
    assert Entry(152) && Entry(153) && Entry(154) && Entry(155) && Entry(156) && Entry(157) && Entry(158) && Entry(159);
  }

  lemma {:induction false} EntriesA0(b: bv8)
    requires 160 <= b <= 167
    ensures Entry(b)
  {
    assert Entry(160) && Entry(161) && Entry(162) && Entry(163) && Entry(164) && Entry(165) && Entry(166) && Entry(167);
  }

  lemma {:induction false} EntriesA8(b: bv8)
    requires 168 <= b <= 175
    ensures Entry(b)
  {
    assert Entry(168) && Entry(169) && Entry(170) && Entry(171) && Entry(172) && Entry(173) && Entry(174) && Entry(175);
  }

  lemma {:induction false} EntriesB0(b: bv8)
    requires 176 <= b <= 183
    ensures Entry(b)
  {
    assert Entry(176) && Entry(177) && Entry(178) && Entry(179) && Entry(180) && Entry(181) && Entry(182) && Entry(183);
  }

  lemma {:induction false} EntriesB8(b: bv8)
    requires 184 <= b <= 191
    ensures Entry(b)
  {
    assert Entry(184) && Entry(185) && Entry(186) && Entry(187) && Entry(188) && Entry(189) && Entry(190) && Entry(191);
  }

  lemma {:induction false} EntriesC0(b: bv8)
    requires 192 <= b <= 199
    ensures Entry(b)
  {
    assert Entry(192) && Entry(193) && Entry(194) && Entry(195) && Entry(196) && Entry(197) && Entry(198) && Entry(199);
  }

  lemma {:induction false} EntriesC8(b: bv8)
    requires 200 <= b <= 207
    ensures Entry(b)
  {
    assert Entry(200) && Entry(201) && Entry(202) && Entry(203) && Entry(204) && Entry(205) && Entry(206) && Entry(207);
  }

  lemma {:induction false} EntriesD0(b: bv8)
    requires 208 <= b <= 215
    ensures Entry(b)
  {
    assert Entry(208) && Entry(209) && Entry(210) && Entry(211) && Entry(212) && Entry(213) && Entry(214) && Entry(215);
  }

  lemma {:induction false} EntriesD8(b: bv8)
    requires 216 <= b <= 223
    ensures Entry(b)
  {
    assert Entry(216) && Entry(217) && Entry(218) && Entry(219) && Entry(220) && Entry(221) && Entry(222) && Entry(223);
  }

  lemma {:induction false} EntriesE0(b: bv8)
    requires 224 <= b <= 231
    ensures Entry(b)
  {
    assert Entry(224) && Entry(225) && Entry(226) && Entry(227) && Entry(228) && Entry(229) && Entry(230) && Entry(231);
  }

  lemma {:induction false} EntriesE8(b: bv8)
    requires 232 <= b <= 239
    ensures Entry(b)
  {
    assert Entry(232) && Entry(233) && Entry(234) && Entry(235) && Entry(236) && Entry(237) && Entry(238) && Entry(239);
  }

  lemma {:induction false} EntriesF0(b: bv8)
    requires 240 <= b <= 247
    ensures Entry(b)
  {
    assert Entry(240) && Entry(241) && Entry(242) && Entry(243) && Entry(244) && Entry(245) && Entry(246) && Entry(247);
  }

  lemma {:induction false} EntriesF8(b: bv8)
    requires 248 <= b <= 255
    ensures Entry(b)
  {
    assert Entry(248) && Entry(249) && Entry(250) && Entry(251) && Entry(252) && Entry(253) && Entry(254) && Entry(255);
  }

  lemma {:induction false} TableEntries(b: bv8)
    ensures Entry(b)
  {
    if b <= 7 {
      Entries00(b);
    } else if b <= 15 {
      Entries08(b);
    } else if b <= 23 {
      Entries10(b);
    } else if b <= 31 {
      Entries18(b);
    } else if b <= 39 {
      Entries20(b);
    } else if b <= 47 {
      Entries28(b);
    } else if b <= 55 {
      Entries30(b);
    } else if b <= 63 {
      Entries38(b);
    } else if b <= 71 {
      Entries40(b);
    } else if b <= 79 {
      Entries48(b);
    } else if b <= 87 {
      Entries50(b);
    } else if b <= 95 {
      Entries58(b);
    } else if b <= 103 {
      Entries60(b);
    } else if b <= 111 {
      Entries68(b);
    } else if b <= 119 {
      Entries70(b);
    } else if b <= 127 {
      Entries78(b);
    } else if b <= 135 {
      Entries80(b);
    } else if b <= 143 {
      Entries88(b);
    } else if b <= 151 {
      Entries90(b);
    } else if b <= 159 {
      Entries98(b);
    } else if b <= 167 {
      EntriesA0(b);
    } else if b <= 175 {
      EntriesA8(b);
    } else if b <= 183 {
      EntriesB0(b);
    } else if b <= 191 {
      EntriesB8(b);
    } else if b <= 199 {
      EntriesC0(b);
    } else if b <= 207 {
      EntriesC8(b);
    } else if b <= 215 {
      EntriesD0(b);
    } else if b <= 223 {
      EntriesD8(b);
    } else if b <= 231 {
      EntriesE0(b);
    } else if b <= 239 {
      EntriesE8(b);
    } else if b <= 247 {
      EntriesF0(b);
    } else {
      EntriesF8(b);
    }
  }

  function Steps(a: Reg, n: nat): (r: Reg)
    decreases n
  {
    if n == 0 then a else Steps(Step(a), n - 1)
  }

  lemma {:induction false} RegOfSteps(c: bv32, d: bv32)
    requires d == WordStep8(c)
    ensures RegOf(d) == Steps(RegOf(c), 8)
  {
    var c1 := RegOfStep(c);
    var c2 := RegOfStep(c1);
    var c3 := RegOfStep(c2);
    var c4 := RegOfStep(c3);
    var c5 := RegOfStep(c4);
    var c6 := RegOfStep(c5);
    var c7 := RegOfStep(c6);
    var c8 := RegOfStep(c7);
    EightSteps(RegOf(c), RegOf(c1), RegOf(c2), RegOf(c3), RegOf(c4), RegOf(c5), RegOf(c6), RegOf(c7), RegOf(c8));
  }

  lemma {:induction false} EightSteps(a: Reg, a1: Reg, a2: Reg, a3: Reg, a4: Reg, a5: Reg, a6: Reg, a7: Reg, a8: Reg)
    requires a1 == Step(a) && a2 == Step(a1) && a3 == Step(a2) && a4 == Step(a3)
    requires a5 == Step(a4) && a6 == Step(a5) && a7 == Step(a6) && a8 == Step(a7)
    ensures Steps(a, 8) == a8
  {
    assert Steps(a, 8) == Steps(a2, 6) == Steps(a4, 4) == Steps(a6, 2);
  }

  // ---------- One lookup is eight steps ----------

  function Falses(n: nat): (s: seq<bool>)
    ensures |s| == n
  {
    seq(n, _ => false)
  }

  function Shifts(a: Reg, n: nat): (r: Reg)
    decreases n
  {
    if n == 0 then a else Shifts(Shift(a), n - 1)
  }

  lemma {:induction false} StepSplit(l: Reg, h: Reg)
    requires !h[0]
    ensures Step(Xor(l, h)) == Xor(Step(l), Shift(h))
  {
    var x := Xor(l, h);
    forall i | 0 <= i < 32
      ensures Step(x)[i] == Xor(Step(l), Shift(h))[i]
    {
      StepAt(x, i);
      StepAt(l, i);
    }
  }

  /** A part without low bits is only shifted. */
  lemma {:induction false} StepsSplit(l: Reg, h: Reg, n: nat)
    requires n <= 32 && forall i :: 0 <= i < n ==> !h[i]
    ensures Steps(Xor(l, h), n) == Xor(Steps(l, n), Shifts(h, n))
    decreases n
  {
    if n > 0 {
      StepSplit(l, h);
      forall i | 0 <= i < n - 1
        ensures !Shift(h)[i]
      {
        assert Shift(h)[i] == h[i + 1];
      }
      StepsSplit(Step(l), Shift(h), n - 1);
    }
  }

  /** Putting bits in at once and then shifting is as good as feeding them in. */
  lemma {:induction false} SerialIsSteps(c: Reg, bits: seq<bool>)
    requires |bits| <= 32
    ensures Serial(c, bits) == Steps(Xor(c, bits + Falses(32 - |bits|)), |bits|)
    decreases |bits|
  {
    var n := |bits|;
    var r := bits + Falses(32 - n);
    if n == 0 {
      assert Xor(c, r) == c;
    } else {
      var (o, h) := ([bits[0]] + Falses(31), [false] + r[1..]);
      assert Xor(c, o) == c[0 := c[0] != bits[0]];
      assert Xor(c, r) == Xor(Xor(c, o), h);
      StepSplit(Xor(c, o), h);
      assert Shift(h) == bits[1..] + Falses(32 - (n - 1));
      SerialIsSteps(Feed(c, bits[0]), bits[1..]);
    }
  }

  lemma {:induction false} ShiftEight(h: bv32, h1: bv32, h2: bv32, h3: bv32, h4: bv32, h5: bv32, h6: bv32, h7: bv32,
                                      h8: bv32)
    requires h1 == h >> 1 && h2 == h1 >> 1 && h3 == h2 >> 1 && h4 == h3 >> 1
    requires h5 == h4 >> 1 && h6 == h5 >> 1 && h7 == h6 >> 1 && h8 == h7 >> 1
    ensures h8 == h >> 8
  {
  }

  lemma {:induction false} EightShifts(a: Reg, a1: Reg, a2: Reg, a3: Reg, a4: Reg, a5: Reg, a6: Reg, a7: Reg, a8: Reg)
    requires a1 == Shift(a) && a2 == Shift(a1) && a3 == Shift(a2) && a4 == Shift(a3)
    requires a5 == Shift(a4) && a6 == Shift(a5) && a7 == Shift(a6) && a8 == Shift(a7)
    ensures Shifts(a, 8) == a8
  {
    assert Shifts(a, 8) == Shifts(a2, 6) == Shifts(a4, 4) == Shifts(a6, 2);
  }

  lemma {:induction false} RegOfShifts(c: bv32) returns (d: bv32)
    ensures d == c >> 8 && RegOf(d) == Shifts(RegOf(c), 8)
  {
    var c1 := RegOfShift(c);
    var c2 := RegOfShift(c1);
    var c3 := RegOfShift(c2);
    var c4 := RegOfShift(c3);
    var c5 := RegOfShift(c4);
    var c6 := RegOfShift(c5);
    var c7 := RegOfShift(c6);
    d := RegOfShift(c7);
    ShiftEight(c, c1, c2, c3, c4, c5, c6, c7, d);
    EightShifts(RegOf(c), RegOf(c1), RegOf(c2), RegOf(c3), RegOf(c4), RegOf(c5), RegOf(c6), RegOf(c7), RegOf(d));
  }

  lemma {:induction false} EvenHalved(h: bv32, m: bv32, k: bv32) returns (d: bv32)
    requires h & m == 0 && m & 1 == 1 && k == m >> 1
    ensures d == h >> 1 && h & 1 != 1 && d & k == 0
  {
    d := h >> 1;
  }

  lemma {:induction false} NextDigit(h: bv32, d: bv32, n: nat)
    requires d == h >> 1 && n > 0
    ensures Digits(h, n)[0] == (h & 1 == 1) && Digits(h, n)[1..] == Digits(d, n - 1)
  {
  }

  lemma {:induction false} LowZeros(h: bv32)
    requires h & 0xff == 0
    ensures forall i :: 0 <= i < 8 ==> !RegOf(h)[i]
  {
    var d1 := EvenHalved(h, 0xff, 0x7f);
    var d2 := EvenHalved(d1, 0x7f, 0x3f);
    var d3 := EvenHalved(d2, 0x3f, 0x1f);
    var d4 := EvenHalved(d3, 0x1f, 0xf);
    var d5 := EvenHalved(d4, 0xf, 7);
    var d6 := EvenHalved(d5, 7, 3);
    var d7 := EvenHalved(d6, 3, 1);
    var d8 := EvenHalved(d7, 1, 0);
    NextDigit(h, d1, 32);
    NextDigit(d1, d2, 31);
    NextDigit(d2, d3, 30);
    NextDigit(d3, d4, 29);
    NextDigit(d4, d5, 28);
    NextDigit(d5, d6, 27);
    NextDigit(d6, d7, 26);
    NextDigit(d7, d8, 25);
  }

  /** The byte that picks the entry. */
  function Low(x: bv32): (r: bv8) {
    (x & 0xff) as bv8
  }

  lemma {:induction false} Halves(x: bv32) returns (l: bv32, h: bv32)
    ensures l == Low(x) as bv32 && h == x & 0xffff_ff00
  {
    l, h := Low(x) as bv32, x & 0xffff_ff00;
  }

  lemma {:induction false} HalvesXor(x: bv32, l: bv32, h: bv32)
    requires l == Low(x) as bv32 && h == x & 0xffff_ff00
    ensures x == l ^ h
  {
  }

  lemma {:induction false} HighHalf(x: bv32, h: bv32)
    requires h == x & 0xffff_ff00
    ensures h & 0xff == 0 && h >> 8 == x >> 8
  {
  }

  lemma {:induction false} Looked(b: bv8, l: bv32) returns (e: bv32)
    requires l == b as bv32
    ensures e == TABLE[b as int] && RegOf(e) == Steps(RegOf(l), 8)
  {
    e := TABLE[b as int];
    TableEntries(b);
    RegOfSteps(l, e);
  }

  lemma {:induction false} SplitWord(x: bv32) returns (l: bv32, h: bv32)
    ensures l == Low(x) as bv32 && h >> 8 == x >> 8
    ensures RegOf(x) == Xor(RegOf(l), RegOf(h)) && forall i :: 0 <= i < 8 ==> !RegOf(h)[i]
  {
    l, h := Halves(x);
    HalvesXor(x, l, h);
    HighHalf(x, h);
    RegOfXor(l, h, x);
    LowZeros(h);
  }

  lemma {:induction false} JoinWords(e: bv32, s: bv32) returns (y: bv32)
    ensures y == e ^ s && RegOf(y) == Xor(RegOf(e), RegOf(s))
  {
    y := e ^ s;
    RegOfXor(e, s, y);
  }

  /** Of eight steps, the low byte decides what the polynomial adds: one lookup finds it. */
  lemma {:induction false} LookupIsSteps(x: bv32) returns (e: bv32, s: bv32, y: bv32)
    ensures e == TABLE[Low(x) as int] && s == x >> 8 && y == e ^ s && RegOf(y) == Steps(RegOf(x), 8)
  {
    var l, h := SplitWord(x);
    e := Looked(Low(x), l);
    s := RegOfShifts(h);
    y := JoinWords(e, s);
    SumOfSteps(RegOf(x), RegOf(l), RegOf(h), RegOf(e), RegOf(s), RegOf(y));
  }

  lemma {:induction false} SumOfSteps(x: Reg, l: Reg, h: Reg, e: Reg, s: Reg, y: Reg)
    requires x == Xor(l, h) && (forall i :: 0 <= i < 8 ==> !h[i])
    requires e == Steps(l, 8) && s == Shifts(h, 8) && y == Xor(e, s)
    ensures y == Steps(x, 8)
  {
    StepsSplit(l, h, 8);
  }

  lemma {:induction false} DigitsMore(c: bv32, n: nat, k: nat)
    requires Small(c, n)
    ensures Digits(c, n + k) == Digits(c, n) + Falses(k)
    decreases n, k
  {
    if n > 0 {
      var d := Halved(c);
      DigitsMore(d, n - 1, k);
      assert Digits(c, n) == [c & 1 == 1] + Digits(d, n - 1);
      assert Digits(c, n + k) == [c & 1 == 1] + (Digits(d, n - 1) + Falses(k));
    } else if k > 0 {
      var d := Halved(c);
      DigitsMore(d, 0, k - 1);
      ZeroDigit(c, d);
      assert Falses(k) == [false] + Falses(k - 1);
    }
  }

  lemma {:induction false} ZeroDigit(c: bv32, d: bv32)
    requires c == 0 && d == c >> 1
    ensures d == 0 && (c & 1 == 1) == false
  {
  }

  lemma {:induction false} RegOfByte(b: bv8, r: bv32)
    requires r == b as bv32
    ensures RegOf(r) == ByteBits(b) + Falses(24)
  {
    SmallByte(b, r);
    DigitsMore(r, 8, 24);
  }

  lemma {:induction false} SmallByte(b: bv8, r: bv32)
    requires r == b as bv32
    ensures Small(r, 8)
  {
    FullByte();
    SmallWithin(r, 0xff, 8);
  }

  /** Looking up a byte takes in its bits. */
  lemma {:induction false} LookupIsSerial(c: bv32, b: bv8, r: bv32, x: bv32) returns (e: bv32, s: bv32, y: bv32)
    requires r == b as bv32 && x == c ^ r
    ensures e == TABLE[Low(x) as int] && s == x >> 8 && y == e ^ s && RegOf(y) == Serial(RegOf(c), ByteBits(b))
  {
    e, s, y := LookupIsSteps(x);
    RegOfByte(b, r);
    RegOfXor(c, r, x);
    SerialIsSteps(RegOf(c), ByteBits(b));
  }

  // ---------- The program's loop ----------

  lemma {:induction false} IndexInTable(w: bv64)
    ensures 0 <= (w & 0xff) as int < 256
  {
  }

  /** The register is kept in a 64-bit word; the table's entries are widened. */
  function UpdateCRC32(ch: bv8, crc: bv64): (r: bv64) {
    IndexInTable(crc ^ (ch as bv64));
    (TABLE[((crc ^ (ch as bv64)) & 0xff) as int] as bv64) ^ (crc >> 8)
  }

  lemma {:induction false} WideIndex(c: bv32, b: bv8, r: bv32, x: bv32, w: bv64)
    requires w == c as bv64 && r == b as bv32 && x == c ^ r
    ensures (w ^ (b as bv64)) & 0xff == Low(x) as bv64
  {
  }

  lemma {:induction false} WideInt(b: bv8, v: bv64)
    requires v == b as bv64
    ensures v as int == b as int
  {
  }

  lemma {:induction false} WideXor(c: bv32, b: bv8, r: bv32, x: bv32, w: bv64, e: bv32, s: bv32, y: bv32)
    requires w == c as bv64 && r == b as bv32 && x == c ^ r && s == x >> 8 && y == e ^ s
    ensures (e as bv64) ^ (w >> 8) == y as bv64
  {
  }

  lemma {:induction false} PutInByte(c: bv32, b: bv8) returns (r: bv32, x: bv32)
    ensures r == b as bv32 && x == c ^ r
  {
    r := b as bv32;
    x := c ^ r;
  }

  lemma {:induction false} UpdateIs(b: bv8, w: bv64, v: bv64, k: bv8, e: bv32)
    requires v == (w ^ (b as bv64)) & 0xff && v as int == k as int && e == TABLE[k as int]
    ensures UpdateCRC32(b, w) == (e as bv64) ^ (w >> 8)
  {
  }

  lemma {:induction false} Indexed(c: bv32, b: bv8, r: bv32, x: bv32, w: bv64) returns (v: bv64, k: bv8)
    requires w == c as bv64 && r == b as bv32 && x == c ^ r
    ensures v == (w ^ (b as bv64)) & 0xff && k == Low(x) && v as int == k as int
  {
    v, k := (w ^ (b as bv64)) & 0xff, Low(x);
    WideIndex(c, b, r, x, w);
    WideInt(k, v);
  }

  /** An update takes in the bits of a byte, and the upper half of the word stays 0. */
  lemma {:induction false} UpdateIsSerial(c: bv32, b: bv8, w: bv64) returns (y: bv32)
    requires w == c as bv64
    ensures UpdateCRC32(b, w) == y as bv64 && RegOf(y) == Serial(RegOf(c), ByteBits(b))
  {
    var r, x := PutInByte(c, b);
    var e, s, y' := LookupIsSerial(c, b, r, x);
    y := y';
    var v, k := Indexed(c, b, r, x, w);
    UpdateIs(b, w, v, k, e);
    WideXor(c, b, r, x, w, e, s, y);
  }

  lemma {:induction false} FullDigits(t: bv32, n: nat)
    requires Full(t, n)
    ensures Digits(t, n) == seq(n, _ => true)
    decreases n
  {
    if n > 0 {
      var u := Halved(t);
      FullDigits(u, n - 1);
    }
  }

  lemma {:induction false} StartRegister(c: bv32)
    requires c == 0xffff_ffff
    ensures RegOf(c) == Ones() && c as bv64 == 0xffff_ffff
  {
    FullWord();
    FullDigits(c, 32);
  }

  /** The complement of a register, in the lower half of the word; the upper half is all ones. */
  lemma {:induction false} Complement(c: bv32, w: bv64) returns (z: bv32)
    requires w == c as bv64
    ensures !w & 0xffff_ffff == z as bv64 && !w >> 32 == 0xffff_ffff && z == c ^ 0xffff_ffff
  {
    z := c ^ 0xffff_ffff;
  }

  lemma {:induction false} ComplementRegister(c: bv32, z: bv32, t: bv32)
    requires t == 0xffff_ffff && z == c ^ t
    ensures RegOf(z) == Xor(Ones(), RegOf(c))
  {
    StartRegister(t);
    RegOfXor(c, t, z);
  }

  /** The word w holds the register c, under 32 zeros. */
  predicate Holds(w: bv64, c: bv32) {
    w == c as bv64
  }

  method Updc32(octet: bv8, crc: bv64, ghost c: bv32) returns (w: bv64, ghost y: bv32)
    requires Holds(crc, c)
    ensures w == UpdateCRC32(octet, crc) && Holds(w, y) && RegOf(y) == Serial(RegOf(c), ByteBits(octet))
  {
    y := UpdateIsSerial(c, octet, crc);
    w := UpdateCRC32(octet, crc);
  }

  /** The word w holds the CRC in its lower half, under 32 ones. */
  predicate HoldsInverted(w: bv64, z: bv32) {
    w & 0xffff_ffff == z as bv64 && w >> 32 == 0xffff_ffff
  }

  method Inverted(w: bv64, ghost c: bv32) returns (r: bv64, ghost z: bv32)
    requires Holds(w, c)
    ensures HoldsInverted(r, z) && RegOf(z) == Xor(Ones(), RegOf(c))
  {
    z := Complement(c, w);
    ComplementRegister(c, z, 0xffff_ffff);
    r := !w;
  }

  /** The lower half of a word. */
  function LowHalf(w: bv64): (r: bv32) {
    (w & 0xffff_ffff) as bv32
  }

  lemma {:induction false} LowHalfHeld(w: bv64, z: bv32)
    requires HoldsInverted(w, z)
    ensures LowHalf(w) == z && w >> 32 == 0xffff_ffff
  {
  }

  /** The CRC in the lower half, ones above it. */
  method Crc32Buf(buf: seq<bv8>) returns (r: bv64)
    ensures RegOf(LowHalf(r)) == Crc(buf) && r >> 32 == 0xffff_ffff
  {
    var oldcrc32: bv64 := 0xffff_ffff;
    ghost var c: bv32 := 0xffff_ffff;
    StartRegister(c);
    for i := 0 to |buf|
      invariant Holds(oldcrc32, c) && RegOf(c) == Serial(Ones(), Bits(buf[..i]))
    {
      BitsNext(buf, i, Ones());
      oldcrc32, c := Updc32(buf[i], oldcrc32, c);
    }
    assert buf[..|buf|] == buf;
    ghost var crc;
    r, crc := Inverted(oldcrc32, c);
    LowHalfHeld(r, crc);
  }

  /** Of two buffers of the same length that differ within four consecutive bytes, the results tell which is which. */
  method TellApart(x: seq<bv8>, y: seq<bv8>, ghost i: nat, ghost n: nat) returns (r: bv64, s: bv64)
    requires |x| == |y| && i + n <= |x| && n <= 4 && x != y
    requires x[..i] == y[..i] && x[i + n..] == y[i + n..]
    ensures r != s
  {
    r := Crc32Buf(x);
    s := Crc32Buf(y);
    FourBytesDetected(x, y, i, n);
  }

  lemma {:induction false} BitsNext(buf: seq<bv8>, i: nat, c: Reg)
    requires i < |buf|
    ensures Serial(c, Bits(buf[..i + 1])) == Serial(Serial(c, Bits(buf[..i])), ByteBits(buf[i]))
  {
    assert Bytes(buf[..i + 1])[..i] == Bytes(buf[..i]);
    SerialConcat(c, Bits(buf[..i]), ByteBits(buf[i]));
  }
}
