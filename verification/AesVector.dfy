/**
 The example of appendix C.3 of FIPS 197: the cipher of the key 00 01 .. 1f and the block
 00 11 .. ff, round by round on words as the code packs them. It ties the definitions of Fips197,
 and with them the tables and the code, to published bytes.
 */
module AesVector {
  import opened RijndaelTables
  import opened Gf256
  import opened Fips197
  import opened Rijndael

  // 00 01 .. 1f
  const KEY: seq<bv8> := seq(32, i requires 0 <= i < 32 => i as bv8)

  const PLAINTEXT: Block := [
    0x00, 0x11, 0x22, 0x33, 0x44, 0x55, 0x66, 0x77, 0x88, 0x99, 0xaa, 0xbb, 0xcc, 0xdd, 0xee, 0xff]

  const CIPHERTEXT: Block := [
    0x8e, 0xa2, 0xb7, 0xca, 0x51, 0x67, 0x45, 0xbf, 0xea, 0xfc, 0x49, 0x90, 0x4b, 0x49, 0x60, 0x89]

  datatype Four = Four(a: bv32, b: bv32, c: bv32, d: bv32)

  // The round keys.
  function Key(r: nat): Four {
    match r
    case 0 => Four(0x0302_0100, 0x0706_0504, 0x0b0a_0908, 0x0f0e_0d0c)
    case 1 => Four(0x1312_1110, 0x1716_1514, 0x1b1a_1918, 0x1f1e_1d1c)
    case 2 => Four(0x9fc2_73a5, 0x98c4_76a1, 0x93ce_7fa9, 0x9cc0_72a5)
    case 3 => Four(0xcda8_5116, 0xdabe_4402, 0xc1a4_5d1a, 0xdeba_4006)
    case 4 => Four(0xf0df_87ae, 0x681b_f10f, 0xfbd5_8ea6, 0x6715_fc03)
    case 5 => Four(0x48f1_e16d, 0x924f_a56f, 0x53eb_f875, 0x8d51_b873)
    case 6 => Four(0x7f82_56c6, 0x1799_a7c9, 0xec4c_296f, 0x8b59_d56c)
    case 7 => Four(0x753a_e23d, 0xe775_4752, 0xb49e_bf27, 0x39cf_0754)
    case 8 => Four(0x5f90_dc0b, 0x4809_7bc2, 0xa445_52ad, 0x2f1c_87c1)
    case 9 => Four(0x60a6_f545, 0x87d3_b217, 0x334d_0d30, 0x0a82_0a64)
    case 10 => Four(0x1cf7_cf7c, 0x54fe_b4be, 0xf0bb_e613, 0xdfa7_61d2)
    case 11 => Four(0xfefa_1af0, 0x7929_a8e7, 0x4a64_a5d7, 0x40e6_afb3)
    case 12 => Four(0x71fe_4125, 0x2500_f59b, 0xd5bb_1388, 0x0a1c_725a)
    case 13 => Four(0x9966_5a4e, 0xe04f_f2a9, 0xaa2b_577e, 0xeacd_f8cd)
    case _ => Four(0xcc79_fc24, 0xe979_09bf, 0x3cc2_1a37, 0x36de_686d)
  }

  // The state after round r, and after the first round key at 0.
  function At(r: nat): Four {
    match r
    case 0 => Four(0x3020_1000, 0x7060_5040, 0xb0a0_9080, 0xf0e0_d0c0)
    case 1 => Four(0x0676_634f, 0x85aa_e043, 0x3221_a7ef, 0x05e7_a401)
    case 2 => Four(0xc2fb_5918, 0xa000_1c8a, 0xad8a_ed78, 0x0961_2fc4)
    case 3 => Four(0xc166_5c97, 0xa83f_9fcb, 0xdf28_3aa9, 0x630f_e18e)
    case 4 => Four(0x71f2_051c, 0x4fe0_17a4, 0xc1c5_21f9, 0x5415_7004)
    case 5 => Four(0xe1aa_57c3, 0xb0b7_451b, 0x28bd_c7a2, 0xfa99_dca8)
    case 6 => Four(0x4341_077f, 0x3e24_4ecb, 0x5d81_0cc1, 0x4cd5_7583)
    case 7 => Four(0x69a4_53d6, 0x0fbc_a06c, 0x5dab_ca5a, 0x7d5e_6cb9)
    case 8 => Four(0x3958_a85a, 0x7d8d_d25f, 0x88a3_e105, 0xc5b9_f368)
    case 9 => Four(0x5148_824a, 0x477e_7ec5, 0x0ce5_3d64, 0xc9e8_f32a)
    case 10 => Four(0xf607_49c1, 0xa03a_3bca, 0x31aa_e970, 0xecb5_523b)
    case 11 => Four(0xbf6a_9c5f, 0xaa34_c6ba, 0xa79f_4050, 0x5376_6766)
    case 12 => Four(0x9504_6651, 0x0395_5343, 0xe486_fb14, 0x2125_9201)
    case 13 => Four(0xb9ce_7b62, 0xaa5a_9d99, 0xf4ec_45c9, 0xa56d_f523)
    case _ => Four(0xcab7_a28e, 0xbf45_6751, 0x9049_fcea, 0x8960_494b)
  }

  // ----- the schedule -----

  function SubPacked(x: bv32): bv32 { Pack(Sbox(Byte0(x)), Sbox(Byte1(x)), Sbox(Byte2(x)), Sbox(Byte3(x))) }

  // A round key from the two before it (section 5.2), where x is the last word of the one before.
  predicate Expands(p: Four, x: bv32, rcon: bv32, q: Four) {
    && q.a == Xor32(p.a, if rcon != 0 then Xor32(SubPacked(RotByte(x)), rcon) else SubPacked(x))
    && q.b == Xor32(p.b, q.a) && q.c == Xor32(p.c, q.b) && q.d == Xor32(p.d, q.c)
  }

  function RoundConstant(g: nat): bv32 {
    match g case 2 => 1 case 4 => 2 case 6 => 4 case 8 => 8 case 10 => 16 case 12 => 32 case 14 => 64 case _ => 0
  }

  lemma Expansion(g: nat)
    requires 2 <= g <= 14
    ensures Expands(Key(g - 2), Key(g - 1).d, RoundConstant(g), Key(g))
  {
    hide Expands;
    match g
    case 2 => Expansion2();
    case 3 => Expansion3();
    case 4 => Expansion4();
    case 5 => Expansion5();
    case 6 => Expansion6();
    case 7 => Expansion7();
    case 8 => Expansion8();
    case 9 => Expansion9();
    case 10 => Expansion10();
    case 11 => Expansion11();
    case 12 => Expansion12();
    case 13 => Expansion13();
    case _ => Expansion14();
  }

  lemma Expansion2()
    ensures Expands(Four(0x0302_0100, 0x0706_0504, 0x0b0a_0908, 0x0f0e_0d0c), 0x1f1e_1d1c, 1,
                    Four(0x9fc2_73a5, 0x98c4_76a1, 0x93ce_7fa9, 0x9cc0_72a5))
  {
  }

  lemma Expansion3()
    ensures Expands(Four(0x1312_1110, 0x1716_1514, 0x1b1a_1918, 0x1f1e_1d1c), 0x9cc0_72a5, 0,
                    Four(0xcda8_5116, 0xdabe_4402, 0xc1a4_5d1a, 0xdeba_4006))
  {
  }

  lemma Expansion4()
    ensures Expands(Four(0x9fc2_73a5, 0x98c4_76a1, 0x93ce_7fa9, 0x9cc0_72a5), 0xdeba_4006, 2,
                    Four(0xf0df_87ae, 0x681b_f10f, 0xfbd5_8ea6, 0x6715_fc03))
  {
  }

  lemma Expansion5()
    ensures Expands(Four(0xcda8_5116, 0xdabe_4402, 0xc1a4_5d1a, 0xdeba_4006), 0x6715_fc03, 0,
                    Four(0x48f1_e16d, 0x924f_a56f, 0x53eb_f875, 0x8d51_b873))
  {
  }

  lemma Expansion6()
    ensures Expands(Four(0xf0df_87ae, 0x681b_f10f, 0xfbd5_8ea6, 0x6715_fc03), 0x8d51_b873, 4,
                    Four(0x7f82_56c6, 0x1799_a7c9, 0xec4c_296f, 0x8b59_d56c))
  {
  }

  lemma Expansion7()
    ensures Expands(Four(0x48f1_e16d, 0x924f_a56f, 0x53eb_f875, 0x8d51_b873), 0x8b59_d56c, 0,
                    Four(0x753a_e23d, 0xe775_4752, 0xb49e_bf27, 0x39cf_0754))
  {
  }

  lemma Expansion8()
    ensures Expands(Four(0x7f82_56c6, 0x1799_a7c9, 0xec4c_296f, 0x8b59_d56c), 0x39cf_0754, 8,
                    Four(0x5f90_dc0b, 0x4809_7bc2, 0xa445_52ad, 0x2f1c_87c1))
  {
  }

  lemma Expansion9()
    ensures Expands(Four(0x753a_e23d, 0xe775_4752, 0xb49e_bf27, 0x39cf_0754), 0x2f1c_87c1, 0,
                    Four(0x60a6_f545, 0x87d3_b217, 0x334d_0d30, 0x0a82_0a64))
  {
  }

  lemma Expansion10()
    ensures Expands(Four(0x5f90_dc0b, 0x4809_7bc2, 0xa445_52ad, 0x2f1c_87c1), 0x0a82_0a64, 16,
                    Four(0x1cf7_cf7c, 0x54fe_b4be, 0xf0bb_e613, 0xdfa7_61d2))
  {
  }

  lemma Expansion11()
    ensures Expands(Four(0x60a6_f545, 0x87d3_b217, 0x334d_0d30, 0x0a82_0a64), 0xdfa7_61d2, 0,
                    Four(0xfefa_1af0, 0x7929_a8e7, 0x4a64_a5d7, 0x40e6_afb3))
  {
  }

  lemma Expansion12()
    ensures Expands(Four(0x1cf7_cf7c, 0x54fe_b4be, 0xf0bb_e613, 0xdfa7_61d2), 0x40e6_afb3, 32,
                    Four(0x71fe_4125, 0x2500_f59b, 0xd5bb_1388, 0x0a1c_725a))
  {
  }

  lemma Expansion13()
    ensures Expands(Four(0xfefa_1af0, 0x7929_a8e7, 0x4a64_a5d7, 0x40e6_afb3), 0x0a1c_725a, 0,
                    Four(0x9966_5a4e, 0xe04f_f2a9, 0xaa2b_577e, 0xeacd_f8cd))
  {
  }

  lemma Expansion14()
    ensures Expands(Four(0x71fe_4125, 0x2500_f59b, 0xd5bb_1388, 0x0a1c_725a), 0xeacd_f8cd, 64,
                    Four(0xcc79_fc24, 0xe979_09bf, 0x3cc2_1a37, 0x36de_686d))
  {
  }

  // ----- the rounds -----

  // Twice the first byte plus three times the second plus the others (section 5.1.3).
  function MixedByte(p: bv8, q: bv8, r: bv8, s: bv8): bv8 { Sum4(Xtime(p), Add(q, Xtime(q)), r, s) }

  // A column after a round, from four bytes of the state and a word of the round key.
  function Column(a: bv8, b: bv8, c: bv8, d: bv8, k: bv32): bv32 {
    var p, q, r, s := Sbox(a), Sbox(b), Sbox(c), Sbox(d);
    Xor32(Pack(MixedByte(p, q, r, s), MixedByte(q, r, s, p), MixedByte(r, s, p, q), MixedByte(s, p, q, r)), k)
  }

  predicate Turns(s: Four, k: Four, t: Four) {
    && t.a == Column(Byte0(s.a), Byte1(s.b), Byte2(s.c), Byte3(s.d), k.a)
    && t.b == Column(Byte0(s.b), Byte1(s.c), Byte2(s.d), Byte3(s.a), k.b)
    && t.c == Column(Byte0(s.c), Byte1(s.d), Byte2(s.a), Byte3(s.b), k.c)
    && t.d == Column(Byte0(s.d), Byte1(s.a), Byte2(s.b), Byte3(s.c), k.d)
  }

  lemma Turning(r: nat)
    requires 1 <= r <= 13
    ensures Turns(At(r - 1), Key(r), At(r))
  {
    hide Turns;
    match r
    case 1 => Turn1();
    case 2 => Turn2();
    case 3 => Turn3();
    case 4 => Turn4();
    case 5 => Turn5();
    case 6 => Turn6();
    case 7 => Turn7();
    case 8 => Turn8();
    case 9 => Turn9();
    case 10 => Turn10();
    case 11 => Turn11();
    case 12 => Turn12();
    case _ => Turn13();
  }

  lemma Turn1()
    ensures Turns(Four(0x3020_1000, 0x7060_5040, 0xb0a0_9080, 0xf0e0_d0c0),
                  Four(0x1312_1110, 0x1716_1514, 0x1b1a_1918, 0x1f1e_1d1c),
                  Four(0x0676_634f, 0x85aa_e043, 0x3221_a7ef, 0x05e7_a401))
  {
  }

  lemma Turn2()
    ensures Turns(Four(0x0676_634f, 0x85aa_e043, 0x3221_a7ef, 0x05e7_a401),
                  Four(0x9fc2_73a5, 0x98c4_76a1, 0x93ce_7fa9, 0x9cc0_72a5),
                  Four(0xc2fb_5918, 0xa000_1c8a, 0xad8a_ed78, 0x0961_2fc4))
  {
  }

  lemma Turn3()
    ensures Turns(Four(0xc2fb_5918, 0xa000_1c8a, 0xad8a_ed78, 0x0961_2fc4),
                  Four(0xcda8_5116, 0xdabe_4402, 0xc1a4_5d1a, 0xdeba_4006),
                  Four(0xc166_5c97, 0xa83f_9fcb, 0xdf28_3aa9, 0x630f_e18e))
  {
  }

  lemma Turn4()
    ensures Turns(Four(0xc166_5c97, 0xa83f_9fcb, 0xdf28_3aa9, 0x630f_e18e),
                  Four(0xf0df_87ae, 0x681b_f10f, 0xfbd5_8ea6, 0x6715_fc03),
                  Four(0x71f2_051c, 0x4fe0_17a4, 0xc1c5_21f9, 0x5415_7004))
  {
  }

  lemma Turn5()
    ensures Turns(Four(0x71f2_051c, 0x4fe0_17a4, 0xc1c5_21f9, 0x5415_7004),
                  Four(0x48f1_e16d, 0x924f_a56f, 0x53eb_f875, 0x8d51_b873),
                  Four(0xe1aa_57c3, 0xb0b7_451b, 0x28bd_c7a2, 0xfa99_dca8))
  {
  }

  lemma Turn6()
    ensures Turns(Four(0xe1aa_57c3, 0xb0b7_451b, 0x28bd_c7a2, 0xfa99_dca8),
                  Four(0x7f82_56c6, 0x1799_a7c9, 0xec4c_296f, 0x8b59_d56c),
                  Four(0x4341_077f, 0x3e24_4ecb, 0x5d81_0cc1, 0x4cd5_7583))
  {
  }

  lemma Turn7()
    ensures Turns(Four(0x4341_077f, 0x3e24_4ecb, 0x5d81_0cc1, 0x4cd5_7583),
                  Four(0x753a_e23d, 0xe775_4752, 0xb49e_bf27, 0x39cf_0754),
                  Four(0x69a4_53d6, 0x0fbc_a06c, 0x5dab_ca5a, 0x7d5e_6cb9))
  {
  }

  lemma Turn8()
    ensures Turns(Four(0x69a4_53d6, 0x0fbc_a06c, 0x5dab_ca5a, 0x7d5e_6cb9),
                  Four(0x5f90_dc0b, 0x4809_7bc2, 0xa445_52ad, 0x2f1c_87c1),
                  Four(0x3958_a85a, 0x7d8d_d25f, 0x88a3_e105, 0xc5b9_f368))
  {
  }

  lemma Turn9()
    ensures Turns(Four(0x3958_a85a, 0x7d8d_d25f, 0x88a3_e105, 0xc5b9_f368),
                  Four(0x60a6_f545, 0x87d3_b217, 0x334d_0d30, 0x0a82_0a64),
                  Four(0x5148_824a, 0x477e_7ec5, 0x0ce5_3d64, 0xc9e8_f32a))
  {
  }

  lemma Turn10()
    ensures Turns(Four(0x5148_824a, 0x477e_7ec5, 0x0ce5_3d64, 0xc9e8_f32a),
                  Four(0x1cf7_cf7c, 0x54fe_b4be, 0xf0bb_e613, 0xdfa7_61d2),
                  Four(0xf607_49c1, 0xa03a_3bca, 0x31aa_e970, 0xecb5_523b))
  {
  }

  lemma Turn11()
    ensures Turns(Four(0xf607_49c1, 0xa03a_3bca, 0x31aa_e970, 0xecb5_523b),
                  Four(0xfefa_1af0, 0x7929_a8e7, 0x4a64_a5d7, 0x40e6_afb3),
                  Four(0xbf6a_9c5f, 0xaa34_c6ba, 0xa79f_4050, 0x5376_6766))
  {
  }

  lemma Turn12()
    ensures Turns(Four(0xbf6a_9c5f, 0xaa34_c6ba, 0xa79f_4050, 0x5376_6766),
                  Four(0x71fe_4125, 0x2500_f59b, 0xd5bb_1388, 0x0a1c_725a),
                  Four(0x9504_6651, 0x0395_5343, 0xe486_fb14, 0x2125_9201))
  {
  }

  lemma Turn13()
    ensures Turns(Four(0x9504_6651, 0x0395_5343, 0xe486_fb14, 0x2125_9201),
                  Four(0x9966_5a4e, 0xe04f_f2a9, 0xaa2b_577e, 0xeacd_f8cd),
                  Four(0xb9ce_7b62, 0xaa5a_9d99, 0xf4ec_45c9, 0xa56d_f523))
  {
  }

  // The last round has no mixing.
  function LastColumn(a: bv8, b: bv8, c: bv8, d: bv8, k: bv32): bv32 {
    Xor32(Pack(Sbox(a), Sbox(b), Sbox(c), Sbox(d)), k)
  }

  predicate LastTurn(s: Four, k: Four, t: Four) {
    && t.a == LastColumn(Byte0(s.a), Byte1(s.b), Byte2(s.c), Byte3(s.d), k.a)
    && t.b == LastColumn(Byte0(s.b), Byte1(s.c), Byte2(s.d), Byte3(s.a), k.b)
    && t.c == LastColumn(Byte0(s.c), Byte1(s.d), Byte2(s.a), Byte3(s.b), k.c)
    && t.d == LastColumn(Byte0(s.d), Byte1(s.a), Byte2(s.b), Byte3(s.c), k.d)
  }

  lemma Turn14()
    ensures LastTurn(Four(0xb9ce_7b62, 0xaa5a_9d99, 0xf4ec_45c9, 0xa56d_f523),
                     Four(0xcc79_fc24, 0xe979_09bf, 0x3cc2_1a37, 0x36de_686d),
                     Four(0xcab7_a28e, 0xbf45_6751, 0x9049_fcea, 0x8960_494b))
  {
  }

  // ----- in the terms of Fips197 -----

  function Words(f: Four): State { [Unpack(f.a), Unpack(f.b), Unpack(f.c), Unpack(f.d)] }

  lemma SubPackedIs(x: bv32)
    ensures Unpack(SubPacked(x)) == SubWord(Unpack(x))
  {
    hide Sbox, Pack, Byte0, Byte1, Byte2, Byte3;
    UnpackPack(Sbox(Byte0(x)), Sbox(Byte1(x)), Sbox(Byte2(x)), Sbox(Byte3(x)));
  }

  lemma ConstantIs(g: nat)
    requires 2 <= g <= 14
    ensures g % 2 == 0 <==> RoundConstant(g) != 0
    ensures g % 2 == 0 ==> Unpack(RoundConstant(g)) == Word(Rcon(g / 2), 0, 0, 0)
  {
    RconIs();
    match g
    case 2 => case 3 => case 4 => case 5 => case 6 => case 7 => case 8 =>
    case 9 => case 10 => case 11 => case 12 => case 13 => case _ =>
  }

  lemma RconIs()
    ensures Rcon(1) == 1 && Rcon(2) == 2 && Rcon(3) == 4 && Rcon(4) == 8
    ensures Rcon(5) == 16 && Rcon(6) == 32 && Rcon(7) == 64
  {
  }

  lemma ExpandsIs(p: Four, x: bv32, rcon: bv32, q: Four)
    requires Expands(p, x, rcon, q)
    ensures var a, t, b := Words(p), Unpack(x), Words(q);
            && b[0] == AddWord(a[0], if rcon != 0 then AddWord(SubWord(RotWord(t)), Unpack(rcon)) else SubWord(t))
            && b[1] == AddWord(a[1], b[0]) && b[2] == AddWord(a[2], b[1]) && b[3] == AddWord(a[3], b[2])
  {
    hide SubPacked, Unpack, RotByte, Xor32, AddWord, SubWord, RotWord;
    SubPackedIs(x);
    SubPackedIs(RotByte(x));
    UnpackRot(x);
    UnpackXor(SubPacked(RotByte(x)), rcon);
    UnpackXor(p.a, if rcon != 0 then Xor32(SubPacked(RotByte(x)), rcon) else SubPacked(x));
    UnpackXor(p.b, q.a);
    UnpackXor(p.c, q.b);
    UnpackXor(p.d, q.c);
  }

  function WordAt(key: seq<bv8>, i: nat): Word
    requires 4 * i + 4 <= |key|
  {
    Word(key[4 * i], key[4 * i + 1], key[4 * i + 2], key[4 * i + 3])
  }

  lemma KeyBytes0()
    ensures Words(Key(0)) == [WordAt(KEY, 0), WordAt(KEY, 1), WordAt(KEY, 2), WordAt(KEY, 3)]
  {
  }

  lemma KeyBytes1()
    ensures Words(Key(1)) == [WordAt(KEY, 4), WordAt(KEY, 5), WordAt(KEY, 6), WordAt(KEY, 7)]
  {
    LaterBytes();
    var k := Key(1);
    assert Unpack(k.a) == Word(0x10, 0x11, 0x12, 0x13) && Unpack(k.b) == Word(0x14, 0x15, 0x16, 0x17);
    assert Unpack(k.c) == Word(0x18, 0x19, 0x1a, 0x1b) && Unpack(k.d) == Word(0x1c, 0x1d, 0x1e, 0x1f);
  }

  lemma LaterBytes()
    ensures WordAt(KEY, 4) == Word(0x10, 0x11, 0x12, 0x13) && WordAt(KEY, 5) == Word(0x14, 0x15, 0x16, 0x17)
    ensures WordAt(KEY, 6) == Word(0x18, 0x19, 0x1a, 0x1b) && WordAt(KEY, 7) == Word(0x1c, 0x1d, 0x1e, 0x1f)
  {
  }

  lemma KeyStep(key: seq<bv8>, i: nat)
    requires |key| == 32
    ensures i < 8 ==> KeyWord(key, 8, i) == WordAt(key, i)
    ensures i >= 8 ==>
              var t := KeyWord(key, 8, i - 1);
              KeyWord(key, 8, i)
              == AddWord(KeyWord(key, 8, i - 8),
                         if i % 8 == 0 then AddWord(SubWord(RotWord(t)), Word(Rcon(i / 8), 0, 0, 0))
                         else if i % 8 == 4 then SubWord(t) else t)
  {
    hide SubWord, AddWord, Rcon, RotWord;
  }

  lemma Position(g: nat, j: nat)
    requires j < 4
    ensures (4 * g + j) % 8 == (if g % 2 == 0 then j else 4 + j) && (4 * g + j) / 8 == g / 2
  {
  }

  predicate IsKey(key: seq<bv8>, g: nat, k: State)
    requires |key| == 32
  {
    && KeyWord(key, 8, 4 * g) == k[0] && KeyWord(key, 8, 4 * g + 1) == k[1]
    && KeyWord(key, 8, 4 * g + 2) == k[2] && KeyWord(key, 8, 4 * g + 3) == k[3]
  }

  lemma {:induction false} KeysAre(g: nat)
    requires g <= 14
    ensures IsKey(KEY, g, Words(Key(g)))
  {
    hide Key, Words, IsKey, Expands, WordAt;
    if g < 2 {
      FirstKeys(KEY);
      KeyBytes0();
      KeyBytes1();
    } else {
      KeysAre(g - 2);
      KeysAre(g - 1);
      Expansion(g);
      ExpandsIs(Key(g - 2), Key(g - 1).d, RoundConstant(g), Key(g));
      LastWord(Key(g - 1));
      NextKey(KEY, g, Words(Key(g - 2)), Words(Key(g - 1)), Words(Key(g)));
    }
  }

  lemma LastWord(f: Four)
    ensures Words(f)[3] == Unpack(f.d)
  {
  }

  lemma FirstKeys(key: seq<bv8>)
    requires |key| == 32
    ensures IsKey(key, 0, [WordAt(key, 0), WordAt(key, 1), WordAt(key, 2), WordAt(key, 3)])
    ensures IsKey(key, 1, [WordAt(key, 4), WordAt(key, 5), WordAt(key, 6), WordAt(key, 7)])
  {
    hide KeyWord, WordAt;
    KeyStep(key, 0);
    KeyStep(key, 1);
    KeyStep(key, 2);
    KeyStep(key, 3);
    KeyStep(key, 4);
    KeyStep(key, 5);
    KeyStep(key, 6);
    KeyStep(key, 7);
  }

  lemma NextKey(key: seq<bv8>, g: nat, a: State, t: State, b: State)
    requires |key| == 32 && 2 <= g <= 14 && IsKey(key, g - 2, a) && IsKey(key, g - 1, t)
    requires var rcon := RoundConstant(g);
             b[0] == AddWord(a[0], if rcon != 0 then AddWord(SubWord(RotWord(t[3])), Unpack(rcon)) else SubWord(t[3]))
    requires b[1] == AddWord(a[1], b[0]) && b[2] == AddWord(a[2], b[1]) && b[3] == AddWord(a[3], b[2])
    ensures IsKey(key, g, b)
  {
    hide SubWord, AddWord, Rcon, RotWord, Unpack, RoundConstant, KeyWord;
    ConstantIs(g);
    KeyStep(key, 4 * g);
    KeyStep(key, 4 * g + 1);
    KeyStep(key, 4 * g + 2);
    KeyStep(key, 4 * g + 3);
    Position(g, 0);
    Position(g, 1);
    Position(g, 2);
    Position(g, 3);
  }

  lemma SumRotates(a: bv8, b: bv8, c: bv8, d: bv8)
    ensures Sum4(d, a, b, c) == Sum4(a, b, c, d)
  {
  }

  lemma MixedByteIs(p: bv8, q: bv8, r: bv8, s: bv8)
    ensures Sum4(Product(2, p), Product(3, q), Product(1, r), Product(1, s)) == MixedByte(p, q, r, s)
    ensures Sum4(Product(1, s), Product(2, p), Product(3, q), Product(1, r)) == MixedByte(p, q, r, s)
    ensures Sum4(Product(1, r), Product(1, s), Product(2, p), Product(3, q)) == MixedByte(p, q, r, s)
    ensures Sum4(Product(3, q), Product(1, r), Product(1, s), Product(2, p)) == MixedByte(p, q, r, s)
  {
    hide Product, Xtime, Sum4, Add;
    Coefficients(p);
    Coefficients(q);
    Coefficients(r);
    Coefficients(s);
    var x, y := Xtime(p), Add(q, Xtime(q));
    SumRotates(x, y, r, s);
    SumRotates(s, x, y, r);
    SumRotates(r, s, x, y);
  }

  lemma ColumnIs(a: bv8, b: bv8, c: bv8, d: bv8, k: bv32)
    ensures Unpack(Column(a, b, c, d, k)) == AddWord(MixColumn(SubWord(Word(a, b, c, d))), Unpack(k))
  {
    hide Sbox, Pack, Unpack, MixedByte, Product, Xor32, Sum4, AddWord;
    var p, q, r, s := Sbox(a), Sbox(b), Sbox(c), Sbox(d);
    MixedByteIs(p, q, r, s);
    MixedByteIs(q, r, s, p);
    MixedByteIs(r, s, p, q);
    MixedByteIs(s, p, q, r);
    var w := MixColumn(Word(p, q, r, s));
    UnpackPack(w.b0, w.b1, w.b2, w.b3);
    UnpackXor(Pack(w.b0, w.b1, w.b2, w.b3), k);
  }

  lemma TurnIs(s: Four, k: Four, t: Four)
    requires Turns(s, k, t)
    ensures Round(Words(s), Words(k)) == Words(t)
  {
    hide Column, SubWord, MixColumn, AddWord, Byte0, Byte1, Byte2, Byte3;
    ColumnIs(Byte0(s.a), Byte1(s.b), Byte2(s.c), Byte3(s.d), k.a);
    ColumnIs(Byte0(s.b), Byte1(s.c), Byte2(s.d), Byte3(s.a), k.b);
    ColumnIs(Byte0(s.c), Byte1(s.d), Byte2(s.a), Byte3(s.b), k.c);
    ColumnIs(Byte0(s.d), Byte1(s.a), Byte2(s.b), Byte3(s.c), k.d);
    ShiftedSub(Words(s));
  }

  // Substitution and shifting, column by column.
  lemma ShiftedSub(s: State)
    ensures ShiftRows(SubBytes(s))
         == [SubWord(ShiftedColumn(s, 0)), SubWord(ShiftedColumn(s, 1)),
             SubWord(ShiftedColumn(s, 2)), SubWord(ShiftedColumn(s, 3))]
  {
    hide ShiftedColumn, SubWord, SubBytes;
    SubstitutedColumn(s, 0);
    SubstitutedColumn(s, 1);
    SubstitutedColumn(s, 2);
    SubstitutedColumn(s, 3);
  }

  lemma SubstitutedColumn(s: State, j: nat)
    requires j < 4
    ensures ShiftedColumn(SubBytes(s), j) == SubWord(ShiftedColumn(s, j))
  {
    hide Sbox, SubBytes;
    SubstitutedAt(s, j % 4);
    SubstitutedAt(s, (j + 1) % 4);
    SubstitutedAt(s, (j + 2) % 4);
    SubstitutedAt(s, (j + 3) % 4);
  }

  lemma SubstitutedAt(s: State, j: nat)
    requires j < 4
    ensures SubBytes(s)[j] == SubWord(s[j])
  {
    hide SubWord;
  }

  lemma LastTurnIs(s: Four, k: Four, t: Four)
    requires LastTurn(s, k, t)
    ensures AddRoundKey(ShiftRows(SubBytes(Words(s))), Words(k)) == Words(t)
  {
    hide LastColumn, SubWord, AddWord, Byte0, Byte1, Byte2, Byte3;
    LastColumnIs(Byte0(s.a), Byte1(s.b), Byte2(s.c), Byte3(s.d), k.a);
    LastColumnIs(Byte0(s.b), Byte1(s.c), Byte2(s.d), Byte3(s.a), k.b);
    LastColumnIs(Byte0(s.c), Byte1(s.d), Byte2(s.a), Byte3(s.b), k.c);
    LastColumnIs(Byte0(s.d), Byte1(s.a), Byte2(s.b), Byte3(s.c), k.d);
    ShiftedSub(Words(s));
  }

  lemma LastColumnIs(a: bv8, b: bv8, c: bv8, d: bv8, k: bv32)
    ensures Unpack(LastColumn(a, b, c, d, k)) == AddWord(SubWord(Word(a, b, c, d)), Unpack(k))
  {
    hide Sbox, Pack, Unpack, Xor32;
    UnpackPack(Sbox(a), Sbox(b), Sbox(c), Sbox(d));
    UnpackXor(Pack(Sbox(a), Sbox(b), Sbox(c), Sbox(d)), k);
  }

  ghost predicate IsVectorSchedule(w: seq<Word>) {
    |w| == 60 && forall r | 0 <= r <= 14 :: RoundKey(w, r) == Words(Key(r))
  }

  lemma ScheduleIs()
    ensures IsVectorSchedule(KeyExpansion(KEY, 8))
  {
    hide KeyWord, Words, Key;
    var w := KeyExpansion(KEY, 8);
    forall r | 0 <= r <= 14 ensures RoundKey(w, r) == Words(Key(r)) {
      KeysAre(r);
    }
  }

  lemma {:induction false} RoundsAre(w: seq<Word>, r: nat)
    requires IsVectorSchedule(w) && r <= 13
    ensures Rounds(Words(At(0)), w, r) == Words(At(r))
  {
    hide Round, Words, Key, At, Turns;
    if r > 0 {
      RoundsAre(w, r - 1);
      Turning(r);
      TurnIs(At(r - 1), Key(r), At(r));
    }
  }

  lemma FirstState()
    ensures AddRoundKey(ToState(PLAINTEXT), Words(Key(0))) == Words(At(0))
  {
    hide ToState;
    var s := ToState(PLAINTEXT);
    assert s[0] == Word(0x00, 0x11, 0x22, 0x33) && s[1] == Word(0x44, 0x55, 0x66, 0x77);
    assert s[2] == Word(0x88, 0x99, 0xaa, 0xbb) && s[3] == Word(0xcc, 0xdd, 0xee, 0xff);
  }

  lemma LastBlock()
    ensures FromState(Words(At(14))) == CIPHERTEXT
  {
    hide FromState;
    var b := FromState(Words(At(14)));
    assert Word(b[0], b[1], b[2], b[3]) == Word(0x8e, 0xa2, 0xb7, 0xca) by { assert b[4 * 0] == b[0]; }
    assert Word(b[4], b[5], b[6], b[7]) == Word(0x51, 0x67, 0x45, 0xbf) by { assert b[4 * 1] == b[4]; }
    assert Word(b[8], b[9], b[10], b[11]) == Word(0xea, 0xfc, 0x49, 0x90) by { assert b[4 * 2] == b[8]; }
    assert Word(b[12], b[13], b[14], b[15]) == Word(0x4b, 0x49, 0x60, 0x89) by { assert b[4 * 3] == b[12]; }
  }

  // The cipher of the code's definitions gives the published block.
  lemma Vector()
    ensures EncryptBlock(KeysOf(32, KEY), PLAINTEXT) == CIPHERTEXT
  {
    hide KeyExpansion, IsVectorSchedule, Rounds, Words, Key, At, ToState, FromState, AddRoundKey, LastTurn;
    var w := KeysOf(32, KEY).w;
    ScheduleIs();
    VectorCipher(w);
    LastBlock();
  }

  lemma VectorCipher(w: seq<Word>)
    requires IsVectorSchedule(w)
    ensures |w| == 60 && Cipher(ToState(PLAINTEXT), w, 14) == Words(At(14))
  {
    hide Rounds, Words, ToState, FromState, AddRoundKey, LastTurn, RoundKey;
    FirstState();
    RoundsAre(w, 13);
    Turn14();
    LastTurnIs(At(13), Key(14), At(14));
  }
}
