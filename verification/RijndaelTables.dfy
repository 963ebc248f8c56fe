/**
 The six lookup tables of the cipher. A row packs consecutive entries, lowest
 index in the least significant position: sixteen bytes a row for the byte
 tables, four words a row for the two word tables.
 */
module RijndaelTables {
  // Byte substitution used by the key schedule and the last encryption round.
  function Sbox(x: bv8): bv8 {
    var row: bv128 :=
      if x < 0x10 then 0x76abd7fe2b670130c56f6bf27b777c63 else
      if x < 0x20 then 0xc072a49cafa2d4adf04759fa7dc982ca else
      if x < 0x30 then 0x1531d871f1e5a534ccf73f362693fdb7 else
      if x < 0x40 then 0x75b227ebe28012079a059618c323c704 else
      if x < 0x50 then 0x842fe329b3d63b52a05a6e1b1a2c8309 else
      if x < 0x60 then 0xcf584c4a39becb6a5bb1fc20ed00d153 else
      if x < 0x70 then 0xa89f3c507f02f94585334d43fbaaefd0 else
      if x < 0x80 then 0xd2f3ff1021dab6bcf5389d928f40a351 else
      if x < 0x90 then 0x73195d643d7ea7c41744975fec130ccd else
      if x < 0xa0 then 0xdb0b5ede14b8ee4688902a22dc4f8160 else
      if x < 0xb0 then 0x79e4959162acd3c25c2406490a3a32e0 else
      if x < 0xc0 then 0x08ae7a65eaf4566ca94ed58d6d37c8e7 else
      if x < 0xd0 then 0x8a8bbd4b1f74dde8c6b4a61c2e2578ba else
      if x < 0xe0 then 0x9e1dc186b95735610ef6034866b53e70 else
      if x < 0xf0 then 0xdf2855cee9871e9b948ed9691198f8e1 else
      0x16bb54b00f2d99416842e6bf0d89a18c;
    ((row >> ((x & 0xf) << 3)) & 0xff) as bv8
  }

  // Inverse byte substitution used by the last decryption round.
  function Isbox(x: bv8): bv8 {
    var row: bv128 :=
      if x < 0x10 then 0xfbd7f3819ea340bf38a53630d56a0952 else
      if x < 0x20 then 0xcbe9dec444438e3487ff2f9b8239e37c else
      if x < 0x30 then 0x4ec3fa420b954cee3d23c2a632947b54 else
      if x < 0x40 then 0x25d18b6d49a25b76b224d92866a12e08 else
      if x < 0x50 then 0x92b6655dcc5ca4d41698688664f6f872 else
      if x < 0x60 then 0x849d8da75746155edab9edfd5048706c else
      if x < 0x70 then 0x0645b3b80558e4f70ad3bc8c00abd890 else
      if x < 0x80 then 0x6b8a130103bdafc1020f3fca8f1e2cd0 else
      if x < 0x90 then 0x73e6b4f0cecff297eadc674f4111913a else
      if x < 0xa0 then 0x6edf751ce837f9e28535ade72274ac96 else
      if x < 0xb0 then 0x1bbe18aa0e62b76f89c5291d711af147 else
      if x < 0xc0 then 0xf45acd78fec0db9a2079d2c64b3e56fc else
      if x < 0xd0 then 0x5fec8027591012b131c7078833a8dd1f else
      if x < 0xe0 then 0xef9cc9939f7ae52d0d4ab519a97f5160 else
      if x < 0xf0 then 0x619953833cbbebc8b0f52aae4d3be0a0 else
      0x7d0c2155631469e126d677ba7e042b17;
    ((row >> ((x & 0xf) << 3)) & 0xff) as bv8
  }

  // Discrete logarithm to the base 3 (the entry for 0 is never used).
  function LogTable(x: bv8): bv8 {
    var row: bv128 :=
      if x < 0x10 then 0x03dfee33681bc74bc61a023201190000 else
      if x < 0x20 then 0xc11c69f8c808714cef818d340ee00464 else
      if x < 0x30 then 0x7809c99a72a6e44d6a27b9f9b51dc27d else
      if x < 0x40 then 0x8eda93354582f01224e10f21058a2f65 else
      if x < 0x50 then 0x38834640f1d25c1394ced036bddb8f96 else
      if x < 0x60 then 0x1091882298e225b3628b06bf30fddd66 else
      if x < 0x70 then 0xba3d85fa54286b3a421eb6a3c3486e7e else
      if x < 0x80 then 0x57a773f3e5acd44eca5e9f9b150a792b else
      if x < 0x90 then 0xe8ade6e7d5e9ae4f74d6eaf450a858af else
      if x < 0xa0 then 0xa051a99cb05fcb59f50b16eb7a75d72c else
      if x < 0xb0 then 0xb77b76a42d1f43d8ec49c4176ff60c7f else
      if x < 0xc0 then 0x9d2955aa6ca1523b86b160fb5a3ebbcc else
      if x < 0xd0 then 0xd15b3f37cdcf95bcfcdcbe619087b297 else
      if x < 0xe0 then 0xabd3f2565d9e2a14476da2413c843953 else
      if x < 0xf0 then 0xa5e3997726b87cb4892e2023d9921144 else
      0x0770f7c0808c630d18fe31c5deed4a67;
    ((row >> ((x & 0xf) << 3)) & 0xff) as bv8
  }

  // Powers of 3 in GF(2^8).
  function AlogTable(x: bv8): bv8 {
    var row: bv128 :=
      if x < 0x10 then 0x3513f8a196722e1aff5533110f050301 else
      if x < 0x20 then 0xaa66221e0a0602f7a49573d84838e15f else
      if x < 0x30 then 0x31e6ab9070d9be6a26eb5937e45c34e5 else
      if x < 0x40 then 0xcdb26ed3b868d14fcc443c140c04f553 else
      if x < 0x50 then 0x8878281808f1a662d74d3be0a967d44c else
      if x < 0x60 then 0x9a76db49ceb398817fdcbd6bd0b99e83 else
      if x < 0x70 then 0xa361d6bb69271d0bf0503010f957c4b5 else
      if x < 0x80 then 0xa06020e9ae93712fecad92877d2b19fe else
      if x < 0x90 then 0x413f15fa5632e75dc2b76dd24e3a16fb else
      if x < 0xa0 then 0x75dabf9c742ced5bc040c9473de25ec3 else
      if x < 0xb0 then 0x80898e7adfbc9d827e2aefac64d5ba9f else
      if x < 0xc0 then 0x54c543c8b16f25eaaf6523e858c1b69b else
      if x < 0xd0 then 0xca46cbb099772d1b0907f4a563211ffc else
      if x < 0xe0 then 0x0ef351c6423ee3a891868b79de4acf45 else
      if x < 0xf0 then 0x170df2a794858a8f8c8d7b29ee5a3612 else
      0x01f652c7b46c241cfda297847cdd4b39;
    ((row >> ((x & 0xf) << 3)) & 0xff) as bv8
  }

  // Sbox followed by MixColumns, for byte 0 of a column.
  function Dtbl(x: bv8): bv32 {
    var row: bv128 :=
      if x < 0x04 then 0x8d7b7bf6_997777ee_847c7cf8_a56363c6 else
      if x < 0x08 then 0x54c5c591_b16f6fde_bd6b6bd6_0df2f2ff else
      if x < 0x0c then 0x7d2b2b56_a96767ce_03010102_50303060 else
      if x < 0x10 then 0x9a7676ec_e6abab4d_62d7d7b5_19fefee7 else
      if x < 0x14 then 0x877d7dfa_40c9c989_9d82821f_45caca8f else
      if x < 0x18 then 0x0bf0f0fb_c947478e_eb5959b2_15fafaef else
      if x < 0x1c then 0xeaafaf45_fda2a25f_67d4d4b3_ecadad41 else
      if x < 0x20 then 0x5bc0c09b_967272e4_f7a4a453_bf9c9c23 else
      if x < 0x24 then 0x6a26264c_ae93933d_1cfdfde1_c2b7b775 else
      if x < 0x28 then 0x4fcccc83_02f7f7f5_413f3f7e_5a36366c else
      if x < 0x2c then 0x08f1f1f9_34e5e5d1_f4a5a551_5c343468 else
      if x < 0x30 then 0x3f15152a_53313162_73d8d8ab_937171e2 else
      if x < 0x34 then 0x5ec3c39d_65232346_52c7c795_0c040408 else
      if x < 0x38 then 0xb59a9a2f_0f05050a_a1969637_28181830 else
      if x < 0x3c then 0x3de2e2df_9b80801b_36121224_0907070e else
      if x < 0x40 then 0x9f7575ea_cdb2b27f_6927274e_26ebebcd else
      if x < 0x44 then 0x2e1a1a34_742c2c58_9e83831d_1b090912 else
      if x < 0x48 then 0xfba0a05b_ee5a5ab4_b26e6edc_2d1b1b36 else
      if x < 0x4c then 0xceb3b37d_61d6d6b7_4d3b3b76_f65252a4 else
      if x < 0x50 then 0x97848413_712f2f5e_3ee3e3dd_7b292952 else
      if x < 0x54 then 0x2cededc1_00000000_68d1d1b9_f55353a6 else
      if x < 0x58 then 0xed5b5bb6_c8b1b179_1ffcfce3_60202040 else
      if x < 0x5c then 0x4b393972_d9bebe67_46cbcb8d_be6a6ad4 else
      if x < 0x60 then 0x4acfcf85_e85858b0_d44c4c98_de4a4a94 else
      if x < 0x64 then 0x16fbfbed_e5aaaa4f_2aefefc5_6bd0d0bb else
      if x < 0x68 then 0x94858511_55333366_d74d4d9a_c5434386 else
      if x < 0x6c then 0x817f7ffe_06020204_10f9f9e9_cf45458a else
      if x < 0x70 then 0xe3a8a84b_ba9f9f25_443c3c78_f05050a0 else
      if x < 0x74 then 0x8a8f8f05_c0404080_fea3a35d_f35151a2 else
      if x < 0x78 then 0x04f5f5f1_48383870_bc9d9d21_ad92923f else
      if x < 0x7c then 0x63212142_75dadaaf_c1b6b677_dfbcbc63 else
      if x < 0x80 then 0x6dd2d2bf_0ef3f3fd_1affffe5_30101020 else
      if x < 0x84 then 0x2fececc3_35131326_140c0c18_4ccdcd81 else
      if x < 0x88 then 0x3917172e_cc444488_a2979735_e15f5fbe else
      if x < 0x8c then 0x473d3d7a_827e7efc_f2a7a755_57c4c493 else
      if x < 0x90 then 0x957373e6_2b191932_e75d5dba_ac6464c8 else
      if x < 0x94 then 0x7fdcdca3_d14f4f9e_98818119_a06060c0 else
      if x < 0x98 then 0x8388880b_ab90903b_7e2a2a54_66222244 else
      if x < 0x9c then 0x3c141428_d3b8b86b_29eeeec7_ca46468c else
      if x < 0xa0 then 0x76dbdbad_1d0b0b16_e25e5ebc_79dedea7 else
      if x < 0xa4 then 0x1e0a0a14_4e3a3a74_56323264_3be0e0db else
      if x < 0xa8 then 0xe45c5cb8_6c242448_0a06060c_db494992 else
      if x < 0xac then 0xa66262c4_efacac43_6ed3d3bd_5dc2c29f else
      if x < 0xb0 then 0x8b7979f2_37e4e4d3_a4959531_a8919139 else
      if x < 0xb4 then 0xb76d6dda_5937376e_43c8c88b_32e7e7d5 else
      if x < 0xb8 then 0xe0a9a949_d24e4e9c_64d5d5b1_8c8d8d01 else
      if x < 0xbc then 0x25eaeacf_07f4f4f3_fa5656ac_b46c6cd8 else
      if x < 0xc0 then 0x18080810_e9aeae47_8e7a7af4_af6565ca else
      if x < 0xc4 then 0x722e2e5c_6f25254a_887878f0_d5baba6f else
      if x < 0xc8 then 0x51c6c697_c7b4b473_f1a6a657_241c1c38 else
      if x < 0xcc then 0x211f1f3e_9c7474e8_7cdddda1_23e8e8cb else
      if x < 0xd0 then 0x858a8a0f_868b8b0d_dcbdbd61_dd4b4b96 else
      if x < 0xd4 then 0xaa6666cc_c4b5b571_423e3e7c_907070e0 else
      if x < 0xd8 then 0x120e0e1c_01f6f6f7_05030306_d8484890 else
      if x < 0xdc then 0xd0b9b969_f95757ae_5f35356a_a36161c2 else
      if x < 0xe0 then 0xb99e9e27_271d1d3a_58c1c199_91868617 else
      if x < 0xe4 then 0x33111122_b398982b_13f8f8eb_38e1e1d9 else
      if x < 0xe8 then 0xa7949433_898e8e07_70d9d9a9_bb6969d2 else
      if x < 0xec then 0x20e9e9c9_92878715_221e1e3c_b69b9b2d else
      if x < 0xf0 then 0x7adfdfa5_78282850_ff5555aa_49cece87 else
      if x < 0xf4 then 0x170d0d1a_80898909_f8a1a159_8f8c8c03 else
      if x < 0xf8 then 0xb86868d0_c6424284_31e6e6d7_dabfbf65 else
      if x < 0xfc then 0x110f0f1e_772d2d5a_b0999929_c3414182 else
      0x3a16162c_d6bbbb6d_fc5454a8_cbb0b07b;
    ((row >> ((x & 3) << 5)) & 0xffff_ffff) as bv32
  }

  // Isbox followed by InvMixColumns, for byte 0 of a column.
  function Itbl(x: bv8): bv32 {
    var row: bv128 :=
      if x < 0x04 then 0x965e273a_c3a4171a_5365417e_50a7f451 else
      if x < 0x08 then 0x9303e34b_ab58faac_f1459d1f_cb6bab3b else
      if x < 0x0c then 0x254c02f5_9176cc88_f66d76ad_55fa3020 else
      if x < 0x10 then 0x8fa362b5_80443526_d7cb2ac5_fcd7e54f else
      if x < 0x14 then 0xe1c0fe5d_980eea45_671bba25_495ab1de else
      if x < 0x18 then 0xc6f9d36b_a397468d_12f04c81_02752fc3 else
      if x < 0x1c then 0xda595295_eb7a6dbf_959c9215_e75f8f03 else
      if x < 0x20 then 0x44c8c98e_2969e049_d3217458_2d83bed4 else
      if x < 0x24 then 0xdd71b927_6b3e5899_78798ef4_6a89c275 else
      if x < 0x28 then 0xb43ace7d_66ac20c9_17ad88f0_b64fe1be else
      if x < 0x2c then 0x457f5362_60335197_82311ae5_184adf63 else
      if x < 0x30 then 0x942b08f9_1ca081fe_84ae6bbb_e07764b1 else
      if x < 0x34 then 0xb7f87b52_876cde94_19fd458f_58684870 else
      if x < 0x38 then 0x2aab5566_578f1fe3_e2024b72_23d373ab else
      if x < 0x3c then 0xa50837d3_9a7bc586_03c2b52f_0728ebb2 else
      if x < 0x40 then 0x5c8216ed_ba6a0302_b2a5bf23_f2872830 else
      if x < 0x44 then 0xa1e2694e_f0f207f3_92b479a7_2b1ccf8a else
      if x < 0x48 then 0x8afea6c4_1f6234d1_d5be0506_cdf4da65 else
      if x < 0x4c then 0x75ebf6a4_32e18a05_a055f3a2_9d532e34 else
      if x < 0x50 then 0x51106ebd_069f715e_aaef6040_39ec830b else
      if x < 0x54 then 0x46bde64d_ae053edd_3d06dd96_f98a213e else
      if x < 0x58 then 0xff155060_6fd40604_055dc471_b58d5491 else
      if x < 0x5c then 0x779ed967_cc434089_97e9bdd6_24fb9819 else
      if x < 0x60 then 0xdbeec879_385b19e7_888b8907_bd42e8b0 else
      if x < 0x64 then 0x00000000_c91e84f8_e90f427c_470a7ca1 else
      if x < 0x68 then 0x4e725a6c_ac70111e_48ed2b32_83868009 else
      if x < 0x6c then 0x27392d36_1ed5ae3d_5638850f_fbff0efd else
      if x < 0x70 then 0x3a2e3624_d1545b9b_21a65c68_64d90f0a else
      if x < 0x74 then 0x9e919b1b_d296eeb4_0fe75793_b1670a0c else
      if x < 0x78 then 0x161a121c_694b775a_a220dc61_4fc5c080 else
      if x < 0x7c then 0x1d171b12_43e0223c_e52aa0c0_0aba93e2 else
      if x < 0x80 then 0xc8a91e14_b9a8b62d_adc78bf2_0b0d090e else
      if x < 0x84 then 0xfd607fa3_bbdd99ee_4c0775af_8519f157 else
      if x < 0x88 then 0x347efb5b_c53b6644_bcf5725c_9f2601f7 else
      if x < 0x8c then 0x63f1e4b8_68fcedb6_dcc623cb_7629438b else
      if x < 0x90 then 0x2011c684_40229713_10856342_cadc31d7 else
      if x < 0x94 then 0x6da129c7_1132f9ae_f83dbbd2_7d244a85 else
      if x < 0x98 then 0xd0e3c177_ec52860d_f330b2dc_4b2f9e1d else
      if x < 0x9c then 0x2264e947_fa489411_99b970a9_6c16b32b else
      if x < 0xa0 then 0xef903322_d82c7d56_1a3ff0a0_c48cfca8 else
      if x < 0xa4 then 0x360bd498_fea2ca8c_c1d138d9_c74e4987 else
      if x < 0xa8 then 0xa4bfad3f_268eb7da_28de7aa5_cf81f5a6 else
      if x < 0xac then 0x62467e54_9bcc5f6a_0d927850_e49d3a2c else
      if x < 0xb0 then 0xf5afc382_5ef7392e_e8b8d890_c2138df6 else
      if x < 0xb4 then 0xb31225cf_a92dd56f_7c93d069_be805d9f else
      if x < 0xb8 then 0x7bbb3bdb_6e639ce8_a77d1810_3b99acc8 else
      if x < 0xbc then 0xa89a4f83_01b79aec_f418596e_097826cd else
      if x < 0xc0 then 0xe6e815ef_08cfbc21_7ee6ffaa_656e95e6 else
      if x < 0xc4 then 0xd67cb029_d4099fea_ce366f4a_d99be7ba else
      if x < 0xc8 then 0xc066a235_3094a5c6_31233f2a_afb2a431 else
      if x < 0xcc then 0x15d8a733_b0d090e0_a6ca82fc_37bc4e74 else
      if x < 0xd0 then 0x2ff69117_0e50cd7f_f7daec41_4a9804f1 else
      if x < 0xd4 then 0xdf0496e4_544daacc_4db0ef43_8dd64d76 else
      if x < 0xd8 then 0x7f516546_b81f2cc1_1b886a4c_e3b5d19e else
      if x < 0xdc then 0x2e410bfb_737487fa_5d358c01_04ea5e9d else
      if x < 0xe0 then 0x1347d66d_335610e9_52d2db92_5a1d67b3 else
      if x < 0xe4 then 0x893c13eb_8e14f859_7a0ca137_8c61d79a else
      if x < 0xe8 then 0x3cb1477a_ede51ce1_35c961b7_ee27a9ce else
      if x < 0xec then 0xbf37c773_79ce1418_3f73f255_59dfd29c else
      if x < 0xf0 then 0x86db4478_146f3ddf_5baafd5f_eacdf753 else
      if x < 0xf4 then 0x5f40a3c2_2c342438_3ec468b9_81f3afca else
      if x < 0xf8 then 0x41950dff_8b493c28_0c25e2bc_72c31d16 else
      if x < 0xfc then 0x90c15664_9ce4b4d8_deb30c08_7101a839 else
      0x4257b8d0_745c6c48_70b632d5_6184cb7b;
    ((row >> ((x & 3) << 5)) & 0xffff_ffff) as bv32
  }
}
