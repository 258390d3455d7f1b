/** The MD2 digest of the empty message with the built-in substitution, round by round (bertos/algo/md2.c). */
module Md2Answer {
  import opened CTypes
  import opened Md2

  // ----- Sixteen bytes as one word -----

  /** Byte j of a word, byte 0 being the highest. */
  function Lane(x: bv128, j: nat): byte
    requires j < 16
  {
    match j
    case 0 => ((x >> 120) & 0xFF) as byte
    case 1 => ((x >> 112) & 0xFF) as byte
    case 2 => ((x >> 104) & 0xFF) as byte
    case 3 => ((x >> 96) & 0xFF) as byte
    case 4 => ((x >> 88) & 0xFF) as byte
    case 5 => ((x >> 80) & 0xFF) as byte
    case 6 => ((x >> 72) & 0xFF) as byte
    case 7 => ((x >> 64) & 0xFF) as byte
    case 8 => ((x >> 56) & 0xFF) as byte
    case 9 => ((x >> 48) & 0xFF) as byte
    case 10 => ((x >> 40) & 0xFF) as byte
    case 11 => ((x >> 32) & 0xFF) as byte
    case 12 => ((x >> 24) & 0xFF) as byte
    case 13 => ((x >> 16) & 0xFF) as byte
    case 14 => ((x >> 8) & 0xFF) as byte
    case _ => (x & 0xFF) as byte
  }

  function Bytes(x: bv128): (s: seq<byte>)
    ensures |s| == 16 && forall j :: 0 <= j < 16 ==> s[j] == Lane(x, j)
  {
    seq(16, j requires 0 <= j < 16 => Lane(x, j))
  }

  /** The new byte y is made of the old byte x and the new byte before it. */
  predicate Link(x: byte, y: byte, before: byte) {
    y == x ^ BuiltInPerm(before)
  }

  /** y is what one pass makes of x, entered with t. */
  predicate Follows(x: bv128, y: bv128, t: byte) {
    && Link(((x >> 120) & 0xFF) as byte, ((y >> 120) & 0xFF) as byte,
            t)
    && Link(((x >> 112) & 0xFF) as byte, ((y >> 112) & 0xFF) as byte,
            ((y >> 120) & 0xFF) as byte)
    && Link(((x >> 104) & 0xFF) as byte, ((y >> 104) & 0xFF) as byte,
            ((y >> 112) & 0xFF) as byte)
    && Link(((x >> 96) & 0xFF) as byte, ((y >> 96) & 0xFF) as byte,
            ((y >> 104) & 0xFF) as byte)
    && Link(((x >> 88) & 0xFF) as byte, ((y >> 88) & 0xFF) as byte,
            ((y >> 96) & 0xFF) as byte)
    && Link(((x >> 80) & 0xFF) as byte, ((y >> 80) & 0xFF) as byte,
            ((y >> 88) & 0xFF) as byte)
    && Link(((x >> 72) & 0xFF) as byte, ((y >> 72) & 0xFF) as byte,
            ((y >> 80) & 0xFF) as byte)
    && Link(((x >> 64) & 0xFF) as byte, ((y >> 64) & 0xFF) as byte,
            ((y >> 72) & 0xFF) as byte)
    && Link(((x >> 56) & 0xFF) as byte, ((y >> 56) & 0xFF) as byte,
            ((y >> 64) & 0xFF) as byte)
    && Link(((x >> 48) & 0xFF) as byte, ((y >> 48) & 0xFF) as byte,
            ((y >> 56) & 0xFF) as byte)
    && Link(((x >> 40) & 0xFF) as byte, ((y >> 40) & 0xFF) as byte,
            ((y >> 48) & 0xFF) as byte)
    && Link(((x >> 32) & 0xFF) as byte, ((y >> 32) & 0xFF) as byte,
            ((y >> 40) & 0xFF) as byte)
    && Link(((x >> 24) & 0xFF) as byte, ((y >> 24) & 0xFF) as byte,
            ((y >> 32) & 0xFF) as byte)
    && Link(((x >> 16) & 0xFF) as byte, ((y >> 16) & 0xFF) as byte,
            ((y >> 24) & 0xFF) as byte)
    && Link(((x >> 8) & 0xFF) as byte, ((y >> 8) & 0xFF) as byte,
            ((y >> 16) & 0xFF) as byte)
    && Link((x & 0xFF) as byte, (y & 0xFF) as byte,
            ((y >> 8) & 0xFF) as byte)
  }

  lemma FollowsAt(x: bv128, y: bv128, t: byte, j: nat)
    requires Follows(x, y, t) && j < 16
    ensures Link(Lane(x, j), Lane(y, j), if j == 0 then t else Lane(y, j - 1))
  {
    hide Link;
  }

  /** A pass is determined by its law. */
  lemma {:induction false} PassIs(perm: Perm, x: seq<byte>, y: seq<byte>, t: byte)
    requires |x| == |y| && forall j :: 0 <= j < |x| ==> y[j] == Xor8(x[j], perm(Before(y, j, t)))
    ensures Pass(perm, x, t) == y
  {
    hide Xor8;
    if x != [] {
      var x', y' := x[1..], y[1..];
      forall j | 0 <= j < |x'| ensures y'[j] == Xor8(x'[j], perm(Before(y', j, y[0]))) {
        assert y[j + 1] == Xor8(x[j + 1], perm(Before(y, j + 1, t)));
      }
      PassIs(perm, x', y', y[0]);
    }
  }

  lemma LinkIs(x: byte, y: byte, before: byte)
    requires Link(x, y, before)
    ensures y == Xor8(x, BuiltInPerm(before))
  {}

  lemma FollowsIsPass(x: bv128, y: bv128, t: byte)
    requires Follows(x, y, t)
    ensures Pass(BuiltInPerm, Bytes(x), t) == Bytes(y)
  {
    hide Follows, Lane, BuiltInPerm, Link, Xor8;
    forall j | 0 <= j < 16 ensures Bytes(y)[j] == Xor8(Bytes(x)[j], BuiltInPerm(Before(Bytes(y), j, t))) {
      FollowsAt(x, y, t, j);
      LinkIs(Lane(x, j), Lane(y, j), if j == 0 then t else Lane(y, j - 1));
    }
    PassIs(BuiltInPerm, Bytes(x), Bytes(y), t);
  }

  lemma {:induction false} PassConcat(perm: Perm, a: seq<byte>, b: seq<byte>, t: byte)
    ensures Pass(perm, a + b, t) == Pass(perm, a, t) + Pass(perm, b, Before(Pass(perm, a, t), |a|, t))
  {
    hide Xor8;
    if a == [] {
      assert a + b == b;
    } else {
      assert (a + b)[1..] == a[1..] + b;
      PassConcat(perm, a[1..], b, Xor8(a[0], perm(t)));
    }
  }

  /** Three words stand for the compute array. */
  datatype Words = Words(a: bv128, b: bv128, c: bv128)

  function Array(w: Words): (x: seq<byte>)
    ensures |x| == 48
  {
    Bytes(w.a) + Bytes(w.b) + Bytes(w.c)
  }

  function Last(x: bv128): byte {
    (x & 0xFF) as byte
  }

  /** What a round is entered with: 0, or the last byte plus the number of the round before. */
  function Entry(n: nat, last: byte): byte
    requires n < 256
  {
    if n == 0 then 0 else last + (n - 1) as byte
  }

  /** Round n. */
  predicate Step(n: nat, w: Words, v: Words)
    requires n < 256
  {
    && Follows(w.a, v.a, Entry(n, Last(w.c)))
    && Follows(w.b, v.b, Last(v.a))
    && Follows(w.c, v.c, Last(v.b))
  }

  lemma PassOfArray(w: Words, v: Words, t: byte)
    requires Follows(w.a, v.a, t) && Follows(w.b, v.b, Last(v.a)) && Follows(w.c, v.c, Last(v.b))
    ensures Pass(BuiltInPerm, Array(w), t) == Array(v)
  {
    LastIsLane(v.a);
    LastIsLane(v.b);
    hide Follows, Lane, Last, BuiltInPerm, Pass;
    FollowsIsPass(w.a, v.a, t);
    FollowsIsPass(w.b, v.b, Last(v.a));
    FollowsIsPass(w.c, v.c, Last(v.b));
    PassConcat(BuiltInPerm, Bytes(w.a), Bytes(w.b), t);
    PassConcat(BuiltInPerm, Bytes(w.a) + Bytes(w.b), Bytes(w.c), t);
  }

  lemma LastIsLane(x: bv128)
    ensures Last(x) == Lane(x, 15)
  {}

  lemma EntryIs(n: nat, last: byte)
    requires n < 256
    ensures EntryValue(n, last) == Entry(n, last)
  {}

  lemma MixStep(start: seq<byte>, n: nat, w: Words, v: Words)
    requires |start| == 48 && n < 256 && Mix(BuiltInPerm, start, n) == Array(w) && Step(n, w, v)
    ensures Mix(BuiltInPerm, start, n + 1) == Array(v)
  {
    hide Step, Mix, Array, Pass, EntryValue, Last;
    MixNext(start, n);
    ArrayLast(w);
    StepIsPass(n, w, v);
  }

  lemma MixNext(x: seq<byte>, n: nat)
    requires |x| >= 2 && n < 256
    ensures var y := Mix(BuiltInPerm, x, n);
            Mix(BuiltInPerm, x, n + 1) == Pass(BuiltInPerm, y, EntryValue(n, y[|x| - 1]))
  {
    hide Pass, EntryValue;
  }

  lemma ArrayLast(w: Words)
    ensures Array(w)[47] == Last(w.c)
  {
    LastIsLane(w.c);
    hide Lane, Last;
  }

  lemma StepIsPass(n: nat, w: Words, v: Words)
    requires n < 256 && Step(n, w, v)
    ensures Pass(BuiltInPerm, Array(w), EntryValue(n, Last(w.c))) == Array(v)
  {
    EntryIs(n, Last(w.c));
    hide Follows, Last, Pass, Entry, EntryValue, Array;
    PassOfArray(w, v, EntryValue(n, Last(w.c)));
  }


  // ----- The block of padding -----

  const ROUND0 := Words(
    0x00000000_00000000_00000000_00000000,
    0x10101010_10101010_10101010_10101010,
    0x10101010_10101010_10101010_10101010)
  const ROUND1 := Words(
    0x04fbfff6_5d88924e_27141fde_ab6b3b2f,
    0x12be1361_6f22029a_94af7276_adcca9ed,
    0x5ccdd4ff_e68945fe_23c59e6b_2b1bf718)
  const ROUND2 := Words(
    0x1255ad2a_156aea56_32220d2a_e30e8ca6,
    0x7be1ccd8_89776ae2_362260ca_9d749e96,
    0x1914cb0c_0ff38c77_4b96db1c_863a9b5f)
  const ROUND3 := Words(
    0xaeca9d92_5b7d3a3a_5e69c0fe_d0f6d11d,
    0x2334cb2b_825de240_02a85a9e_e6edd2e8,
    0xb34daf6e_604f664e_6c972b17_d64f71fc)
  const ROUND4 := Words(
    0x9d72fb6d_f775c0ee_5132f6a3_e5205d95,
    0xa19b8ca2_f0dd0a20_8effacaf_84766fda,
    0x0761d096_2509d30f_16321d4f_3cba7d2c)
  const ROUND5 := Words(
    0x9f4ce2cf_bd350a8e_06b3afc1_7246ec34,
    0xa6f28aa2_82f702aa_26f6f1ec_2530dfb4,
    0xa08d44bd_657f8551_4d5608bd_7c9f4351)
  const ROUND6 := Words(
    0xcd88702f_bff3c393_17e3caf1_3135263d,
    0x0673a397_729189ff_d00e465d_adec7e27,
    0xb42a0c54_ea67c1c6_1cfbf7b5_163a2f53)
  const ROUND7 := Words(
    0x4bdb0703_f2f559da_a3d6bf37_09808217,
    0x56669a13_03dcb458_561ba1f2_ab87b2b1,
    0x676e6351_b1b466ff_eae392fb_e957ef81)
  const ROUND8 := Words(
    0x871757c3_ef274dbe_a03ad376_b4279652,
    0x4844b1c0_d7fc71fb_a9e6380c_423d121f,
    0xb90f1988_23611926_e386b3a2_9b10c77d)
  const ROUND9 := Words(
    0x1cba5bd4_00239808_522450ee_bbe83ca7,
    0x3cb16282_fd8cf835_63e35d84_d994adc3,
    0xa4ecb816_86402d5a_b75ef86c_9a947853)
  const ROUND10 := Words(
    0x0b9922c6_5178b625_143b7fb8_25aea392,
    0x72d74238_03c16f07_4f09e82e_e60d598a,
    0xa40fc24c_9f7ebe59_fe6d54e3_ff623a3f)
  const ROUND11 := Words(
    0x2904d96f_637d661c_b95a2bb3_7c8b602e,
    0x4db31bdf_6d6dc31a_6b32de85_b89348a8,
    0x9e74f5d6_ea668795_7c48765e_b4c5b498)
  const ROUND12 := Words(
    0x5b13a855_310ed1a7_cd9e502b_77e30590,
    0x85ed571f_b334c4d1_d0caee8a_b80dbc3d,
    0x3e17a570_0a060614_634d12f0_34c2ee97)
  const ROUND13 := Words(
    0x298effa3_04f54bf4_1aba5cf6_2aab6eff,
    0x73c49c12_1d6cc55f_de619101_7f5bab56,
    0x2b1c0882_208a0695_e1925c2d_48e0f291)
  const ROUND14 := Words(
    0x91054154_8b36c6a5_bc2f5ebd_6ad32ffd,
    0x0389c997_ed2049ba_d21f4feb_a4b8359c,
    0x2615ea9a_a469cb66_d8746b16_edacc38c)
  const ROUND15 := Words(
    0xe8af2381_ec973628_6616fb42_d02b247e,
    0x90413ef4_3a4c5022_c0cbbc7e_37809117,
    0x76a8d062_e6f04b35_12dadf78_c3b110a4)
  const ROUND16 := Words(
    0x7e3cd6f4_3bb8a812_c8d4145d_58adf8b0,
    0x80e5e85e_71ef8208_32fdccc7_cb73b889,
    0x237d0066_df9e3085_4cc3c222_d10a7044)
  const ROUND17 := Words(
    0x9f025c29_a6d11363_cd103ca8_62ef2af8,
    0x4ec2b2c8_b3b6af6a_4a6d607b_94cc014e,
    0x04862129_4224b3dc_71607eb1_0280d4ab)
  const ROUND18 := Words(
    0x509ad8cf_ec70f3aa_65660516_c7135bef,
    0x9ccff806_32800b49_af0f1a5f_9a48239b,
    0x43fbde82_682e8c55_23b514ae_9d382ae3)

  lemma Round0() ensures Step(0, ROUND0, ROUND1) {}
  lemma Round1() ensures Step(1, ROUND1, ROUND2) {}
  lemma Round2() ensures Step(2, ROUND2, ROUND3) {}
  lemma Round3() ensures Step(3, ROUND3, ROUND4) {}
  lemma Round4() ensures Step(4, ROUND4, ROUND5) {}
  lemma Round5() ensures Step(5, ROUND5, ROUND6) {}
  lemma Round6() ensures Step(6, ROUND6, ROUND7) {}
  lemma Round7() ensures Step(7, ROUND7, ROUND8) {}
  lemma Round8() ensures Step(8, ROUND8, ROUND9) {}
  lemma Round9() ensures Step(9, ROUND9, ROUND10) {}
  lemma Round10() ensures Step(10, ROUND10, ROUND11) {}
  lemma Round11() ensures Step(11, ROUND11, ROUND12) {}
  lemma Round12() ensures Step(12, ROUND12, ROUND13) {}
  lemma Round13() ensures Step(13, ROUND13, ROUND14) {}
  lemma Round14() ensures Step(14, ROUND14, ROUND15) {}
  lemma Round15() ensures Step(15, ROUND15, ROUND16) {}
  lemma Round16() ensures Step(16, ROUND16, ROUND17) {}
  lemma Round17() ensures Step(17, ROUND17, ROUND18) {}

  lemma RoundUpTo6()
    ensures Mix(BuiltInPerm, Array(ROUND0), 6) == Array(ROUND6)
  {
    hide Step, Array, Mix;
    NoRounds(BuiltInPerm, Array(ROUND0));
    Round0();
    MixStep(Array(ROUND0), 0, ROUND0, ROUND1);
    Round1();
    MixStep(Array(ROUND0), 1, ROUND1, ROUND2);
    Round2();
    MixStep(Array(ROUND0), 2, ROUND2, ROUND3);
    Round3();
    MixStep(Array(ROUND0), 3, ROUND3, ROUND4);
    Round4();
    MixStep(Array(ROUND0), 4, ROUND4, ROUND5);
    Round5();
    MixStep(Array(ROUND0), 5, ROUND5, ROUND6);
  }

  lemma RoundUpTo12()
    ensures Mix(BuiltInPerm, Array(ROUND0), 12) == Array(ROUND12)
  {
    hide Step, Array, Mix;
    RoundUpTo6();
    Round6();
    MixStep(Array(ROUND0), 6, ROUND6, ROUND7);
    Round7();
    MixStep(Array(ROUND0), 7, ROUND7, ROUND8);
    Round8();
    MixStep(Array(ROUND0), 8, ROUND8, ROUND9);
    Round9();
    MixStep(Array(ROUND0), 9, ROUND9, ROUND10);
    Round10();
    MixStep(Array(ROUND0), 10, ROUND10, ROUND11);
    Round11();
    MixStep(Array(ROUND0), 11, ROUND11, ROUND12);
  }

  lemma RoundUpTo18()
    ensures Mix(BuiltInPerm, Array(ROUND0), 18) == Array(ROUND18)
  {
    hide Step, Array, Mix;
    RoundUpTo12();
    Round12();
    MixStep(Array(ROUND0), 12, ROUND12, ROUND13);
    Round13();
    MixStep(Array(ROUND0), 13, ROUND13, ROUND14);
    Round14();
    MixStep(Array(ROUND0), 14, ROUND14, ROUND15);
    Round15();
    MixStep(Array(ROUND0), 15, ROUND15, ROUND16);
    Round16();
    MixStep(Array(ROUND0), 16, ROUND16, ROUND17);
    Round17();
    MixStep(Array(ROUND0), 17, ROUND17, ROUND18);
  }

  // ----- The block of its checksum -----

  const CHECK0 := Words(
    0x509ad8cf_ec70f3aa_65660516_c7135bef,
    0x28fe0fde_87f01ce9_9167682e_6329c1bb,
    0x7864d711_6b80ef43_f4016d38_a43a9a54)
  const CHECK1 := Words(
    0x54153aa3_d9d95afe_56732cc7_3b3cae70,
    0xc83cfae2_25b6319a_158536a3_563c34bc,
    0xed280de5_bdc03b6c_f59b2a70_441171f7)
  const CHECK2 := Words(
    0x5cc8f86d_75238fe4_459d9478_15de05ce,
    0x4fd68ff8_eb6d9d22_07a9cb50_cebbfb43,
    0x90e0110e_0aa0d74c_ec3a46c1_d350e99a)
  const CHECK3 := Words(
    0x1b2ffa51_2e1c22f6_188b57b8_8b1d5d46,
    0xfee559b1_38938cab_6ca8f113_bf7d2b48,
    0xb276ac3f_2c71747b_b36343bc_46e13617)
  const CHECK4 := Words(
    0xc2750055_7c39e393_093e34bf_4d79ac77,
    0x96a0b5db_4f797d7b_3351aabb_709d9359,
    0xfb89f9ae_b328aee4_a08f59f5_dcdc0b34)
  const CHECK5 := Words(
    0xfa49e583_91b27569_c4f5ae20_c1eea342,
    0x2c71167e_dc44566e_5c8c236e_1f43ee56,
    0xee86d848_91a39ba3_950dad29_412b0030)
  const CHECK6 := Words(
    0xfd392400_9530c5e7_20795f2e_fedd4b11,
    0xc78d8254_53a5f0ee_536d8f74_289997a6,
    0x874a486a_e9ce1c0e_221f7300_45c58e67)
  const CHECK7 := Words(
    0xfcfce1df_fbcf8ffd_50e1808a_feee443a,
    0xabe61bb3_0ac57e7d_83802b7f_7e0af7ae,
    0x185c95e8_43b345e0_3e7c5615_a7b15def)
  const CHECK8 := Words(
    0x66c56fed_b717df93_411625cc_47b2d244,
    0x8042a11c_a7b1ada1_2c51709f_403e9411,
    0xf39517b8_dd5b52fe_0d88c4de_0c58db98)
  const CHECK9 := Words(
    0x58431243_ca27cb60_fd661c61_384ccbb7,
    0x58c46a64_14ae3297_dc6c713c_b5541bf6,
    0xae0a77d0_251d0a9e_76350e69_c1cf9113)
  const CHECK10 := Words(
    0xbf854c5a_9e5c16c5_734ff63c_cd8859fe,
    0x6bff9c69_d9071e8c_553e1292_fbab7016,
    0x0b29eac8_e7f99bd9_df5b19b0_d174a67a)
  const CHECK11 := Words(
    0x529b0b79_6f6e7934_7478d8da_7979a8c4,
    0xa013ed25_9f39dfe2_f7369fac_ca9b372e,
    0x342ed57a_7ba6f2df_b1888b73_f8baaad2)
  const CHECK12 := Words(
    0x6fa9f624_eccf33cd_b068d2a4_9afdd822,
    0xb285b37c_ba351500_f3ff6961_b5f17419,
    0xed62978a_7bf963da_053606f2_fe89ff24)
  const CHECK13 := Words(
    0x6d054806_6d633640_84f31b43_e71901e5,
    0x64363e1f_64863407_df91e2c3_a8cb87d5,
    0x5f6c96cf_318a63df_6b0df2f4_2914e038)
  const CHECK14 := Words(
    0x46b4efd4_8249d301_438e4c5a_b340352f,
    0x660f4434_6383d9ae_40a544e8_02417035,
    0x95ee99b6_1c2777b7_b3547d24_aabc75c2)
  const CHECK15 := Words(
    0x0c5d6790_4ad97a9d_fb71ef88_210f4fc5,
    0xe8a5e296_268ad907_6ca4a79c_0f3b5f3b,
    0xbae23b99_65512c66_8a54f222_b8226786)
  const CHECK16 := Words(
    0xb3049c9d_f2df1482_d1cadfe6_b891c40e,
    0x5fab89c3_3ba57f51_379caa34_08c9da8f,
    0xa00e8c10_4d35e6ff_7c715179_49c79bc1)
  const CHECK17 := Words(
    0x4b575c40_c68e43ff_27de74d1_03dcf99f,
    0x61d466fa_07892a19_ee93bbfb_f7c14deb,
    0x7b51d730_fd45080d_88e3347e_da73b257)
  const CHECK18 := Words(
    0x0f2d20cc_7fd8a559_6eb1a7a5_a57a65e9,
    0x0c3dc6ab_6c88b887_2281dcc6_a6a87783,
    0x9614c8f2_fbba04f6_d5516f4c_c36eddbf)

  lemma Check0() ensures Step(0, CHECK0, CHECK1) {}
  lemma Check1() ensures Step(1, CHECK1, CHECK2) {}
  lemma Check2() ensures Step(2, CHECK2, CHECK3) {}
  lemma Check3() ensures Step(3, CHECK3, CHECK4) {}
  lemma Check4() ensures Step(4, CHECK4, CHECK5) {}
  lemma Check5() ensures Step(5, CHECK5, CHECK6) {}
  lemma Check6() ensures Step(6, CHECK6, CHECK7) {}
  lemma Check7() ensures Step(7, CHECK7, CHECK8) {}
  lemma Check8() ensures Step(8, CHECK8, CHECK9) {}
  lemma Check9() ensures Step(9, CHECK9, CHECK10) {}
  lemma Check10() ensures Step(10, CHECK10, CHECK11) {}
  lemma Check11() ensures Step(11, CHECK11, CHECK12) {}
  lemma Check12() ensures Step(12, CHECK12, CHECK13) {}
  lemma Check13() ensures Step(13, CHECK13, CHECK14) {}
  lemma Check14() ensures Step(14, CHECK14, CHECK15) {}
  lemma Check15() ensures Step(15, CHECK15, CHECK16) {}
  lemma Check16() ensures Step(16, CHECK16, CHECK17) {}
  lemma Check17() ensures Step(17, CHECK17, CHECK18) {}

  lemma CheckUpTo6()
    ensures Mix(BuiltInPerm, Array(CHECK0), 6) == Array(CHECK6)
  {
    hide Step, Array, Mix;
    NoRounds(BuiltInPerm, Array(CHECK0));
    Check0();
    MixStep(Array(CHECK0), 0, CHECK0, CHECK1);
    Check1();
    MixStep(Array(CHECK0), 1, CHECK1, CHECK2);
    Check2();
    MixStep(Array(CHECK0), 2, CHECK2, CHECK3);
    Check3();
    MixStep(Array(CHECK0), 3, CHECK3, CHECK4);
    Check4();
    MixStep(Array(CHECK0), 4, CHECK4, CHECK5);
    Check5();
    MixStep(Array(CHECK0), 5, CHECK5, CHECK6);
  }

  lemma CheckUpTo12()
    ensures Mix(BuiltInPerm, Array(CHECK0), 12) == Array(CHECK12)
  {
    hide Step, Array, Mix;
    CheckUpTo6();
    Check6();
    MixStep(Array(CHECK0), 6, CHECK6, CHECK7);
    Check7();
    MixStep(Array(CHECK0), 7, CHECK7, CHECK8);
    Check8();
    MixStep(Array(CHECK0), 8, CHECK8, CHECK9);
    Check9();
    MixStep(Array(CHECK0), 9, CHECK9, CHECK10);
    Check10();
    MixStep(Array(CHECK0), 10, CHECK10, CHECK11);
    Check11();
    MixStep(Array(CHECK0), 11, CHECK11, CHECK12);
  }

  lemma CheckUpTo18()
    ensures Mix(BuiltInPerm, Array(CHECK0), 18) == Array(CHECK18)
  {
    hide Step, Array, Mix;
    CheckUpTo12();
    Check12();
    MixStep(Array(CHECK0), 12, CHECK12, CHECK13);
    Check13();
    MixStep(Array(CHECK0), 13, CHECK13, CHECK14);
    Check14();
    MixStep(Array(CHECK0), 14, CHECK14, CHECK15);
    Check15();
    MixStep(Array(CHECK0), 15, CHECK15, CHECK16);
    Check16();
    MixStep(Array(CHECK0), 16, CHECK16, CHECK17);
    Check17();
    MixStep(Array(CHECK0), 17, CHECK17, CHECK18);
  }

  // ----- The digest -----

  lemma Compressed(s: bv128, b: bv128, d: Words)
    requires Mix(BuiltInPerm, Array(Words(s, b, s ^ b)), 18) == Array(d)
    ensures Compress(BuiltInPerm, Bytes(s), Bytes(b)) == Bytes(d.a)
  {
    hide Mix;
    XorOfBytes(s, b);
    assert Array(d)[..16] == Bytes(d.a);
  }

  lemma XorOfLanes(s: bv128, b: bv128, j: nat)
    requires j < 16
    ensures Lane(s ^ b, j) == Lane(s, j) ^ Lane(b, j)
  {
    match j
    case 0 => assert (((s ^ b) >> 120) & 0xFF) as byte == (((s >> 120) & 0xFF) as byte) ^ (((b >> 120) & 0xFF) as byte);
    case 1 => assert (((s ^ b) >> 112) & 0xFF) as byte == (((s >> 112) & 0xFF) as byte) ^ (((b >> 112) & 0xFF) as byte);
    case 2 => assert (((s ^ b) >> 104) & 0xFF) as byte == (((s >> 104) & 0xFF) as byte) ^ (((b >> 104) & 0xFF) as byte);
    case 3 => assert (((s ^ b) >> 96) & 0xFF) as byte == (((s >> 96) & 0xFF) as byte) ^ (((b >> 96) & 0xFF) as byte);
    case 4 => assert (((s ^ b) >> 88) & 0xFF) as byte == (((s >> 88) & 0xFF) as byte) ^ (((b >> 88) & 0xFF) as byte);
    case 5 => assert (((s ^ b) >> 80) & 0xFF) as byte == (((s >> 80) & 0xFF) as byte) ^ (((b >> 80) & 0xFF) as byte);
    case 6 => assert (((s ^ b) >> 72) & 0xFF) as byte == (((s >> 72) & 0xFF) as byte) ^ (((b >> 72) & 0xFF) as byte);
    case 7 => assert (((s ^ b) >> 64) & 0xFF) as byte == (((s >> 64) & 0xFF) as byte) ^ (((b >> 64) & 0xFF) as byte);
    case 8 => assert (((s ^ b) >> 56) & 0xFF) as byte == (((s >> 56) & 0xFF) as byte) ^ (((b >> 56) & 0xFF) as byte);
    case 9 => assert (((s ^ b) >> 48) & 0xFF) as byte == (((s >> 48) & 0xFF) as byte) ^ (((b >> 48) & 0xFF) as byte);
    case 10 => assert (((s ^ b) >> 40) & 0xFF) as byte == (((s >> 40) & 0xFF) as byte) ^ (((b >> 40) & 0xFF) as byte);
    case 11 => assert (((s ^ b) >> 32) & 0xFF) as byte == (((s >> 32) & 0xFF) as byte) ^ (((b >> 32) & 0xFF) as byte);
    case 12 => assert (((s ^ b) >> 24) & 0xFF) as byte == (((s >> 24) & 0xFF) as byte) ^ (((b >> 24) & 0xFF) as byte);
    case 13 => assert (((s ^ b) >> 16) & 0xFF) as byte == (((s >> 16) & 0xFF) as byte) ^ (((b >> 16) & 0xFF) as byte);
    case 14 => assert (((s ^ b) >> 8) & 0xFF) as byte == (((s >> 8) & 0xFF) as byte) ^ (((b >> 8) & 0xFF) as byte);
    case _ => assert ((s ^ b) & 0xFF) as byte == ((s & 0xFF) as byte) ^ ((b & 0xFF) as byte);
  }

  lemma Xor8Is(a: byte, b: byte, c: byte)
    requires c == a ^ b
    ensures c == Xor8(a, b)
  {}

  lemma XorOfBytes(s: bv128, b: bv128)
    ensures XorBlocks(Bytes(s), Bytes(b)) == Bytes(s ^ b)
  {
    hide Lane, Xor8;
    var x := s ^ b;
    forall j | 0 <= j < 16 ensures XorBlocks(Bytes(s), Bytes(b))[j] == Bytes(x)[j] {
      XorOfLanes(s, b, j);
      Xor8Is(Lane(s, j), Lane(b, j), Lane(x, j));
    }
  }

  /** The checksum byte c is made of the message byte x and the checksum byte before it. */
  predicate CheckLink(x: byte, c: byte, before: byte) {
    c == BuiltInPerm(x ^ before)
  }

  lemma CheckLinkIs(x: byte, c: byte, before: byte)
    requires CheckLink(x, c, before)
    ensures c == Xor8(0, BuiltInPerm(Xor8(x, before)))
  {}

  /** The checksum of one block follows it by the checksum law. */
  predicate Checks(x: bv128, c: bv128) {
    && CheckLink(((x >> 120) & 0xFF) as byte, ((c >> 120) & 0xFF) as byte,
                 0)
    && CheckLink(((x >> 112) & 0xFF) as byte, ((c >> 112) & 0xFF) as byte,
                 ((c >> 120) & 0xFF) as byte)
    && CheckLink(((x >> 104) & 0xFF) as byte, ((c >> 104) & 0xFF) as byte,
                 ((c >> 112) & 0xFF) as byte)
    && CheckLink(((x >> 96) & 0xFF) as byte, ((c >> 96) & 0xFF) as byte,
                 ((c >> 104) & 0xFF) as byte)
    && CheckLink(((x >> 88) & 0xFF) as byte, ((c >> 88) & 0xFF) as byte,
                 ((c >> 96) & 0xFF) as byte)
    && CheckLink(((x >> 80) & 0xFF) as byte, ((c >> 80) & 0xFF) as byte,
                 ((c >> 88) & 0xFF) as byte)
    && CheckLink(((x >> 72) & 0xFF) as byte, ((c >> 72) & 0xFF) as byte,
                 ((c >> 80) & 0xFF) as byte)
    && CheckLink(((x >> 64) & 0xFF) as byte, ((c >> 64) & 0xFF) as byte,
                 ((c >> 72) & 0xFF) as byte)
    && CheckLink(((x >> 56) & 0xFF) as byte, ((c >> 56) & 0xFF) as byte,
                 ((c >> 64) & 0xFF) as byte)
    && CheckLink(((x >> 48) & 0xFF) as byte, ((c >> 48) & 0xFF) as byte,
                 ((c >> 56) & 0xFF) as byte)
    && CheckLink(((x >> 40) & 0xFF) as byte, ((c >> 40) & 0xFF) as byte,
                 ((c >> 48) & 0xFF) as byte)
    && CheckLink(((x >> 32) & 0xFF) as byte, ((c >> 32) & 0xFF) as byte,
                 ((c >> 40) & 0xFF) as byte)
    && CheckLink(((x >> 24) & 0xFF) as byte, ((c >> 24) & 0xFF) as byte,
                 ((c >> 32) & 0xFF) as byte)
    && CheckLink(((x >> 16) & 0xFF) as byte, ((c >> 16) & 0xFF) as byte,
                 ((c >> 24) & 0xFF) as byte)
    && CheckLink(((x >> 8) & 0xFF) as byte, ((c >> 8) & 0xFF) as byte,
                 ((c >> 16) & 0xFF) as byte)
    && CheckLink((x & 0xFF) as byte, (c & 0xFF) as byte,
                 ((c >> 8) & 0xFF) as byte)
  }

  lemma ChecksAt(x: bv128, c: bv128, j: nat)
    requires Checks(x, c) && j < 16
    ensures CheckLink(Lane(x, j), Lane(c, j), if j == 0 then 0 else Lane(c, j - 1))
  {
    hide CheckLink;
  }

  lemma ChecksumIs(x: bv128, c: bv128)
    requires Checks(x, c)
    ensures Checksum(BuiltInPerm, Bytes(x)) == Bytes(c)
  {
    hide Checks, CheckLink, Lane, Checksum, BuiltInPerm, Xor8;
    var d := Checksum(BuiltInPerm, Bytes(x));
    for j := 0 to 16
      invariant forall k :: 0 <= k < j ==> d[k] == Lane(c, k)
    {
      FirstChecksum(Bytes(x), j);
      ChecksAt(x, c, j);
      CheckLinkIs(Lane(x, j), Lane(c, j), if j == 0 then 0 else Lane(c, j - 1));
    }
  }

  lemma FirstChecksum(block: seq<byte>, j: nat)
    requires |block| == 16 && j < 16
    ensures var d := Checksum(BuiltInPerm, block);
            d[j] == Xor8(0, BuiltInPerm(Xor8(block[j], if j == 0 then 0 else d[j - 1])))
  {
    NoChecksum(BuiltInPerm);
    hide Checksum, Xor8, BuiltInPerm;
    ChecksumPart(BuiltInPerm, [], block, 16, j);
    assert [] + block[..16] == block;
  }

  const PADDING: bv128 := 0x10101010_10101010_10101010_10101010
  const CHECKSUM: bv128 := 0x28fe0fde_87f01ce9_9167682e_6329c1bb
  const MIDDLE: bv128 := 0x509ad8cf_ec70f3aa_65660516_c7135bef
  const ANSWER: bv128 := 0x0f2d20cc_7fd8a559_6eb1a7a5_a57a65e9

  lemma PaddingIs()
    ensures Padding(0) == Bytes(PADDING) && Zeros(16) == Bytes(0)
  {
    forall j: nat | j < 16 ensures Lane(PADDING, j) == 16 && Lane(0, j) == 0 {
      ConstantLanes(j);
    }
  }

  lemma ConstantLanes(j: nat)
    requires j < 16
    ensures Lane(PADDING, j) == 16 && Lane(0, j) == 0
  {}

  lemma ChecksumOfPadding()
    ensures Checks(PADDING, CHECKSUM)
  {}

  lemma TwoBlocks(a: seq<byte>, b: seq<byte>)
    requires |a| == |b| == 16
    ensures Hash(BuiltInPerm, a + b) == Compress(BuiltInPerm, Compress(BuiltInPerm, Zeros(16), a), b)
  {
    hide Compress;
    HashBlock(BuiltInPerm, [], a);
    HashBlock(BuiltInPerm, a, b);
    assert [] + a == a;
  }

  /** The digest of the empty message. */
  lemma EmptyMessage()
    ensures Digest(BuiltInPerm, []) ==
            [0x0f, 0x2d, 0x20, 0xcc, 0x7f, 0xd8, 0xa5, 0x59,
             0x6e, 0xb1, 0xa7, 0xa5, 0xa5, 0x7a, 0x65, 0xe9]
  {
    hide Compress, Hash, Checksum, Padding, Zeros, Mix, Array, Bytes, Checks;
    PaddingIs();
    ChecksumOfPadding();
    ChecksumIs(PADDING, CHECKSUM);
    RoundUpTo18();
    CheckUpTo18();
    Starts();
    Compressed(0, PADDING, ROUND18);
    Compressed(MIDDLE, CHECKSUM, CHECK18);
    TwoBlocks(Bytes(PADDING), Bytes(CHECKSUM));
    var padding := Padding(0);
    assert [] + padding == padding;
    AnswerBytes();
  }

  lemma Starts()
    ensures ROUND0 == Words(0, PADDING, 0 ^ PADDING) && ROUND18.a == MIDDLE
    ensures CHECK0 == Words(MIDDLE, CHECKSUM, MIDDLE ^ CHECKSUM) && CHECK18.a == ANSWER
  {}

  lemma AnswerBytes()
    ensures Bytes(ANSWER) ==
            [0x0f, 0x2d, 0x20, 0xcc, 0x7f, 0xd8, 0xa5, 0x59,
             0x6e, 0xb1, 0xa7, 0xa5, 0xa5, 0x7a, 0x65, 0xe9]
  {
    var s := [0x0f, 0x2d, 0x20, 0xcc, 0x7f, 0xd8, 0xa5, 0x59,
              0x6e, 0xb1, 0xa7, 0xa5, 0xa5, 0x7a, 0x65, 0xe9];
    forall j: nat | j < 16 ensures Lane(ANSWER, j) == s[j] {}
  }
}
