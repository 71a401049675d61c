/** The example of FIPS 180-4 for SHA-1: the digest of "abc". */
module Sha1Example {
  import opened Bytes
  import opened Sha1

  /** `w` is the schedule and `r` the working variables of the block; the steps reason about these alone. */
  ghost predicate Schedules(w: nat -> bv32, block: seq<byte>)
    requires |block| == BLOCK
  {
    forall t: nat {:trigger W(block, t)} :: w(t) == W(block, t)
  }

  ghost predicate Works(r: nat -> Words, block: seq<byte>)
    requires |block| == BLOCK
  {
    forall t: nat {:trigger Rounds(block, t, INITIAL)} :: r(t) == Rounds(block, t, INITIAL)
  }

  lemma Extends(w: nat -> bv32, block: seq<byte>, t: nat)
    requires |block| == BLOCK && Schedules(w, block) && t >= 16
    ensures w(t) == Expand(w(t - 3), w(t - 8), w(t - 14), w(t - 16))
  {
    assert w(t) == W(block, t);
  }

  function RoundWith(t: nat, s: Words, wt: bv32): Words {
    Words(Sum5(Rotl(5, s.a), Mixed(t, s.b, s.c, s.d), s.e, Constant(t), wt), s.a, Rotl(30, s.b), s.c, s.d)
  }

  lemma Goes(r: nat -> Words, w: nat -> bv32, block: seq<byte>, t: nat)
    requires |block| == BLOCK && Schedules(w, block) && Works(r, block)
    ensures r(t + 1) == RoundWith(t, r(t), w(t))
  {
    assert r(t + 1) == Rounds(block, t + 1, INITIAL) && r(t) == Rounds(block, t, INITIAL) && w(t) == W(block, t);
  }

  ghost predicate Words0(w: nat -> bv32) {
    && w(0) == 0x61626380 && w(1) == 0x00000000 && w(2) == 0x00000000 && w(3) == 0x00000000
    && w(4) == 0x00000000 && w(5) == 0x00000000 && w(6) == 0x00000000 && w(7) == 0x00000000
  }

  ghost predicate Words8(w: nat -> bv32) {
    && w(8) == 0x00000000 && w(9) == 0x00000000 && w(10) == 0x00000000 && w(11) == 0x00000000
    && w(12) == 0x00000000 && w(13) == 0x00000000 && w(14) == 0x00000000 && w(15) == 0x00000018
  }

  ghost predicate Words16(w: nat -> bv32) {
    && w(16) == 0xc2c4c700 && w(17) == 0x00000000 && w(18) == 0x00000030 && w(19) == 0x85898e01
    && w(20) == 0x00000000 && w(21) == 0x00000060 && w(22) == 0x0b131c03 && w(23) == 0x00000030
  }

  ghost predicate Words24(w: nat -> bv32) {
    && w(24) == 0x85898ec1 && w(25) == 0x16263806 && w(26) == 0x00000000 && w(27) == 0x00000180
    && w(28) == 0x2c4c700c && w(29) == 0x000000f0 && w(30) == 0x93afb507 && w(31) == 0x5898e048
  }

  ghost predicate Words32(w: nat -> bv32) {
    && w(32) == 0x8e9a9202 && w(33) == 0x00000600 && w(34) == 0xb131c0f0 && w(35) == 0x16263bc6
    && w(36) == 0x4ebed41e && w(37) == 0x626380a1 && w(38) == 0x16263806 && w(39) == 0x000018c0
  }

  ghost predicate Words40(w: nat -> bv32) {
    && w(40) == 0xd2e138c4 && w(41) == 0x00000f00 && w(42) == 0x3afb5079 && w(43) == 0x898e04e5
    && w(44) == 0xe2ba3c2b && w(45) == 0x000060c0 && w(46) == 0x053a37cd && w(47) == 0x74458547
  }

  ghost predicate Words48(w: nat -> bv32) {
    && w(48) == 0xda9415ed && w(49) == 0x26380a16 && w(50) == 0x626383a1 && w(51) == 0x4ebf54de
    && w(52) == 0x3835b44b && w(53) == 0x0000f600 && w(54) == 0x1e84c7a3 && w(55) == 0x98e04d98
  }

  ghost predicate Words56(w: nat -> bv32) {
    && w(56) == 0x651d16a0 && w(57) == 0x62658ca1 && w(58) == 0x458544d6 && w(59) == 0x44584cb7
    && w(60) == 0x7ba06619 && w(61) == 0x6380aea2 && w(62) == 0x0ae55269 && w(63) == 0x627b49a1
  }

  ghost predicate Words64(w: nat -> bv32) {
    && w(64) == 0x7cd45c9d && w(65) == 0x000f0000 && w(66) == 0xfb50753a && w(67) == 0xec6765e8
    && w(68) == 0xba3c2be2 && w(69) == 0x0060c000 && w(70) == 0x3a37cd05 && w(71) == 0x458546f4
  }

  ghost predicate Words72(w: nat -> bv32) {
    && w(72) == 0xb8599dd6 && w(73) == 0x380a1a26 && w(74) == 0x01e02203 && w(75) == 0xe7cc3456
    && w(76) == 0xe6e60b69 && w(77) == 0x00f60a00 && w(78) == 0x5795ef4f && w(79) == 0x822e0879
  }

  lemma Extends16(w: nat -> bv32, block: seq<byte>)
    requires |block| == BLOCK && Schedules(w, block) && Words0(w) && Words8(w)
    ensures Words16(w)
  {
    Extends(w, block, 16);
    assert w(16) == 0xc2c4c700;
    Extends(w, block, 17);
    assert w(17) == 0x00000000;
    Extends(w, block, 18);
    assert w(18) == 0x00000030;
    Extends(w, block, 19);
    assert w(19) == 0x85898e01;
    Extends(w, block, 20);
    assert w(20) == 0x00000000;
    Extends(w, block, 21);
    assert w(21) == 0x00000060;
    Extends(w, block, 22);
    assert w(22) == 0x0b131c03;
    Extends(w, block, 23);
  }

  lemma Extends24(w: nat -> bv32, block: seq<byte>)
    requires |block| == BLOCK && Schedules(w, block) && Words8(w) && Words16(w)
    ensures Words24(w)
  {
    Extends(w, block, 24);
    assert w(24) == 0x85898ec1;
    Extends(w, block, 25);
    assert w(25) == 0x16263806;
    Extends(w, block, 26);
    assert w(26) == 0x00000000;
    Extends(w, block, 27);
    assert w(27) == 0x00000180;
    Extends(w, block, 28);
    assert w(28) == 0x2c4c700c;
    Extends(w, block, 29);
    assert w(29) == 0x000000f0;
    Extends(w, block, 30);
    assert w(30) == 0x93afb507;
    Extends(w, block, 31);
  }

  lemma Extends32(w: nat -> bv32, block: seq<byte>)
    requires |block| == BLOCK && Schedules(w, block) && Words16(w) && Words24(w)
    ensures Words32(w)
  {
    Extends(w, block, 32);
    assert w(32) == 0x8e9a9202;
    Extends(w, block, 33);
    assert w(33) == 0x00000600;
    Extends(w, block, 34);
    assert w(34) == 0xb131c0f0;
    Extends(w, block, 35);
    assert w(35) == 0x16263bc6;
    Extends(w, block, 36);
    assert w(36) == 0x4ebed41e;
    Extends(w, block, 37);
    assert w(37) == 0x626380a1;
    Extends(w, block, 38);
    assert w(38) == 0x16263806;
    Extends(w, block, 39);
  }

  lemma Extends40(w: nat -> bv32, block: seq<byte>)
    requires |block| == BLOCK && Schedules(w, block) && Words24(w) && Words32(w)
    ensures Words40(w)
  {
    Extends(w, block, 40);
    assert w(40) == 0xd2e138c4;
    Extends(w, block, 41);
    assert w(41) == 0x00000f00;
    Extends(w, block, 42);
    assert w(42) == 0x3afb5079;
    Extends(w, block, 43);
    assert w(43) == 0x898e04e5;
    Extends(w, block, 44);
    assert w(44) == 0xe2ba3c2b;
    Extends(w, block, 45);
    assert w(45) == 0x000060c0;
    Extends(w, block, 46);
    assert w(46) == 0x053a37cd;
    Extends(w, block, 47);
  }

  lemma Extends48(w: nat -> bv32, block: seq<byte>)
    requires |block| == BLOCK && Schedules(w, block) && Words32(w) && Words40(w)
    ensures Words48(w)
  {
    Extends(w, block, 48);
    assert w(48) == 0xda9415ed;
    Extends(w, block, 49);
    assert w(49) == 0x26380a16;
    Extends(w, block, 50);
    assert w(50) == 0x626383a1;
    Extends(w, block, 51);
    assert w(51) == 0x4ebf54de;
    Extends(w, block, 52);
    assert w(52) == 0x3835b44b;
    Extends(w, block, 53);
    assert w(53) == 0x0000f600;
    Extends(w, block, 54);
    assert w(54) == 0x1e84c7a3;
    Extends(w, block, 55);
  }

  lemma Extends56(w: nat -> bv32, block: seq<byte>)
    requires |block| == BLOCK && Schedules(w, block) && Words40(w) && Words48(w)
    ensures Words56(w)
  {
    Extends(w, block, 56);
    assert w(56) == 0x651d16a0;
    Extends(w, block, 57);
    assert w(57) == 0x62658ca1;
    Extends(w, block, 58);
    assert w(58) == 0x458544d6;
    Extends(w, block, 59);
    assert w(59) == 0x44584cb7;
    Extends(w, block, 60);
    assert w(60) == 0x7ba06619;
    Extends(w, block, 61);
    assert w(61) == 0x6380aea2;
    Extends(w, block, 62);
    assert w(62) == 0x0ae55269;
    Extends(w, block, 63);
  }

  lemma Extends64(w: nat -> bv32, block: seq<byte>)
    requires |block| == BLOCK && Schedules(w, block) && Words48(w) && Words56(w)
    ensures Words64(w)
  {
    Extends(w, block, 64);
    assert w(64) == 0x7cd45c9d;
    Extends(w, block, 65);
    assert w(65) == 0x000f0000;
    Extends(w, block, 66);
    assert w(66) == 0xfb50753a;
    Extends(w, block, 67);
    assert w(67) == 0xec6765e8;
    Extends(w, block, 68);
    assert w(68) == 0xba3c2be2;
    Extends(w, block, 69);
    assert w(69) == 0x0060c000;
    Extends(w, block, 70);
    assert w(70) == 0x3a37cd05;
    Extends(w, block, 71);
  }

  lemma Extends72(w: nat -> bv32, block: seq<byte>)
    requires |block| == BLOCK && Schedules(w, block) && Words56(w) && Words64(w)
    ensures Words72(w)
  {
    Extends(w, block, 72);
    assert w(72) == 0xb8599dd6;
    Extends(w, block, 73);
    assert w(73) == 0x380a1a26;
    Extends(w, block, 74);
    assert w(74) == 0x01e02203;
    Extends(w, block, 75);
    assert w(75) == 0xe7cc3456;
    Extends(w, block, 76);
    assert w(76) == 0xe6e60b69;
    Extends(w, block, 77);
    assert w(77) == 0x00f60a00;
    Extends(w, block, 78);
    assert w(78) == 0x5795ef4f;
    Extends(w, block, 79);
  }

  lemma Rounds0(r: nat -> Words, w: nat -> bv32, block: seq<byte>)
    requires |block| == BLOCK && Schedules(w, block) && Works(r, block) && Words0(w)
    requires r(0) == Words(0x67452301, 0xefcdab89, 0x98badcfe, 0x10325476, 0xc3d2e1f0)
    ensures r(8) == Words(0x9e8c07d4, 0x993e30c1, 0x0ff1f290, 0xb3f52677, 0xf3763846)
  {
    Goes(r, w, block, 0);
    assert r(1) == Words(0x0116fc33, 0x67452301, 0x7bf36ae2, 0x98badcfe, 0x10325476);
    Goes(r, w, block, 1);
    assert r(2) == Words(0x8990536d, 0x0116fc33, 0x59d148c0, 0x7bf36ae2, 0x98badcfe);
    Goes(r, w, block, 2);
    assert r(3) == Words(0xa1390f08, 0x8990536d, 0xc045bf0c, 0x59d148c0, 0x7bf36ae2);
    Goes(r, w, block, 3);
    assert r(4) == Words(0xcdd8e11b, 0xa1390f08, 0x626414db, 0xc045bf0c, 0x59d148c0);
    Goes(r, w, block, 4);
    assert r(5) == Words(0xcfd499de, 0xcdd8e11b, 0x284e43c2, 0x626414db, 0xc045bf0c);
    Goes(r, w, block, 5);
    assert r(6) == Words(0x3fc7ca40, 0xcfd499de, 0xf3763846, 0x284e43c2, 0x626414db);
    Goes(r, w, block, 6);
    assert r(7) == Words(0x993e30c1, 0x3fc7ca40, 0xb3f52677, 0xf3763846, 0x284e43c2);
    Goes(r, w, block, 7);
  }

  lemma Rounds8(r: nat -> Words, w: nat -> bv32, block: seq<byte>)
    requires |block| == BLOCK && Schedules(w, block) && Works(r, block) && Words8(w)
    requires r(8) == Words(0x9e8c07d4, 0x993e30c1, 0x0ff1f290, 0xb3f52677, 0xf3763846)
    ensures r(16) == Words(0x20bdd62f, 0x196bee77, 0x644a3da5, 0x1181ed99, 0x18c623f9)
  {
    Goes(r, w, block, 8);
    assert r(9) == Words(0x4b6ae328, 0x9e8c07d4, 0x664f8c30, 0x0ff1f290, 0xb3f52677);
    Goes(r, w, block, 9);
    assert r(10) == Words(0x8351f929, 0x4b6ae328, 0x27a301f5, 0x664f8c30, 0x0ff1f290);
    Goes(r, w, block, 10);
    assert r(11) == Words(0xfbda9e89, 0x8351f929, 0x12dab8ca, 0x27a301f5, 0x664f8c30);
    Goes(r, w, block, 11);
    assert r(12) == Words(0x63188fe4, 0xfbda9e89, 0x60d47e4a, 0x12dab8ca, 0x27a301f5);
    Goes(r, w, block, 12);
    assert r(13) == Words(0x4607b664, 0x63188fe4, 0x7ef6a7a2, 0x60d47e4a, 0x12dab8ca);
    Goes(r, w, block, 13);
    assert r(14) == Words(0x9128f695, 0x4607b664, 0x18c623f9, 0x7ef6a7a2, 0x60d47e4a);
    Goes(r, w, block, 14);
    assert r(15) == Words(0x196bee77, 0x9128f695, 0x1181ed99, 0x18c623f9, 0x7ef6a7a2);
    Goes(r, w, block, 15);
  }

  lemma Rounds16(r: nat -> Words, w: nat -> bv32, block: seq<byte>)
    requires |block| == BLOCK && Schedules(w, block) && Works(r, block) && Words16(w)
    requires r(16) == Words(0x20bdd62f, 0x196bee77, 0x644a3da5, 0x1181ed99, 0x18c623f9)
    ensures r(24) == Words(0xd541f12d, 0x21283486, 0x0ce88eff, 0x868dec32, 0x7f67875f)
  {
    Goes(r, w, block, 16);
    assert r(17) == Words(0x4e925823, 0x20bdd62f, 0xc65afb9d, 0x644a3da5, 0x1181ed99);
    Goes(r, w, block, 17);
    assert r(18) == Words(0x82aa6728, 0x4e925823, 0xc82f758b, 0xc65afb9d, 0x644a3da5);
    Goes(r, w, block, 18);
    assert r(19) == Words(0xdc64901d, 0x82aa6728, 0xd3a49608, 0xc82f758b, 0xc65afb9d);
    Goes(r, w, block, 19);
    assert r(20) == Words(0xfd9e1d7d, 0xdc64901d, 0x20aa99ca, 0xd3a49608, 0xc82f758b);
    Goes(r, w, block, 20);
    assert r(21) == Words(0x1a37b0ca, 0xfd9e1d7d, 0x77192407, 0x20aa99ca, 0xd3a49608);
    Goes(r, w, block, 21);
    assert r(22) == Words(0x33a23bfc, 0x1a37b0ca, 0x7f67875f, 0x77192407, 0x20aa99ca);
    Goes(r, w, block, 22);
    assert r(23) == Words(0x21283486, 0x33a23bfc, 0x868dec32, 0x7f67875f, 0x77192407);
    Goes(r, w, block, 23);
  }

  lemma Rounds24(r: nat -> Words, w: nat -> bv32, block: seq<byte>)
    requires |block| == BLOCK && Schedules(w, block) && Works(r, block) && Words24(w)
    requires r(24) == Words(0xd541f12d, 0x21283486, 0x0ce88eff, 0x868dec32, 0x7f67875f)
    ensures r(32) == Words(0x3b845d33, 0x1267b407, 0x717eebd7, 0xa0dc2d4b, 0xd2aa1365)
  {
    Goes(r, w, block, 24);
    assert r(25) == Words(0xc7567dc6, 0xd541f12d, 0x884a0d21, 0x0ce88eff, 0x868dec32);
    Goes(r, w, block, 25);
    assert r(26) == Words(0x48413ba4, 0xc7567dc6, 0x75507c4b, 0x884a0d21, 0x0ce88eff);
    Goes(r, w, block, 26);
    assert r(27) == Words(0xbe35fbd5, 0x48413ba4, 0xb1d59f71, 0x75507c4b, 0x884a0d21);
    Goes(r, w, block, 27);
    assert r(28) == Words(0x4aa84d97, 0xbe35fbd5, 0x12104ee9, 0xb1d59f71, 0x75507c4b);
    Goes(r, w, block, 28);
    assert r(29) == Words(0x8370b52e, 0x4aa84d97, 0x6f8d7ef5, 0x12104ee9, 0xb1d59f71);
    Goes(r, w, block, 29);
    assert r(30) == Words(0xc5fbaf5d, 0x8370b52e, 0xd2aa1365, 0x6f8d7ef5, 0x12104ee9);
    Goes(r, w, block, 30);
    assert r(31) == Words(0x1267b407, 0xc5fbaf5d, 0xa0dc2d4b, 0xd2aa1365, 0x6f8d7ef5);
    Goes(r, w, block, 31);
  }

  lemma Rounds32(r: nat -> Words, w: nat -> bv32, block: seq<byte>)
    requires |block| == BLOCK && Schedules(w, block) && Works(r, block) && Words32(w)
    requires r(32) == Words(0x3b845d33, 0x1267b407, 0x717eebd7, 0xa0dc2d4b, 0xd2aa1365)
    ensures r(40) == Words(0x32de1cba, 0x4c986405, 0xf718e5cf, 0x03d447f6, 0xf72eec32)
  {
    Goes(r, w, block, 32);
    assert r(33) == Words(0x046faa0a, 0x3b845d33, 0xc499ed01, 0x717eebd7, 0xa0dc2d4b);
    Goes(r, w, block, 33);
    assert r(34) == Words(0x2c0ebc11, 0x046faa0a, 0xcee1174c, 0xc499ed01, 0x717eebd7);
    Goes(r, w, block, 34);
    assert r(35) == Words(0x21796ad4, 0x2c0ebc11, 0x811bea82, 0xcee1174c, 0xc499ed01);
    Goes(r, w, block, 35);
    assert r(36) == Words(0xdcbbb0cb, 0x21796ad4, 0x4b03af04, 0x811bea82, 0xcee1174c);
    Goes(r, w, block, 36);
    assert r(37) == Words(0x0f511fd8, 0xdcbbb0cb, 0x085e5ab5, 0x4b03af04, 0x811bea82);
    Goes(r, w, block, 37);
    assert r(38) == Words(0xdc63973f, 0x0f511fd8, 0xf72eec32, 0x085e5ab5, 0x4b03af04);
    Goes(r, w, block, 38);
    assert r(39) == Words(0x4c986405, 0xdc63973f, 0x03d447f6, 0xf72eec32, 0x085e5ab5);
    Goes(r, w, block, 39);
  }

  lemma Rounds40(r: nat -> Words, w: nat -> bv32, block: seq<byte>)
    requires |block| == BLOCK && Schedules(w, block) && Works(r, block) && Words40(w)
    requires r(40) == Words(0x32de1cba, 0x4c986405, 0xf718e5cf, 0x03d447f6, 0xf72eec32)
    ensures r(48) == Words(0xbead02ca, 0xa01b846c, 0x8714787c, 0x503ca382, 0xfb86c6ab)
  {
    Goes(r, w, block, 40);
    assert r(41) == Words(0xfc87dedf, 0x32de1cba, 0x53261901, 0xf718e5cf, 0x03d447f6);
    Goes(r, w, block, 41);
    assert r(42) == Words(0x970a0d5c, 0xfc87dedf, 0x8cb7872e, 0x53261901, 0xf718e5cf);
    Goes(r, w, block, 42);
    assert r(43) == Words(0x7f193dc5, 0x970a0d5c, 0xff21f7b7, 0x8cb7872e, 0x53261901);
    Goes(r, w, block, 43);
    assert r(44) == Words(0xee1b1aaf, 0x7f193dc5, 0x25c28357, 0xff21f7b7, 0x8cb7872e);
    Goes(r, w, block, 44);
    assert r(45) == Words(0x40f28e09, 0xee1b1aaf, 0x5fc64f71, 0x25c28357, 0xff21f7b7);
    Goes(r, w, block, 45);
    assert r(46) == Words(0x1c51e1f2, 0x40f28e09, 0xfb86c6ab, 0x5fc64f71, 0x25c28357);
    Goes(r, w, block, 46);
    assert r(47) == Words(0xa01b846c, 0x1c51e1f2, 0x503ca382, 0xfb86c6ab, 0x5fc64f71);
    Goes(r, w, block, 47);
  }

  lemma Rounds48(r: nat -> Words, w: nat -> bv32, block: seq<byte>)
    requires |block| == BLOCK && Schedules(w, block) && Works(r, block) && Words48(w)
    requires r(48) == Words(0xbead02ca, 0xa01b846c, 0x8714787c, 0x503ca382, 0xfb86c6ab)
    ensures r(56) == Words(0x5e6456af, 0x7b71f76d, 0x09fa7c76, 0x792410db, 0x8e11eb59)
  {
    Goes(r, w, block, 48);
    assert r(49) == Words(0xbaf39337, 0xbead02ca, 0x2806e11b, 0x8714787c, 0x503ca382);
    Goes(r, w, block, 49);
    assert r(50) == Words(0x120731c5, 0xbaf39337, 0xafab40b2, 0x2806e11b, 0x8714787c);
    Goes(r, w, block, 50);
    assert r(51) == Words(0x641db2ce, 0x120731c5, 0xeebce4cd, 0xafab40b2, 0x2806e11b);
    Goes(r, w, block, 51);
    assert r(52) == Words(0x3847ad66, 0x641db2ce, 0x4481cc71, 0xeebce4cd, 0xafab40b2);
    Goes(r, w, block, 52);
    assert r(53) == Words(0xe490436d, 0x3847ad66, 0x99076cb3, 0x4481cc71, 0xeebce4cd);
    Goes(r, w, block, 53);
    assert r(54) == Words(0x27e9f1d8, 0xe490436d, 0x8e11eb59, 0x99076cb3, 0x4481cc71);
    Goes(r, w, block, 54);
    assert r(55) == Words(0x7b71f76d, 0x27e9f1d8, 0x792410db, 0x8e11eb59, 0x99076cb3);
    Goes(r, w, block, 55);
  }

  lemma Rounds56(r: nat -> Words, w: nat -> bv32, block: seq<byte>)
    requires |block| == BLOCK && Schedules(w, block) && Works(r, block) && Words56(w)
    requires r(56) == Words(0x5e6456af, 0x7b71f76d, 0x09fa7c76, 0x792410db, 0x8e11eb59)
    ensures r(64) == Words(0x6b61c9e1, 0xb66c020b, 0x9523272c, 0xf5d5b051, 0x8fd4b796)
  {
    Goes(r, w, block, 56);
    assert r(57) == Words(0xc846093f, 0x5e6456af, 0x5edc7ddb, 0x09fa7c76, 0x792410db);
    Goes(r, w, block, 57);
    assert r(58) == Words(0xd262ff50, 0xc846093f, 0xd79915ab, 0x5edc7ddb, 0x09fa7c76);
    Goes(r, w, block, 58);
    assert r(59) == Words(0x09d785fd, 0xd262ff50, 0xf211824f, 0xd79915ab, 0x5edc7ddb);
    Goes(r, w, block, 59);
    assert r(60) == Words(0x3f52de5a, 0x09d785fd, 0x3498bfd4, 0xf211824f, 0xd79915ab);
    Goes(r, w, block, 60);
    assert r(61) == Words(0xd756c147, 0x3f52de5a, 0x4275e17f, 0x3498bfd4, 0xf211824f);
    Goes(r, w, block, 61);
    assert r(62) == Words(0x548c9cb2, 0xd756c147, 0x8fd4b796, 0x4275e17f, 0x3498bfd4);
    Goes(r, w, block, 62);
    assert r(63) == Words(0xb66c020b, 0x548c9cb2, 0xf5d5b051, 0x8fd4b796, 0x4275e17f);
    Goes(r, w, block, 63);
  }

  lemma Rounds64(r: nat -> Words, w: nat -> bv32, block: seq<byte>)
    requires |block| == BLOCK && Schedules(w, block) && Works(r, block) && Words64(w)
    requires r(64) == Words(0x6b61c9e1, 0xb66c020b, 0x9523272c, 0xf5d5b051, 0x8fd4b796)
    ensures r(72) == Words(0x39859de7, 0xc199f8c7, 0x8fc96230, 0x125c24f0, 0xde37534a)
  {
    Goes(r, w, block, 64);
    assert r(65) == Words(0x19dfa7ac, 0x6b61c9e1, 0xed9b0082, 0x9523272c, 0xf5d5b051);
    Goes(r, w, block, 65);
    assert r(66) == Words(0x101655f9, 0x19dfa7ac, 0x5ad87278, 0xed9b0082, 0x9523272c);
    Goes(r, w, block, 66);
    assert r(67) == Words(0x0c3df2b4, 0x101655f9, 0x0677e9eb, 0x5ad87278, 0xed9b0082);
    Goes(r, w, block, 67);
    assert r(68) == Words(0x78dd4d2b, 0x0c3df2b4, 0x4405957e, 0x0677e9eb, 0x5ad87278);
    Goes(r, w, block, 68);
    assert r(69) == Words(0x497093c0, 0x78dd4d2b, 0x030f7cad, 0x4405957e, 0x0677e9eb);
    Goes(r, w, block, 69);
    assert r(70) == Words(0x3f2588c2, 0x497093c0, 0xde37534a, 0x030f7cad, 0x4405957e);
    Goes(r, w, block, 70);
    assert r(71) == Words(0xc199f8c7, 0x3f2588c2, 0x125c24f0, 0xde37534a, 0x030f7cad);
    Goes(r, w, block, 71);
  }

  lemma Rounds72(r: nat -> Words, w: nat -> bv32, block: seq<byte>)
    requires |block| == BLOCK && Schedules(w, block) && Works(r, block) && Words72(w)
    requires r(72) == Words(0x39859de7, 0xc199f8c7, 0x8fc96230, 0x125c24f0, 0xde37534a)
    ensures r(80) == Words(0x42541b35, 0x5738d5e1, 0x21834873, 0x681e6df6, 0xd8fdf6ad)
  {
    Goes(r, w, block, 72);
    assert r(73) == Words(0xedb42de4, 0x39859de7, 0xf0667e31, 0x8fc96230, 0x125c24f0);
    Goes(r, w, block, 73);
    assert r(74) == Words(0x11793f6f, 0xedb42de4, 0xce616779, 0xf0667e31, 0x8fc96230);
    Goes(r, w, block, 74);
    assert r(75) == Words(0x5ee76897, 0x11793f6f, 0x3b6d0b79, 0xce616779, 0xf0667e31);
    Goes(r, w, block, 75);
    assert r(76) == Words(0x63f7dab7, 0x5ee76897, 0xc45e4fdb, 0x3b6d0b79, 0xce616779);
    Goes(r, w, block, 76);
    assert r(77) == Words(0xa079b7d9, 0x63f7dab7, 0xd7b9da25, 0xc45e4fdb, 0x3b6d0b79);
    Goes(r, w, block, 77);
    assert r(78) == Words(0x860d21cc, 0xa079b7d9, 0xd8fdf6ad, 0xd7b9da25, 0xc45e4fdb);
    Goes(r, w, block, 78);
    assert r(79) == Words(0x5738d5e1, 0x860d21cc, 0x681e6df6, 0xd8fdf6ad, 0xd7b9da25);
    Goes(r, w, block, 79);
  }

  lemma AllRounds(r: nat -> Words, w: nat -> bv32, block: seq<byte>)
    requires |block| == BLOCK && Schedules(w, block) && Works(r, block) && Words0(w) && Words8(w)
    requires r(0) == INITIAL
    ensures r(80) == Words(0x42541b35, 0x5738d5e1, 0x21834873, 0x681e6df6, 0xd8fdf6ad)
  {
    Extends16(w, block);
    Extends24(w, block);
    Extends32(w, block);
    Extends40(w, block);
    Extends48(w, block);
    Extends56(w, block);
    Extends64(w, block);
    Extends72(w, block);
    Rounds0(r, w, block);
    Rounds8(r, w, block);
    Rounds16(r, w, block);
    Rounds24(r, w, block);
    Rounds32(r, w, block);
    Rounds40(r, w, block);
    Rounds48(r, w, block);
    Rounds56(r, w, block);
    Rounds64(r, w, block);
    Rounds72(r, w, block);
  }

  /** The block that "abc" is padded to. */
  const ABC: seq<byte> := [0x61, 0x62, 0x63]

  lemma LengthOctets()
    ensures BigEndian(24, 8) == [0, 0, 0, 0, 0, 0, 0, 24]
  {
    ZeroOctets(7);
    assert BigEndian(24, 8) == BigEndian(0, 7) + [24];
  }

  lemma {:induction false} ZeroOctets(k: nat)
    ensures BigEndian(0, k) == Zeros(k)
  {
    if k > 0 {
      ZeroOctets(k - 1);
    }
  }

  /** The message, the end mark, zeros, and the length of 24 bits. */
  lemma AbcBlock(block: seq<byte>)
    requires block == Padded(ABC)
    ensures |block| == BLOCK && block[0] == 0x61 && block[1] == 0x62 && block[2] == 0x63 && block[3] == 0x80
    ensures (forall i :: 4 <= i < 63 ==> block[i] == 0) && block[63] == 24
  {
    LengthOctets();
    assert Missing(4) == 52;
  }

  lemma WordOf(block: seq<byte>, t: nat, w: nat -> bv32)
    requires |block| == BLOCK && t < 16 && Schedules(w, block)
    ensures w(t) == BlockWord(block, t)
  {
    assert w(t) == W(block, t);
  }

  lemma ZeroWord(block: seq<byte>, t: nat, w: nat -> bv32)
    requires |block| == BLOCK && t < 16 && Schedules(w, block) && forall i :: 4 * t <= i < 4 * t + 4 ==> block[i] == 0
    ensures w(t) == 0
  {
    WordOf(block, t, w);
    assert block[4 * t] == block[4 * t + 1] == block[4 * t + 2] == block[4 * t + 3] == 0;
  }

  lemma FirstWords(block: seq<byte>, w: nat -> bv32)
    requires block == Padded(ABC) && |block| == BLOCK && Schedules(w, block)
    ensures Words0(w) && Words8(w)
  {
    AbcBlock(block);
    WordOf(block, 0, w);
    WordOf(block, 15, w);
    forall t | 1 <= t < 15
      ensures w(t) == 0
    {
      ZeroWord(block, t, w);
    }
  }

  function ScheduleOf(block: seq<byte>): nat -> bv32
    requires |block| == BLOCK
  {
    (t: nat) => W(block, t)
  }

  function RoundsOf(block: seq<byte>): nat -> Words
    requires |block| == BLOCK
  {
    (t: nat) => Rounds(block, t, INITIAL)
  }

  lemma OneBlock(s: Words, block: seq<byte>)
    requires |block| == BLOCK
    ensures Fold(s, block) == AddWords(s, Rounds(block, 80, s))
  {
    assert block[..BLOCK] == block && block[BLOCK..] == [];
  }

  lemma DigestOf(r: nat -> Words, w: nat -> bv32, block: seq<byte>)
    requires |block| == BLOCK && Schedules(w, block) && Works(r, block) && Words0(w) && Words8(w)
    ensures Fold(INITIAL, block) == Words(0xa9993e36, 0x4706816a, 0xba3e2571, 0x7850c26c, 0x9cd0d89d)
  {
    assert r(0) == Rounds(block, 0, INITIAL);
    AllRounds(r, w, block);
    OneBlock(INITIAL, block);
    assert r(80) == Rounds(block, 80, INITIAL);
  }

  lemma DigestOfBlock(block: seq<byte>)
    requires block == Padded(ABC)
    ensures Fold(INITIAL, block) == Words(0xa9993e36, 0x4706816a, 0xba3e2571, 0x7850c26c, 0x9cd0d89d)
  {
    AbcBlock(block);
    FirstWords(block, ScheduleOf(block));
    DigestOf(RoundsOf(block), ScheduleOf(block), block);
  }

  /** The digest that the standard gives for "abc". */
  lemma AbcDigest()
    ensures Hash(ABC) == Words(0xa9993e36, 0x4706816a, 0xba3e2571, 0x7850c26c, 0x9cd0d89d)
  {
    DigestOfBlock(Padded(ABC));
  }
}
