/**
 The example of appendix A of FIPS 180-1: the digest of "abc". Every constant, every
 round and every step of the message schedule takes part in it.
 */
module Sha1Vector {
  import opened Bytes
  import opened Sha1

  const ABC: seq<Byte> := [0x61, 0x62, 0x63]

  /** The one padded block of the example. */
  lemma PaddedBlock()
    ensures |Pad(ABC)| == 64 && Pad(ABC)[..4] == ABC + [0x80]
    ensures forall k :: 4 <= k < 63 ==> Pad(ABC)[k] == 0
    ensures Pad(ABC)[63] == 24
  {
    var len := BigEndian(24, 8);
    LengthOctets();
    hide BigEndian;
    assert Pad(ABC) == ABC + [0x80] + Zeros(52) + len;
  }

  /** Its sixteen words. */
  lemma BlockWords(block: seq<Byte>)
    requires |block| == 64 && block[..4] == ABC + [0x80] && block[63] == 24
    requires forall k :: 4 <= k < 63 ==> block[k] == 0
    ensures Words0(block) && Words8(block)
  {
    hide W;
    FirstWord(block);
    ZeroWords(block);
    LastWord(block);
  }

  lemma LengthOctets()
    ensures BigEndian(24, 8) == [0, 0, 0, 0, 0, 0, 0, 24]
  {
    assert BigEndian(0, 7) == [0, 0, 0, 0, 0, 0, 0] by {
      assert BigEndian(0, 2) == [0, 0] && BigEndian(0, 4) == [0, 0, 0, 0];
    }
  }

  lemma FirstWord(block: seq<Byte>)
    requires |block| == 64 && block[..4] == [0x61, 0x62, 0x63, 0x80]
    ensures W(block, 0) == 0x61626380
  {
    assert block[0] == block[..4][0] && block[1] == block[..4][1] && block[2] == block[..4][2] && block[3] == block[..4][3];
  }

  lemma ZeroWords(block: seq<Byte>)
    requires |block| == 64 && forall k :: 4 <= k < 63 ==> block[k] == 0
    ensures forall t :: 1 <= t < 15 ==> W(block, t) == 0
  {
    hide W;
    forall t | 1 <= t < 15
      ensures W(block, t) == 0
    {
      WStep(block, t);
      assert block[4 * t] == 0 && block[4 * t + 1] == 0 && block[4 * t + 2] == 0 && block[4 * t + 3] == 0;
    }
  }

  lemma LastWord(block: seq<Byte>)
    requires |block| == 64 && block[60] == 0 && block[61] == 0 && block[62] == 0 && block[63] == 24
    ensures W(block, 15) == 0x18
  {
    hide W;
    WStep(block, 15);
  }

  ghost predicate Words0(block: seq<Byte>)
    requires |block| == 64
  {
    && W(block, 0) == 0x61626380 && W(block, 1) == 0x00000000 && W(block, 2) == 0x00000000 && W(block, 3) == 0x00000000
    && W(block, 4) == 0x00000000 && W(block, 5) == 0x00000000 && W(block, 6) == 0x00000000 && W(block, 7) == 0x00000000
  }

  ghost predicate Words8(block: seq<Byte>)
    requires |block| == 64
  {
    && W(block, 8) == 0x00000000 && W(block, 9) == 0x00000000 && W(block, 10) == 0x00000000 && W(block, 11) == 0x00000000
    && W(block, 12) == 0x00000000 && W(block, 13) == 0x00000000 && W(block, 14) == 0x00000000 && W(block, 15) == 0x00000018
  }

  ghost predicate Words16(block: seq<Byte>)
    requires |block| == 64
  {
    && W(block, 16) == 0xc2c4c700 && W(block, 17) == 0x00000000 && W(block, 18) == 0x00000030 && W(block, 19) == 0x85898e01
    && W(block, 20) == 0x00000000 && W(block, 21) == 0x00000060 && W(block, 22) == 0x0b131c03 && W(block, 23) == 0x00000030
  }

  ghost predicate Words24(block: seq<Byte>)
    requires |block| == 64
  {
    && W(block, 24) == 0x85898ec1 && W(block, 25) == 0x16263806 && W(block, 26) == 0x00000000 && W(block, 27) == 0x00000180
    && W(block, 28) == 0x2c4c700c && W(block, 29) == 0x000000f0 && W(block, 30) == 0x93afb507 && W(block, 31) == 0x5898e048
  }

  ghost predicate Words32(block: seq<Byte>)
    requires |block| == 64
  {
    && W(block, 32) == 0x8e9a9202 && W(block, 33) == 0x00000600 && W(block, 34) == 0xb131c0f0 && W(block, 35) == 0x16263bc6
    && W(block, 36) == 0x4ebed41e && W(block, 37) == 0x626380a1 && W(block, 38) == 0x16263806 && W(block, 39) == 0x000018c0
  }

  ghost predicate Words40(block: seq<Byte>)
    requires |block| == 64
  {
    && W(block, 40) == 0xd2e138c4 && W(block, 41) == 0x00000f00 && W(block, 42) == 0x3afb5079 && W(block, 43) == 0x898e04e5
    && W(block, 44) == 0xe2ba3c2b && W(block, 45) == 0x000060c0 && W(block, 46) == 0x053a37cd && W(block, 47) == 0x74458547
  }

  ghost predicate Words48(block: seq<Byte>)
    requires |block| == 64
  {
    && W(block, 48) == 0xda9415ed && W(block, 49) == 0x26380a16 && W(block, 50) == 0x626383a1 && W(block, 51) == 0x4ebf54de
    && W(block, 52) == 0x3835b44b && W(block, 53) == 0x0000f600 && W(block, 54) == 0x1e84c7a3 && W(block, 55) == 0x98e04d98
  }

  ghost predicate Words56(block: seq<Byte>)
    requires |block| == 64
  {
    && W(block, 56) == 0x651d16a0 && W(block, 57) == 0x62658ca1 && W(block, 58) == 0x458544d6 && W(block, 59) == 0x44584cb7
    && W(block, 60) == 0x7ba06619 && W(block, 61) == 0x6380aea2 && W(block, 62) == 0x0ae55269 && W(block, 63) == 0x627b49a1
  }

  ghost predicate Words64(block: seq<Byte>)
    requires |block| == 64
  {
    && W(block, 64) == 0x7cd45c9d && W(block, 65) == 0x000f0000 && W(block, 66) == 0xfb50753a && W(block, 67) == 0xec6765e8
    && W(block, 68) == 0xba3c2be2 && W(block, 69) == 0x0060c000 && W(block, 70) == 0x3a37cd05 && W(block, 71) == 0x458546f4
  }

  ghost predicate Words72(block: seq<Byte>)
    requires |block| == 64
  {
    && W(block, 72) == 0xb8599dd6 && W(block, 73) == 0x380a1a26 && W(block, 74) == 0x01e02203 && W(block, 75) == 0xe7cc3456
    && W(block, 76) == 0xe6e60b69 && W(block, 77) == 0x00f60a00 && W(block, 78) == 0x5795ef4f && W(block, 79) == 0x822e0879
  }

  lemma Schedule16(block: seq<Byte>)
    requires |block| == 64 && Words0(block) && Words8(block)
    ensures Words16(block)
  {
    hide W;
    WStep(block, 16);
    assert W(block, 16) == 0xc2c4c700;
    WStep(block, 17);
    assert W(block, 17) == 0x00000000;
    WStep(block, 18);
    assert W(block, 18) == 0x00000030;
    WStep(block, 19);
    assert W(block, 19) == 0x85898e01;
    WStep(block, 20);
    assert W(block, 20) == 0x00000000;
    WStep(block, 21);
    assert W(block, 21) == 0x00000060;
    WStep(block, 22);
    assert W(block, 22) == 0x0b131c03;
    WStep(block, 23);
    assert W(block, 23) == 0x00000030;
  }

  lemma Schedule24(block: seq<Byte>)
    requires |block| == 64 && Words8(block) && Words16(block)
    ensures Words24(block)
  {
    hide W;
    WStep(block, 24);
    assert W(block, 24) == 0x85898ec1;
    WStep(block, 25);
    assert W(block, 25) == 0x16263806;
    WStep(block, 26);
    assert W(block, 26) == 0x00000000;
    WStep(block, 27);
    assert W(block, 27) == 0x00000180;
    WStep(block, 28);
    assert W(block, 28) == 0x2c4c700c;
    WStep(block, 29);
    assert W(block, 29) == 0x000000f0;
    WStep(block, 30);
    assert W(block, 30) == 0x93afb507;
    WStep(block, 31);
    assert W(block, 31) == 0x5898e048;
  }

  lemma Schedule32(block: seq<Byte>)
    requires |block| == 64 && Words16(block) && Words24(block)
    ensures Words32(block)
  {
    hide W;
    WStep(block, 32);
    assert W(block, 32) == 0x8e9a9202;
    WStep(block, 33);
    assert W(block, 33) == 0x00000600;
    WStep(block, 34);
    assert W(block, 34) == 0xb131c0f0;
    WStep(block, 35);
    assert W(block, 35) == 0x16263bc6;
    WStep(block, 36);
    assert W(block, 36) == 0x4ebed41e;
    WStep(block, 37);
    assert W(block, 37) == 0x626380a1;
    WStep(block, 38);
    assert W(block, 38) == 0x16263806;
    WStep(block, 39);
    assert W(block, 39) == 0x000018c0;
  }

  lemma Schedule40(block: seq<Byte>)
    requires |block| == 64 && Words24(block) && Words32(block)
    ensures Words40(block)
  {
    hide W;
    WStep(block, 40);
    assert W(block, 40) == 0xd2e138c4;
    WStep(block, 41);
    assert W(block, 41) == 0x00000f00;
    WStep(block, 42);
    assert W(block, 42) == 0x3afb5079;
    WStep(block, 43);
    assert W(block, 43) == 0x898e04e5;
    WStep(block, 44);
    assert W(block, 44) == 0xe2ba3c2b;
    WStep(block, 45);
    assert W(block, 45) == 0x000060c0;
    WStep(block, 46);
    assert W(block, 46) == 0x053a37cd;
    WStep(block, 47);
    assert W(block, 47) == 0x74458547;
  }

  lemma Schedule48(block: seq<Byte>)
    requires |block| == 64 && Words32(block) && Words40(block)
    ensures Words48(block)
  {
    hide W;
    WStep(block, 48);
    assert W(block, 48) == 0xda9415ed;
    WStep(block, 49);
    assert W(block, 49) == 0x26380a16;
    WStep(block, 50);
    assert W(block, 50) == 0x626383a1;
    WStep(block, 51);
    assert W(block, 51) == 0x4ebf54de;
    WStep(block, 52);
    assert W(block, 52) == 0x3835b44b;
    WStep(block, 53);
    assert W(block, 53) == 0x0000f600;
    WStep(block, 54);
    assert W(block, 54) == 0x1e84c7a3;
    WStep(block, 55);
    assert W(block, 55) == 0x98e04d98;
  }

  lemma Schedule56(block: seq<Byte>)
    requires |block| == 64 && Words40(block) && Words48(block)
    ensures Words56(block)
  {
    hide W;
    WStep(block, 56);
    assert W(block, 56) == 0x651d16a0;
    WStep(block, 57);
    assert W(block, 57) == 0x62658ca1;
    WStep(block, 58);
    assert W(block, 58) == 0x458544d6;
    WStep(block, 59);
    assert W(block, 59) == 0x44584cb7;
    WStep(block, 60);
    assert W(block, 60) == 0x7ba06619;
    WStep(block, 61);
    assert W(block, 61) == 0x6380aea2;
    WStep(block, 62);
    assert W(block, 62) == 0x0ae55269;
    WStep(block, 63);
    assert W(block, 63) == 0x627b49a1;
  }

  lemma Schedule64(block: seq<Byte>)
    requires |block| == 64 && Words48(block) && Words56(block)
    ensures Words64(block)
  {
    hide W;
    WStep(block, 64);
    assert W(block, 64) == 0x7cd45c9d;
    WStep(block, 65);
    assert W(block, 65) == 0x000f0000;
    WStep(block, 66);
    assert W(block, 66) == 0xfb50753a;
    WStep(block, 67);
    assert W(block, 67) == 0xec6765e8;
    WStep(block, 68);
    assert W(block, 68) == 0xba3c2be2;
    WStep(block, 69);
    assert W(block, 69) == 0x0060c000;
    WStep(block, 70);
    assert W(block, 70) == 0x3a37cd05;
    WStep(block, 71);
    assert W(block, 71) == 0x458546f4;
  }

  lemma Schedule72(block: seq<Byte>)
    requires |block| == 64 && Words56(block) && Words64(block)
    ensures Words72(block)
  {
    hide W;
    WStep(block, 72);
    assert W(block, 72) == 0xb8599dd6;
    WStep(block, 73);
    assert W(block, 73) == 0x380a1a26;
    WStep(block, 74);
    assert W(block, 74) == 0x01e02203;
    WStep(block, 75);
    assert W(block, 75) == 0xe7cc3456;
    WStep(block, 76);
    assert W(block, 76) == 0xe6e60b69;
    WStep(block, 77);
    assert W(block, 77) == 0x00f60a00;
    WStep(block, 78);
    assert W(block, 78) == 0x5795ef4f;
    WStep(block, 79);
    assert W(block, 79) == 0x822e0879;
  }

  lemma Rounds0(block: seq<Byte>)
    requires |block| == 64 && Words0(block) && Rounds(block, H0, 0) == Digest(0x67452301, 0xefcdab89, 0x98badcfe, 0x10325476, 0xc3d2e1f0)
    ensures Rounds(block, H0, 8) == Digest(0x9e8c07d4, 0x993e30c1, 0x0ff1f290, 0xb3f52677, 0xf3763846)
  {
    hide W, Rounds;
    RoundsStep(block, H0, 0);
    assert Rounds(block, H0, 1) == Digest(0x0116fc33, 0x67452301, 0x7bf36ae2, 0x98badcfe, 0x10325476);
    RoundsStep(block, H0, 1);
    assert Rounds(block, H0, 2) == Digest(0x8990536d, 0x0116fc33, 0x59d148c0, 0x7bf36ae2, 0x98badcfe);
    RoundsStep(block, H0, 2);
    assert Rounds(block, H0, 3) == Digest(0xa1390f08, 0x8990536d, 0xc045bf0c, 0x59d148c0, 0x7bf36ae2);
    RoundsStep(block, H0, 3);
    assert Rounds(block, H0, 4) == Digest(0xcdd8e11b, 0xa1390f08, 0x626414db, 0xc045bf0c, 0x59d148c0);
    RoundsStep(block, H0, 4);
    assert Rounds(block, H0, 5) == Digest(0xcfd499de, 0xcdd8e11b, 0x284e43c2, 0x626414db, 0xc045bf0c);
    RoundsStep(block, H0, 5);
    assert Rounds(block, H0, 6) == Digest(0x3fc7ca40, 0xcfd499de, 0xf3763846, 0x284e43c2, 0x626414db);
    RoundsStep(block, H0, 6);
    assert Rounds(block, H0, 7) == Digest(0x993e30c1, 0x3fc7ca40, 0xb3f52677, 0xf3763846, 0x284e43c2);
    RoundsStep(block, H0, 7);
    assert Rounds(block, H0, 8) == Digest(0x9e8c07d4, 0x993e30c1, 0x0ff1f290, 0xb3f52677, 0xf3763846);
  }

  lemma Rounds8(block: seq<Byte>)
    requires |block| == 64 && Words8(block) && Rounds(block, H0, 8) == Digest(0x9e8c07d4, 0x993e30c1, 0x0ff1f290, 0xb3f52677, 0xf3763846)
    ensures Rounds(block, H0, 16) == Digest(0x20bdd62f, 0x196bee77, 0x644a3da5, 0x1181ed99, 0x18c623f9)
  {
    hide W, Rounds;
    RoundsStep(block, H0, 8);
    assert Rounds(block, H0, 9) == Digest(0x4b6ae328, 0x9e8c07d4, 0x664f8c30, 0x0ff1f290, 0xb3f52677);
    RoundsStep(block, H0, 9);
    assert Rounds(block, H0, 10) == Digest(0x8351f929, 0x4b6ae328, 0x27a301f5, 0x664f8c30, 0x0ff1f290);
    RoundsStep(block, H0, 10);
    assert Rounds(block, H0, 11) == Digest(0xfbda9e89, 0x8351f929, 0x12dab8ca, 0x27a301f5, 0x664f8c30);
    RoundsStep(block, H0, 11);
    assert Rounds(block, H0, 12) == Digest(0x63188fe4, 0xfbda9e89, 0x60d47e4a, 0x12dab8ca, 0x27a301f5);
    RoundsStep(block, H0, 12);
    assert Rounds(block, H0, 13) == Digest(0x4607b664, 0x63188fe4, 0x7ef6a7a2, 0x60d47e4a, 0x12dab8ca);
    RoundsStep(block, H0, 13);
    assert Rounds(block, H0, 14) == Digest(0x9128f695, 0x4607b664, 0x18c623f9, 0x7ef6a7a2, 0x60d47e4a);
    RoundsStep(block, H0, 14);
    assert Rounds(block, H0, 15) == Digest(0x196bee77, 0x9128f695, 0x1181ed99, 0x18c623f9, 0x7ef6a7a2);
    RoundsStep(block, H0, 15);
    assert Rounds(block, H0, 16) == Digest(0x20bdd62f, 0x196bee77, 0x644a3da5, 0x1181ed99, 0x18c623f9);
  }

  lemma Rounds16(block: seq<Byte>)
    requires |block| == 64 && Words16(block) && Rounds(block, H0, 16) == Digest(0x20bdd62f, 0x196bee77, 0x644a3da5, 0x1181ed99, 0x18c623f9)
    ensures Rounds(block, H0, 24) == Digest(0xd541f12d, 0x21283486, 0x0ce88eff, 0x868dec32, 0x7f67875f)
  {
    hide W, Rounds;
    RoundsStep(block, H0, 16);
    assert Rounds(block, H0, 17) == Digest(0x4e925823, 0x20bdd62f, 0xc65afb9d, 0x644a3da5, 0x1181ed99);
    RoundsStep(block, H0, 17);
    assert Rounds(block, H0, 18) == Digest(0x82aa6728, 0x4e925823, 0xc82f758b, 0xc65afb9d, 0x644a3da5);
    RoundsStep(block, H0, 18);
    assert Rounds(block, H0, 19) == Digest(0xdc64901d, 0x82aa6728, 0xd3a49608, 0xc82f758b, 0xc65afb9d);
    RoundsStep(block, H0, 19);
    assert Rounds(block, H0, 20) == Digest(0xfd9e1d7d, 0xdc64901d, 0x20aa99ca, 0xd3a49608, 0xc82f758b);
    RoundsStep(block, H0, 20);
    assert Rounds(block, H0, 21) == Digest(0x1a37b0ca, 0xfd9e1d7d, 0x77192407, 0x20aa99ca, 0xd3a49608);
    RoundsStep(block, H0, 21);
    assert Rounds(block, H0, 22) == Digest(0x33a23bfc, 0x1a37b0ca, 0x7f67875f, 0x77192407, 0x20aa99ca);
    RoundsStep(block, H0, 22);
    assert Rounds(block, H0, 23) == Digest(0x21283486, 0x33a23bfc, 0x868dec32, 0x7f67875f, 0x77192407);
    RoundsStep(block, H0, 23);
    assert Rounds(block, H0, 24) == Digest(0xd541f12d, 0x21283486, 0x0ce88eff, 0x868dec32, 0x7f67875f);
  }

  lemma Rounds24(block: seq<Byte>)
    requires |block| == 64 && Words24(block) && Rounds(block, H0, 24) == Digest(0xd541f12d, 0x21283486, 0x0ce88eff, 0x868dec32, 0x7f67875f)
    ensures Rounds(block, H0, 32) == Digest(0x3b845d33, 0x1267b407, 0x717eebd7, 0xa0dc2d4b, 0xd2aa1365)
  {
    hide W, Rounds;
    RoundsStep(block, H0, 24);
    assert Rounds(block, H0, 25) == Digest(0xc7567dc6, 0xd541f12d, 0x884a0d21, 0x0ce88eff, 0x868dec32);
    RoundsStep(block, H0, 25);
    assert Rounds(block, H0, 26) == Digest(0x48413ba4, 0xc7567dc6, 0x75507c4b, 0x884a0d21, 0x0ce88eff);
    RoundsStep(block, H0, 26);
    assert Rounds(block, H0, 27) == Digest(0xbe35fbd5, 0x48413ba4, 0xb1d59f71, 0x75507c4b, 0x884a0d21);
    RoundsStep(block, H0, 27);
    assert Rounds(block, H0, 28) == Digest(0x4aa84d97, 0xbe35fbd5, 0x12104ee9, 0xb1d59f71, 0x75507c4b);
    RoundsStep(block, H0, 28);
    assert Rounds(block, H0, 29) == Digest(0x8370b52e, 0x4aa84d97, 0x6f8d7ef5, 0x12104ee9, 0xb1d59f71);
    RoundsStep(block, H0, 29);
    assert Rounds(block, H0, 30) == Digest(0xc5fbaf5d, 0x8370b52e, 0xd2aa1365, 0x6f8d7ef5, 0x12104ee9);
    RoundsStep(block, H0, 30);
    assert Rounds(block, H0, 31) == Digest(0x1267b407, 0xc5fbaf5d, 0xa0dc2d4b, 0xd2aa1365, 0x6f8d7ef5);
    RoundsStep(block, H0, 31);
    assert Rounds(block, H0, 32) == Digest(0x3b845d33, 0x1267b407, 0x717eebd7, 0xa0dc2d4b, 0xd2aa1365);
  }

  lemma Rounds32(block: seq<Byte>)
    requires |block| == 64 && Words32(block) && Rounds(block, H0, 32) == Digest(0x3b845d33, 0x1267b407, 0x717eebd7, 0xa0dc2d4b, 0xd2aa1365)
    ensures Rounds(block, H0, 40) == Digest(0x32de1cba, 0x4c986405, 0xf718e5cf, 0x03d447f6, 0xf72eec32)
  {
    hide W, Rounds;
    RoundsStep(block, H0, 32);
    assert Rounds(block, H0, 33) == Digest(0x046faa0a, 0x3b845d33, 0xc499ed01, 0x717eebd7, 0xa0dc2d4b);
    RoundsStep(block, H0, 33);
    assert Rounds(block, H0, 34) == Digest(0x2c0ebc11, 0x046faa0a, 0xcee1174c, 0xc499ed01, 0x717eebd7);
    RoundsStep(block, H0, 34);
    assert Rounds(block, H0, 35) == Digest(0x21796ad4, 0x2c0ebc11, 0x811bea82, 0xcee1174c, 0xc499ed01);
    RoundsStep(block, H0, 35);
    assert Rounds(block, H0, 36) == Digest(0xdcbbb0cb, 0x21796ad4, 0x4b03af04, 0x811bea82, 0xcee1174c);
    RoundsStep(block, H0, 36);
    assert Rounds(block, H0, 37) == Digest(0x0f511fd8, 0xdcbbb0cb, 0x085e5ab5, 0x4b03af04, 0x811bea82);
    RoundsStep(block, H0, 37);
    assert Rounds(block, H0, 38) == Digest(0xdc63973f, 0x0f511fd8, 0xf72eec32, 0x085e5ab5, 0x4b03af04);
    RoundsStep(block, H0, 38);
    assert Rounds(block, H0, 39) == Digest(0x4c986405, 0xdc63973f, 0x03d447f6, 0xf72eec32, 0x085e5ab5);
    RoundsStep(block, H0, 39);
    assert Rounds(block, H0, 40) == Digest(0x32de1cba, 0x4c986405, 0xf718e5cf, 0x03d447f6, 0xf72eec32);
  }

  lemma Rounds40(block: seq<Byte>)
    requires |block| == 64 && Words40(block) && Rounds(block, H0, 40) == Digest(0x32de1cba, 0x4c986405, 0xf718e5cf, 0x03d447f6, 0xf72eec32)
    ensures Rounds(block, H0, 48) == Digest(0xbead02ca, 0xa01b846c, 0x8714787c, 0x503ca382, 0xfb86c6ab)
  {
    hide W, Rounds;
    RoundsStep(block, H0, 40);
    assert Rounds(block, H0, 41) == Digest(0xfc87dedf, 0x32de1cba, 0x53261901, 0xf718e5cf, 0x03d447f6);
    RoundsStep(block, H0, 41);
    assert Rounds(block, H0, 42) == Digest(0x970a0d5c, 0xfc87dedf, 0x8cb7872e, 0x53261901, 0xf718e5cf);
    RoundsStep(block, H0, 42);
    assert Rounds(block, H0, 43) == Digest(0x7f193dc5, 0x970a0d5c, 0xff21f7b7, 0x8cb7872e, 0x53261901);
    RoundsStep(block, H0, 43);
    assert Rounds(block, H0, 44) == Digest(0xee1b1aaf, 0x7f193dc5, 0x25c28357, 0xff21f7b7, 0x8cb7872e);
    RoundsStep(block, H0, 44);
    assert Rounds(block, H0, 45) == Digest(0x40f28e09, 0xee1b1aaf, 0x5fc64f71, 0x25c28357, 0xff21f7b7);
    RoundsStep(block, H0, 45);
    assert Rounds(block, H0, 46) == Digest(0x1c51e1f2, 0x40f28e09, 0xfb86c6ab, 0x5fc64f71, 0x25c28357);
    RoundsStep(block, H0, 46);
    assert Rounds(block, H0, 47) == Digest(0xa01b846c, 0x1c51e1f2, 0x503ca382, 0xfb86c6ab, 0x5fc64f71);
    RoundsStep(block, H0, 47);
    assert Rounds(block, H0, 48) == Digest(0xbead02ca, 0xa01b846c, 0x8714787c, 0x503ca382, 0xfb86c6ab);
  }

  lemma Rounds48(block: seq<Byte>)
    requires |block| == 64 && Words48(block) && Rounds(block, H0, 48) == Digest(0xbead02ca, 0xa01b846c, 0x8714787c, 0x503ca382, 0xfb86c6ab)
    ensures Rounds(block, H0, 56) == Digest(0x5e6456af, 0x7b71f76d, 0x09fa7c76, 0x792410db, 0x8e11eb59)
  {
    hide W, Rounds;
    RoundsStep(block, H0, 48);
    assert Rounds(block, H0, 49) == Digest(0xbaf39337, 0xbead02ca, 0x2806e11b, 0x8714787c, 0x503ca382);
    RoundsStep(block, H0, 49);
    assert Rounds(block, H0, 50) == Digest(0x120731c5, 0xbaf39337, 0xafab40b2, 0x2806e11b, 0x8714787c);
    RoundsStep(block, H0, 50);
    assert Rounds(block, H0, 51) == Digest(0x641db2ce, 0x120731c5, 0xeebce4cd, 0xafab40b2, 0x2806e11b);
    RoundsStep(block, H0, 51);
    assert Rounds(block, H0, 52) == Digest(0x3847ad66, 0x641db2ce, 0x4481cc71, 0xeebce4cd, 0xafab40b2);
    RoundsStep(block, H0, 52);
    assert Rounds(block, H0, 53) == Digest(0xe490436d, 0x3847ad66, 0x99076cb3, 0x4481cc71, 0xeebce4cd);
    RoundsStep(block, H0, 53);
    assert Rounds(block, H0, 54) == Digest(0x27e9f1d8, 0xe490436d, 0x8e11eb59, 0x99076cb3, 0x4481cc71);
    RoundsStep(block, H0, 54);
    assert Rounds(block, H0, 55) == Digest(0x7b71f76d, 0x27e9f1d8, 0x792410db, 0x8e11eb59, 0x99076cb3);
    RoundsStep(block, H0, 55);
    assert Rounds(block, H0, 56) == Digest(0x5e6456af, 0x7b71f76d, 0x09fa7c76, 0x792410db, 0x8e11eb59);
  }

  lemma Rounds56(block: seq<Byte>)
    requires |block| == 64 && Words56(block) && Rounds(block, H0, 56) == Digest(0x5e6456af, 0x7b71f76d, 0x09fa7c76, 0x792410db, 0x8e11eb59)
    ensures Rounds(block, H0, 64) == Digest(0x6b61c9e1, 0xb66c020b, 0x9523272c, 0xf5d5b051, 0x8fd4b796)
  {
    hide W, Rounds;
    RoundsStep(block, H0, 56);
    assert Rounds(block, H0, 57) == Digest(0xc846093f, 0x5e6456af, 0x5edc7ddb, 0x09fa7c76, 0x792410db);
    RoundsStep(block, H0, 57);
    assert Rounds(block, H0, 58) == Digest(0xd262ff50, 0xc846093f, 0xd79915ab, 0x5edc7ddb, 0x09fa7c76);
    RoundsStep(block, H0, 58);
    assert Rounds(block, H0, 59) == Digest(0x09d785fd, 0xd262ff50, 0xf211824f, 0xd79915ab, 0x5edc7ddb);
    RoundsStep(block, H0, 59);
    assert Rounds(block, H0, 60) == Digest(0x3f52de5a, 0x09d785fd, 0x3498bfd4, 0xf211824f, 0xd79915ab);
    RoundsStep(block, H0, 60);
    assert Rounds(block, H0, 61) == Digest(0xd756c147, 0x3f52de5a, 0x4275e17f, 0x3498bfd4, 0xf211824f);
    RoundsStep(block, H0, 61);
    assert Rounds(block, H0, 62) == Digest(0x548c9cb2, 0xd756c147, 0x8fd4b796, 0x4275e17f, 0x3498bfd4);
    RoundsStep(block, H0, 62);
    assert Rounds(block, H0, 63) == Digest(0xb66c020b, 0x548c9cb2, 0xf5d5b051, 0x8fd4b796, 0x4275e17f);
    RoundsStep(block, H0, 63);
    assert Rounds(block, H0, 64) == Digest(0x6b61c9e1, 0xb66c020b, 0x9523272c, 0xf5d5b051, 0x8fd4b796);
  }

  lemma Rounds64(block: seq<Byte>)
    requires |block| == 64 && Words64(block) && Rounds(block, H0, 64) == Digest(0x6b61c9e1, 0xb66c020b, 0x9523272c, 0xf5d5b051, 0x8fd4b796)
    ensures Rounds(block, H0, 72) == Digest(0x39859de7, 0xc199f8c7, 0x8fc96230, 0x125c24f0, 0xde37534a)
  {
    hide W, Rounds;
    RoundsStep(block, H0, 64);
    assert Rounds(block, H0, 65) == Digest(0x19dfa7ac, 0x6b61c9e1, 0xed9b0082, 0x9523272c, 0xf5d5b051);
    RoundsStep(block, H0, 65);
    assert Rounds(block, H0, 66) == Digest(0x101655f9, 0x19dfa7ac, 0x5ad87278, 0xed9b0082, 0x9523272c);
    RoundsStep(block, H0, 66);
    assert Rounds(block, H0, 67) == Digest(0x0c3df2b4, 0x101655f9, 0x0677e9eb, 0x5ad87278, 0xed9b0082);
    RoundsStep(block, H0, 67);
    assert Rounds(block, H0, 68) == Digest(0x78dd4d2b, 0x0c3df2b4, 0x4405957e, 0x0677e9eb, 0x5ad87278);
    RoundsStep(block, H0, 68);
    assert Rounds(block, H0, 69) == Digest(0x497093c0, 0x78dd4d2b, 0x030f7cad, 0x4405957e, 0x0677e9eb);
    RoundsStep(block, H0, 69);
    assert Rounds(block, H0, 70) == Digest(0x3f2588c2, 0x497093c0, 0xde37534a, 0x030f7cad, 0x4405957e);
    RoundsStep(block, H0, 70);
    assert Rounds(block, H0, 71) == Digest(0xc199f8c7, 0x3f2588c2, 0x125c24f0, 0xde37534a, 0x030f7cad);
    RoundsStep(block, H0, 71);
    assert Rounds(block, H0, 72) == Digest(0x39859de7, 0xc199f8c7, 0x8fc96230, 0x125c24f0, 0xde37534a);
  }

  lemma Rounds72(block: seq<Byte>)
    requires |block| == 64 && Words72(block) && Rounds(block, H0, 72) == Digest(0x39859de7, 0xc199f8c7, 0x8fc96230, 0x125c24f0, 0xde37534a)
    ensures Rounds(block, H0, 80) == Digest(0x42541b35, 0x5738d5e1, 0x21834873, 0x681e6df6, 0xd8fdf6ad)
  {
    hide W, Rounds;
    RoundsStep(block, H0, 72);
    assert Rounds(block, H0, 73) == Digest(0xedb42de4, 0x39859de7, 0xf0667e31, 0x8fc96230, 0x125c24f0);
    RoundsStep(block, H0, 73);
    assert Rounds(block, H0, 74) == Digest(0x11793f6f, 0xedb42de4, 0xce616779, 0xf0667e31, 0x8fc96230);
    RoundsStep(block, H0, 74);
    assert Rounds(block, H0, 75) == Digest(0x5ee76897, 0x11793f6f, 0x3b6d0b79, 0xce616779, 0xf0667e31);
    RoundsStep(block, H0, 75);
    assert Rounds(block, H0, 76) == Digest(0x63f7dab7, 0x5ee76897, 0xc45e4fdb, 0x3b6d0b79, 0xce616779);
    RoundsStep(block, H0, 76);
    assert Rounds(block, H0, 77) == Digest(0xa079b7d9, 0x63f7dab7, 0xd7b9da25, 0xc45e4fdb, 0x3b6d0b79);
    RoundsStep(block, H0, 77);
    assert Rounds(block, H0, 78) == Digest(0x860d21cc, 0xa079b7d9, 0xd8fdf6ad, 0xd7b9da25, 0xc45e4fdb);
    RoundsStep(block, H0, 78);
    assert Rounds(block, H0, 79) == Digest(0x5738d5e1, 0x860d21cc, 0x681e6df6, 0xd8fdf6ad, 0xd7b9da25);
    RoundsStep(block, H0, 79);
    assert Rounds(block, H0, 80) == Digest(0x42541b35, 0x5738d5e1, 0x21834873, 0x681e6df6, 0xd8fdf6ad);
  }

  /** The digest of "abc". */
  lemma AbcDigest()
    ensures Hash(ABC) == Digest(0xa9993e36, 0x4706816a, 0xba3e2571, 0x7850c26c, 0x9cd0d89d)
  {
    FirstRegisters();
    hide *;
    var block := Pad(ABC);
    PaddedBlock();
    BlockWords(block);
    Schedule16(block);
    Schedule24(block);
    Schedule32(block);
    Schedule40(block);
    Schedule48(block);
    Schedule56(block);
    Schedule64(block);
    Schedule72(block);
    RoundsStep(block, H0, 0);
    Rounds0(block);
    Rounds8(block);
    Rounds16(block);
    Rounds24(block);
    Rounds32(block);
    Rounds40(block);
    Rounds48(block);
    Rounds56(block);
    Rounds64(block);
    Rounds72(block);
    CompressDef(H0, block);
    HashOneBlock(ABC);
    FinalAdd();
  }

  lemma FirstRegisters()
    ensures H0 == Digest(0x67452301, 0xefcdab89, 0x98badcfe, 0x10325476, 0xc3d2e1f0)
  {
  }

  lemma HashOneBlock(msg: seq<Byte>)
    requires |Pad(msg)| == 64
    ensures Hash(msg) == Compress(H0, Pad(msg))
  {
    hide Pad, Compress;
    FoldOne(H0, Pad(msg));
  }

  lemma FinalAdd()
    ensures Add(H0, Digest(0x42541b35, 0x5738d5e1, 0x21834873, 0x681e6df6, 0xd8fdf6ad)) == Digest(0xa9993e36, 0x4706816a, 0xba3e2571, 0x7850c26c, 0x9cd0d89d)
  {
  }
}
