/**
 CRC-64 of Security-55471/authd/crc.h: the table-driven update, the bit-serial
 division it stands for, and its meaning as a polynomial remainder modulo
 x^64 + POLY (ECMA-182). Registers are 64-bit words; bit i is the coefficient of x^i.
 */
module Crc64 {
  import opened Gf2Poly

  type Reg = bv64

  const POLY: Reg := 0x42F0E1EBA9EA3693
  const XOROUT: Reg := 0xffffffffffffffff

  /** Addition of polynomials held in registers. */
  function Plus(a: Reg, b: Reg): Reg {
    a ^ b
  }

  /** Multiplication by x, without the bit that falls out. */
  function Up(c: Reg): Reg {
    c << 1
  }

  // ----- the table and its generator -----

  /** One step of the generator loop: shift left, and subtract the divisor if a bit fell out. */
  function GeneratorStep(c: Reg): Reg {
    if c & 0x8000000000000000 != 0 then (c << 1) ^ POLY else c << 1
  }

  /** What the generator computes for entry `i`. */
  function Generated(i: Reg): Reg {
    GeneratorStep(GeneratorStep(GeneratorStep(GeneratorStep(
      GeneratorStep(GeneratorStep(GeneratorStep(GeneratorStep(i << 56))))))))
  }

  /** _crc_table64, sixteen entries a row. */
  function Row(h: Reg): (r: seq<Reg>)
    requires h < 16
    ensures |r| == 16
  {
    if h == 0 then
      [0x0000000000000000, 0x42f0e1eba9ea3693, 0x85e1c3d753d46d26, 0xc711223cfa3e5bb5,
       0x493366450e42ecdf, 0x0bc387aea7a8da4c, 0xccd2a5925d9681f9, 0x8e224479f47cb76a,
       0x9266cc8a1c85d9be, 0xd0962d61b56fef2d, 0x17870f5d4f51b498, 0x5577eeb6e6bb820b,
       0xdb55aacf12c73561, 0x99a54b24bb2d03f2, 0x5eb4691841135847, 0x1c4488f3e8f96ed4]
    else if h == 1 then
      [0x663d78ff90e185ef, 0x24cd9914390bb37c, 0xe3dcbb28c335e8c9, 0xa12c5ac36adfde5a,
       0x2f0e1eba9ea36930, 0x6dfeff5137495fa3, 0xaaefdd6dcd770416, 0xe81f3c86649d3285,
       0xf45bb4758c645c51, 0xb6ab559e258e6ac2, 0x71ba77a2dfb03177, 0x334a9649765a07e4,
       0xbd68d2308226b08e, 0xff9833db2bcc861d, 0x388911e7d1f2dda8, 0x7a79f00c7818eb3b]
    else if h == 2 then
      [0xcc7af1ff21c30bde, 0x8e8a101488293d4d, 0x499b3228721766f8, 0x0b6bd3c3dbfd506b,
       0x854997ba2f81e701, 0xc7b97651866bd192, 0x00a8546d7c558a27, 0x4258b586d5bfbcb4,
       0x5e1c3d753d46d260, 0x1cecdc9e94ace4f3, 0xdbfdfea26e92bf46, 0x990d1f49c77889d5,
       0x172f5b3033043ebf, 0x55dfbadb9aee082c, 0x92ce98e760d05399, 0xd03e790cc93a650a]
    else if h == 3 then
      [0xaa478900b1228e31, 0xe8b768eb18c8b8a2, 0x2fa64ad7e2f6e317, 0x6d56ab3c4b1cd584,
       0xe374ef45bf6062ee, 0xa1840eae168a547d, 0x66952c92ecb40fc8, 0x2465cd79455e395b,
       0x3821458aada7578f, 0x7ad1a461044d611c, 0xbdc0865dfe733aa9, 0xff3067b657990c3a,
       0x711223cfa3e5bb50, 0x33e2c2240a0f8dc3, 0xf4f3e018f031d676, 0xb60301f359dbe0e5]
    else if h == 4 then
      [0xda050215ea6c212f, 0x98f5e3fe438617bc, 0x5fe4c1c2b9b84c09, 0x1d14202910527a9a,
       0x93366450e42ecdf0, 0xd1c685bb4dc4fb63, 0x16d7a787b7faa0d6, 0x5427466c1e109645,
       0x4863ce9ff6e9f891, 0x0a932f745f03ce02, 0xcd820d48a53d95b7, 0x8f72eca30cd7a324,
       0x0150a8daf8ab144e, 0x43a04931514122dd, 0x84b16b0dab7f7968, 0xc6418ae602954ffb]
    else if h == 5 then
      [0xbc387aea7a8da4c0, 0xfec89b01d3679253, 0x39d9b93d2959c9e6, 0x7b2958d680b3ff75,
       0xf50b1caf74cf481f, 0xb7fbfd44dd257e8c, 0x70eadf78271b2539, 0x321a3e938ef113aa,
       0x2e5eb66066087d7e, 0x6cae578bcfe24bed, 0xabbf75b735dc1058, 0xe94f945c9c3626cb,
       0x676dd025684a91a1, 0x259d31cec1a0a732, 0xe28c13f23b9efc87, 0xa07cf2199274ca14]
    else if h == 6 then
      [0x167ff3eacbaf2af1, 0x548f120162451c62, 0x939e303d987b47d7, 0xd16ed1d631917144,
       0x5f4c95afc5edc62e, 0x1dbc74446c07f0bd, 0xdaad56789639ab08, 0x985db7933fd39d9b,
       0x84193f60d72af34f, 0xc6e9de8b7ec0c5dc, 0x01f8fcb784fe9e69, 0x43081d5c2d14a8fa,
       0xcd2a5925d9681f90, 0x8fdab8ce70822903, 0x48cb9af28abc72b6, 0x0a3b7b1923564425]
    else if h == 7 then
      [0x70428b155b4eaf1e, 0x32b26afef2a4998d, 0xf5a348c2089ac238, 0xb753a929a170f4ab,
       0x3971ed50550c43c1, 0x7b810cbbfce67552, 0xbc902e8706d82ee7, 0xfe60cf6caf321874,
       0xe224479f47cb76a0, 0xa0d4a674ee214033, 0x67c58448141f1b86, 0x253565a3bdf52d15,
       0xab1721da49899a7f, 0xe9e7c031e063acec, 0x2ef6e20d1a5df759, 0x6c0603e6b3b7c1ca]
    else if h == 8 then
      [0xf6fae5c07d3274cd, 0xb40a042bd4d8425e, 0x731b26172ee619eb, 0x31ebc7fc870c2f78,
       0xbfc9838573709812, 0xfd39626eda9aae81, 0x3a28405220a4f534, 0x78d8a1b9894ec3a7,
       0x649c294a61b7ad73, 0x266cc8a1c85d9be0, 0xe17dea9d3263c055, 0xa38d0b769b89f6c6,
       0x2daf4f0f6ff541ac, 0x6f5faee4c61f773f, 0xa84e8cd83c212c8a, 0xeabe6d3395cb1a19]
    else if h == 9 then
      [0x90c79d3fedd3f122, 0xd2377cd44439c7b1, 0x15265ee8be079c04, 0x57d6bf0317edaa97,
       0xd9f4fb7ae3911dfd, 0x9b041a914a7b2b6e, 0x5c1538adb04570db, 0x1ee5d94619af4648,
       0x02a151b5f156289c, 0x4051b05e58bc1e0f, 0x87409262a28245ba, 0xc5b073890b687329,
       0x4b9237f0ff14c443, 0x0962d61b56fef2d0, 0xce73f427acc0a965, 0x8c8315cc052a9ff6]
    else if h == 10 then
      [0x3a80143f5cf17f13, 0x7870f5d4f51b4980, 0xbf61d7e80f251235, 0xfd913603a6cf24a6,
       0x73b3727a52b393cc, 0x31439391fb59a55f, 0xf652b1ad0167feea, 0xb4a25046a88dc879,
       0xa8e6d8b54074a6ad, 0xea16395ee99e903e, 0x2d071b6213a0cb8b, 0x6ff7fa89ba4afd18,
       0xe1d5bef04e364a72, 0xa3255f1be7dc7ce1, 0x64347d271de22754, 0x26c49cccb40811c7]
    else if h == 11 then
      [0x5cbd6cc0cc10fafc, 0x1e4d8d2b65facc6f, 0xd95caf179fc497da, 0x9bac4efc362ea149,
       0x158e0a85c2521623, 0x577eeb6e6bb820b0, 0x906fc95291867b05, 0xd29f28b9386c4d96,
       0xcedba04ad0952342, 0x8c2b41a1797f15d1, 0x4b3a639d83414e64, 0x09ca82762aab78f7,
       0x87e8c60fded7cf9d, 0xc51827e4773df90e, 0x020905d88d03a2bb, 0x40f9e43324e99428]
    else if h == 12 then
      [0x2cffe7d5975e55e2, 0x6e0f063e3eb46371, 0xa91e2402c48a38c4, 0xebeec5e96d600e57,
       0x65cc8190991cb93d, 0x273c607b30f68fae, 0xe02d4247cac8d41b, 0xa2dda3ac6322e288,
       0xbe992b5f8bdb8c5c, 0xfc69cab42231bacf, 0x3b78e888d80fe17a, 0x7988096371e5d7e9,
       0xf7aa4d1a85996083, 0xb55aacf12c735610, 0x724b8ecdd64d0da5, 0x30bb6f267fa73b36]
    else if h == 13 then
      [0x4ac29f2a07bfd00d, 0x08327ec1ae55e69e, 0xcf235cfd546bbd2b, 0x8dd3bd16fd818bb8,
       0x03f1f96f09fd3cd2, 0x41011884a0170a41, 0x86103ab85a2951f4, 0xc4e0db53f3c36767,
       0xd8a453a01b3a09b3, 0x9a54b24bb2d03f20, 0x5d45907748ee6495, 0x1fb5719ce1045206,
       0x919735e51578e56c, 0xd367d40ebc92d3ff, 0x1476f63246ac884a, 0x568617d9ef46bed9]
    else if h == 14 then
      [0xe085162ab69d5e3c, 0xa275f7c11f7768af, 0x6564d5fde549331a, 0x279434164ca30589,
       0xa9b6706fb8dfb2e3, 0xeb46918411358470, 0x2c57b3b8eb0bdfc5, 0x6ea7525342e1e956,
       0x72e3daa0aa188782, 0x30133b4b03f2b111, 0xf7021977f9cceaa4, 0xb5f2f89c5026dc37,
       0x3bd0bce5a45a6b5d, 0x79205d0e0db05dce, 0xbe317f32f78e067b, 0xfcc19ed95e6430e8]
    else
      [0x86b86ed5267cdbd3, 0xc4488f3e8f96ed40, 0x0359ad0275a8b6f5, 0x41a94ce9dc428066,
       0xcf8b0890283e370c, 0x8d7be97b81d4019f, 0x4a6acb477bea5a2a, 0x089a2aacd2006cb9,
       0x14dea25f3af9026d, 0x562e43b4931334fe, 0x913f6188692d6f4b, 0xd3cf8063c0c759d8,
       0x5dedc41a34bbeeb2, 0x1f1d25f19d51d821, 0xd80c07cd676f8394, 0x9afce626ce85b507]
  }

  function GeneratedRow(h: Reg): (r: seq<Reg>)
    ensures |r| == 16
  {
    var i := h << 4;
    [Generated(i), Generated(i | 1), Generated(i | 2), Generated(i | 3),
     Generated(i | 4), Generated(i | 5), Generated(i | 6), Generated(i | 7),
     Generated(i | 8), Generated(i | 9), Generated(i | 10), Generated(i | 11),
     Generated(i | 12), Generated(i | 13), Generated(i | 14), Generated(i | 15)]
  }

  function Lookup(i: Reg): Reg
    requires i < 256
  {
    Row(i >> 4)[(i & 15) as nat]
  }

  lemma RowsGenerated(h: Reg)
    requires h < 16
    ensures Row(h) == GeneratedRow(h)
  {
    hide Row, GeneratedRow;
    if h < 4 {
      Rows0(h);
    } else if h < 8 {
      Rows4(h);
    } else if h < 12 {
      Rows8(h);
    } else {
      Rows12(h);
    }
  }

  lemma Rows0(h: Reg)
    requires 0 <= h < 4
    ensures Row(h) == GeneratedRow(h)
  {
    if h == 0 {
    } else if h == 1 {
    } else if h == 2 {
    } else {
      assert h == 3;
    }
  }

  lemma Rows4(h: Reg)
    requires 4 <= h < 8
    ensures Row(h) == GeneratedRow(h)
  {
    if h == 4 {
    } else if h == 5 {
    } else if h == 6 {
    } else {
      assert h == 7;
    }
  }

  lemma Rows8(h: Reg)
    requires 8 <= h < 12
    ensures Row(h) == GeneratedRow(h)
  {
    if h == 8 {
    } else if h == 9 {
    } else if h == 10 {
    } else {
      assert h == 11;
    }
  }

  lemma Rows12(h: Reg)
    requires 12 <= h < 16
    ensures Row(h) == GeneratedRow(h)
  {
    if h == 12 {
    } else if h == 13 {
    } else if h == 14 {
    } else {
      assert h == 15;
    }
  }

  lemma ColumnOf(h: Reg, c: Reg)
    requires c < 16
    ensures (c as nat) < 16 && GeneratedRow(h)[c as nat] == Generated((h << 4) | c)
  {
    hide Generated, GeneratedRow;
    if c < 4 {
      Columns0(h, c);
    } else if c < 8 {
      Columns4(h, c);
    } else if c < 12 {
      Columns8(h, c);
    } else {
      Columns12(h, c);
    }
  }

  lemma Columns0(h: Reg, c: Reg)
    requires 0 <= c < 4
    ensures (c as nat) < 16 && GeneratedRow(h)[c as nat] == Generated((h << 4) | c)
  {
    hide Generated;
    OrZero(h << 4);
    if c == 0 {
    } else if c == 1 {
    } else if c == 2 {
    } else {
      assert c == 3;
    }
  }

  lemma OrZero(x: Reg)
    ensures x | 0 == x
  {
  }

  lemma Columns4(h: Reg, c: Reg)
    requires 4 <= c < 8
    ensures (c as nat) < 16 && GeneratedRow(h)[c as nat] == Generated((h << 4) | c)
  {
    hide Generated;
    if c == 4 {
    } else if c == 5 {
    } else if c == 6 {
    } else {
      assert c == 7;
    }
  }

  lemma Columns8(h: Reg, c: Reg)
    requires 8 <= c < 12
    ensures (c as nat) < 16 && GeneratedRow(h)[c as nat] == Generated((h << 4) | c)
  {
    hide Generated;
    if c == 8 {
    } else if c == 9 {
    } else if c == 10 {
    } else {
      assert c == 11;
    }
  }

  lemma Columns12(h: Reg, c: Reg)
    requires 12 <= c < 16
    ensures (c as nat) < 16 && GeneratedRow(h)[c as nat] == Generated((h << 4) | c)
  {
    hide Generated;
    if c == 12 {
    } else if c == 13 {
    } else if c == 14 {
    } else {
      assert c == 15;
    }
  }

  lemma TableGenerated(i: Reg)
    requires i < 256
    ensures (i >> 4) < 16 && Lookup(i) == Generated(i)
  {
    hide Row, Generated, GeneratedRow;
    RowsGenerated(i >> 4);
    ColumnOf(i >> 4, i & 15);
    assert ((i >> 4) << 4) | (i & 15) == i;
  }

  // ----- the update -----

  predicate Top(c: Reg) {
    c & 0x8000000000000000 != 0
  }

  /** A step of bit-serial division: the generator's, in terms of `Plus` and `Up`. */
  function Step(c: Reg): Reg {
    if Top(c) then Plus(Up(c), POLY) else Up(c)
  }

  function Step8(c: Reg): Reg {
    Step(Step(Step(Step(Step(Step(Step(Step(c))))))))
  }

  lemma StepIsGenerator(c: Reg)
    ensures Step(c) == GeneratorStep(c)
  {
  }

  lemma GeneratedIsStep8(i: Reg)
    ensures Generated(i) == Step8(i << 56)
  {
    hide Step, GeneratorStep;
    var c := i << 56;
    var c2 := Step(Step(c));
    var c4 := Step(Step(c2));
    var c6 := Step(Step(c4));
    StepIsGenerator(c);
    StepIsGenerator(Step(c));
    StepIsGenerator(c2);
    StepIsGenerator(Step(c2));
    StepIsGenerator(c4);
    StepIsGenerator(Step(c4));
    StepIsGenerator(c6);
    StepIsGenerator(Step(c6));
  }

  /** Bit-serial division of one more octet. */
  function ByteStep(c: Reg, b: bv8): Reg {
    Step8(Plus(c, b as Reg << 56))
  }

  function Serial(c: Reg, buf: seq<bv8>): Reg {
    if buf == [] then c else ByteStep(Serial(c, buf[..|buf| - 1]), buf[|buf| - 1])
  }

  function Index(c: Reg, b: bv8): Reg {
    Plus(c >> 56, b as Reg) & 0xff
  }

  lemma TableStep(c: Reg, b: bv8)
    ensures Index(c, b) < 256 && Plus(Lookup(Index(c, b)), c << 8) == ByteStep(c, b)
  {
    hide Lookup, Generated, ByteStep, Plus;
    TableGenerated(Index(c, b));
    StepSplit(c, b);
  }

  /** The top octet goes through the table, the other seven only shift. */
  lemma StepSplit(c: Reg, b: bv8)
    ensures Plus(Generated(Index(c, b)), c << 8) == ByteStep(c, b)
  {
    hide Step8, Plus, Index, Generated;
    GeneratedIsStep8(Index(c, b));
    Parts(c, b);
    Step8Plus(Index(c, b) << 56, c & 0x00ff_ffff_ffff_ffff);
    Step8Low(c);
  }

  lemma Parts(c: Reg, b: bv8)
    ensures Plus(c, b as Reg << 56) == Plus(Index(c, b) << 56, c & 0x00ff_ffff_ffff_ffff)
  {
    hide Plus, Index;
    var h, l, x := c & 0xff00_0000_0000_0000, c & 0x00ff_ffff_ffff_ffff, b as Reg << 56;
    HighLow(c);
    IndexShifted(c, b);
    PlusSwap(h, l, x);
  }

  lemma HighLow(c: Reg)
    ensures c == Plus(c & 0xff00_0000_0000_0000, c & 0x00ff_ffff_ffff_ffff)
  {
  }

  lemma IndexShifted(c: Reg, b: bv8)
    ensures Index(c, b) << 56 == Plus(c & 0xff00_0000_0000_0000, b as Reg << 56)
  {
  }

  lemma PlusDef(a: Reg, b: Reg)
    ensures Plus(a, b) == a ^ b
  {
  }

  lemma PlusAssoc(a: Reg, b: Reg, c: Reg)
    ensures Plus(a, Plus(b, c)) == Plus(Plus(a, b), c)
  {
    hide Plus;
    PlusRight(a, b, c);
    PlusLeft(a, b, c);
    WordAssoc(a, b, c);
  }

  lemma PlusRight(a: Reg, b: Reg, c: Reg)
    ensures Plus(a, Plus(b, c)) == a ^ (b ^ c)
  {
  }

  lemma PlusLeft(a: Reg, b: Reg, c: Reg)
    ensures Plus(Plus(a, b), c) == (a ^ b) ^ c
  {
  }

  lemma WordAssoc(a: Reg, b: Reg, c: Reg)
    ensures a ^ (b ^ c) == (a ^ b) ^ c
  {
  }

  lemma PlusComm(a: Reg, b: Reg)
    ensures Plus(a, b) == Plus(b, a)
  {
  }

  lemma PlusCancel(a: Reg, b: Reg)
    ensures Plus(Plus(a, b), b) == a
  {
  }

  lemma PlusSwap(a: Reg, b: Reg, c: Reg)
    ensures Plus(Plus(a, b), c) == Plus(Plus(a, c), b)
  {
    hide Plus;
    PlusAssoc(a, b, c);
    PlusComm(b, c);
    PlusAssoc(a, c, b);
  }

  lemma Step8Low(c: Reg)
    ensures Step8(c & 0x00ff_ffff_ffff_ffff) == c << 8
  {
  }

  lemma StepPlus(c: Reg, d: Reg)
    ensures Step(Plus(c, d)) == Plus(Step(c), Step(d))
  {
    hide Plus, Top, Up;
    UpPlus(c, d);
    TopPlus(c, d);
    PlusSwap(Up(c), POLY, Up(d));
    PlusAssoc(Up(c), Up(d), POLY);
    PlusAssoc(Plus(Up(c), POLY), Up(d), POLY);
    PlusCancel(Plus(Up(c), Up(d)), POLY);
  }

  lemma UpPlus(c: Reg, d: Reg)
    ensures Up(Plus(c, d)) == Plus(Up(c), Up(d))
  {
    hide Plus;
    WordShift(c, d);
    PlusDef(c, d);
    PlusDef(c << 1, d << 1);
  }

  lemma WordShift(c: Reg, d: Reg)
    ensures (c ^ d) << 1 == (c << 1) ^ (d << 1)
  {
  }

  lemma TopPlus(c: Reg, d: Reg)
    ensures Top(Plus(c, d)) <==> Top(c) != Top(d)
  {
    hide Top, Plus;
    WordTop(c, d);
    PlusDef(c, d);
  }

  lemma WordTop(c: Reg, d: Reg)
    ensures Top(c ^ d) <==> Top(c) != Top(d)
  {
  }

  lemma Step8Plus(c: Reg, d: Reg)
    ensures Step8(Plus(c, d)) == Plus(Step8(c), Step8(d))
  {
    hide Step, Plus;
    Step4Plus(c, d);
    Step4Plus(Step(Step(Step(Step(c)))), Step(Step(Step(Step(d)))));
  }

  lemma Step4Plus(c: Reg, d: Reg)
    ensures Step(Step(Step(Step(Plus(c, d))))) == Plus(Step(Step(Step(Step(c)))), Step(Step(Step(Step(d)))))
  {
    hide Step, Plus;
    StepPlus(c, d);
    StepPlus(Step(c), Step(d));
    StepPlus(Step(Step(c)), Step(Step(d)));
    StepPlus(Step(Step(Step(c))), Step(Step(Step(d))));
  }

  /** crc64_update */
  method Update(crc: Reg, buf: seq<bv8>) returns (r: Reg)
    ensures r == Serial(crc, buf)
  {
    hide Lookup, ByteStep, Plus;
    r := crc;
    var at := 0;
    while at < |buf|
      invariant 0 <= at <= |buf| && r == Serial(crc, buf[..at])
    {
      TableStep(r, buf[at]);
      assert buf[..at + 1][..at] == buf[..at];
      r := Plus(Lookup(Index(r, buf[at])), r << 8);
      at := at + 1;
    }
    assert buf[..at] == buf;
  }

  lemma {:induction false} SerialConcat(c: Reg, a: seq<bv8>, b: seq<bv8>)
    ensures Serial(c, a + b) == Serial(Serial(c, a), b)
    decreases |b|
  {
    hide ByteStep;
    if b == [] {
      assert a + b == a;
    } else {
      assert (a + b)[..|a + b| - 1] == a + b[..|b| - 1];
      SerialConcat(c, a, b[..|b| - 1]);
    }
  }

  /** crc64 */
  method Crc(buf: seq<bv8>) returns (r: Reg)
    ensures r == CrcSpec(buf)
  {
    r := Update(XOROUT, buf);
    r := Plus(r, XOROUT);
  }

  function CrcSpec(buf: seq<bv8>): Reg {
    Plus(Serial(XOROUT, buf), XOROUT)
  }

  // ----- the remainder -----

  function TopBit(c: Reg): nat {
    if Top(c) then 1 else 0
  }

  /** The polynomial of the upper `n` bits of a register. */
  function Upper(c: Reg, n: nat): nat
    decreases n
  {
    if n == 0 then 0 else Shl(TopBit(c), n - 1) + Upper(Up(c), n - 1)
  }

  /** The polynomial of a register. */
  function Poly(c: Reg): nat {
    Upper(c, 64)
  }

  /** x^64 + x^62 + x^57 + ... + x + 1: the divisor. */
  const G: nat := Pow2(64) + Poly(POLY)

  lemma {:induction false} UpperBound(c: Reg, n: nat)
    ensures Upper(c, n) < Pow2(n)
    decreases n
  {
    hide Top, Up;
    if n != 0 {
      UpperBound(Up(c), n - 1);
      ShlOne(n - 1);
    }
  }

  lemma UpperDef(c: Reg, n: nat)
    ensures Upper(c, n) == if n == 0 then 0 else Shl(TopBit(c), n - 1) + Upper(Up(c), n - 1)
  {
  }

  lemma {:induction false} UpperPlus(c: Reg, d: Reg, n: nat)
    ensures Upper(Plus(c, d), n) == Xor(Upper(c, n), Upper(d, n))
    decreases n
  {
    hide *;
    UpperDef(c, n);
    UpperDef(d, n);
    UpperDef(Plus(c, d), n);
    if n == 0 {
      XorZero(0);
    } else {
      UpperPlus(Up(c), Up(d), n - 1);
      UpPlus(c, d);
      TopBitPlus(c, d);
      UpperBound(Up(c), n - 1);
      UpperBound(Up(d), n - 1);
      XorSplit(n - 1, Upper(Up(c), n - 1), Upper(Up(d), n - 1), TopBit(c), TopBit(d));
    }
  }

  lemma TopBitPlus(c: Reg, d: Reg)
    ensures TopBit(Plus(c, d)) == Xor(TopBit(c), TopBit(d))
  {
    hide Xor, Plus, Top;
    TopPlus(c, d);
    XorSelf(TopBit(c));
    XorZero(1);
  }

  /** A register after `n` shifts. */
  function UpN(c: Reg, n: nat): Reg
    decreases n
  {
    if n == 0 then c else UpN(Up(c), n - 1)
  }

  lemma {:induction false} UpperExtend(c: Reg, n: nat)
    ensures Upper(c, n + 1) == 2 * Upper(c, n) + TopBit(UpN(c, n))
    decreases n
  {
    hide TopBit, Up;
    if n != 0 {
      UpperExtend(Up(c), n - 1);
    }
  }

  /** Eight shifts at once. */
  function Up8(c: Reg): Reg {
    Up(Up(Up(Up(Up(Up(Up(Up(c))))))))
  }

  lemma Up8Def(c: Reg)
    ensures Up8(c) == c << 8
  {
  }

  lemma UpN8(c: Reg, n: nat)
    ensures UpN(c, n + 8) == UpN(Up8(c), n)
  {
    hide Up;
    var c2 := Up(Up(c));
    var c4 := Up(Up(c2));
    var c6 := Up(Up(c4));
    assert UpN(c, n + 8) == UpN(Up(c), n + 7) == UpN(c2, n + 6);
    assert UpN(c2, n + 6) == UpN(Up(c2), n + 5) == UpN(c4, n + 4);
    assert UpN(c4, n + 4) == UpN(Up(c4), n + 3) == UpN(c6, n + 2);
    assert UpN(c6, n + 2) == UpN(Up(c6), n + 1);
  }

  /** After 64 shifts a register is empty. */
  lemma Emptied(c: Reg)
    ensures UpN(c, 64) == 0
  {
    hide UpN, Up8, Up;
    var c2 := Up8(Up8(c));
    var c4 := Up8(Up8(c2));
    var c6 := Up8(Up8(c4));
    UpN8(c, 56);
    UpN8(Up8(c), 48);
    UpN8(c2, 40);
    UpN8(Up8(c2), 32);
    UpN8(c4, 24);
    UpN8(Up8(c4), 16);
    UpN8(c6, 8);
    UpN8(Up8(c6), 0);
    UpNone(Up8(Up8(c6)));
    ShiftedOut(c);
  }

  lemma UpNone(c: Reg)
    ensures UpN(c, 0) == c
  {
  }

  lemma ShiftedOut(c: Reg)
    ensures Up8(Up8(Up8(Up8(Up8(Up8(Up8(Up8(c)))))))) == 0
  {
    hide Up8;
    Up8Def(c);
    Up8Def(Up8(c));
    var c2 := Up8(Up8(c));
    Up8Def(c2);
    Up8Def(Up8(c2));
    var c4 := Up8(Up8(c2));
    Up8Def(c4);
    Up8Def(Up8(c4));
    var c6 := Up8(Up8(c4));
    Up8Def(c6);
    Up8Def(Up8(c6));
  }

  /** Shifting multiplies by x, except for the bit that falls out. */
  lemma PolyShift(c: Reg)
    ensures Poly(Up(c)) + Shl(TopBit(c), 64) == 2 * Poly(c)
  {
    hide TopBit, UpN, Shl, Upper, Up;
    UpperExtend(Up(c), 63);
    UpNStep(c, 63);
    Emptied(c);
    TopBitZero();
    UpperStep(c, 63);
  }

  lemma UpNStep(c: Reg, n: nat)
    ensures UpN(c, n + 1) == UpN(Up(c), n)
  {
    hide Up;
  }

  lemma TopBitZero()
    ensures TopBit(0) == 0
  {
  }

  lemma UpperStep(c: Reg, n: nat)
    ensures Upper(c, n + 1) == Shl(TopBit(c), n) + Upper(Up(c), n)
    ensures Shl(TopBit(c), n + 1) == 2 * Shl(TopBit(c), n)
  {
    hide TopBit, Up;
  }

  lemma ModulusG()
    ensures IsModulus(G, 64) && Poly(POLY) < Pow2(64)
  {
    hide Upper, Pow2;
    UpperBound(POLY, 64);
  }

  /** A bit-serial step multiplies by x and reduces modulo G. */
  lemma PolyStep(c: Reg)
    ensures Poly(Step(c)) == Reduce(2 * Poly(c), G, 64)
  {
    hide Upper, Plus, Pow2, Xor, Top, Shl, Up;
    PolyShift(c);
    ShlOne(64);
    UpperBound(Up(c), 64);
    UpperPlus(Up(c), POLY, 64);
    ModulusG();
    XorSplit(64, Poly(Up(c)), Poly(POLY), 1, 1);
    XorSelf(1);
  }

  lemma PolyBelow(c: Reg)
    ensures Poly(c) < Pow2(64)
  {
    UpperBound(c, 64);
  }

  lemma PolyStep4(c: Reg)
    ensures Poly(Step(Step(Step(Step(c))))) == Rem(Shl(Poly(c), 4), G, 64)
  {
    hide Rem, Reduce, Step, Poly, Pow2, G;
    var x := Poly(c);
    PolyBelow(c);
    RemSmall(x, G, 64);
    PolyStep(c);
    RemDouble(x, G, 64);
    PolyStep(Step(c));
    RemDouble(2 * x, G, 64);
    PolyStep(Step(Step(c)));
    RemDouble(4 * x, G, 64);
    PolyStep(Step(Step(Step(c))));
    RemDouble(8 * x, G, 64);
    ShlSmall(x);
  }

  lemma PolyStep8(c: Reg)
    ensures Poly(Step8(c)) == Rem(Shl(Poly(c), 8), G, 64)
  {
    hide Rem, Step, Poly, G, Shl, Reduce;
    var d := Step(Step(Step(Step(c))));
    PolyStep4(c);
    PolyStep4(d);
    RemShl(Shl(Poly(c), 4), 4);
    ShlSmall(Poly(c));
    ShlSmall(Shl(Poly(c), 4));
  }

  lemma {:induction false} RemShl(x: nat, n: nat)
    ensures Rem(Shl(Rem(x, G, 64), n), G, 64) == Rem(Shl(x, n), G, 64)
  {
    hide Rem, G, Reduce;
    if n == 0 {
      ModulusG();
      RemBound(x, G, 64);
      RemSmall(Rem(x, G, 64), G, 64);
    } else {
      RemShl(x, n - 1);
      RemDouble(Shl(Rem(x, G, 64), n - 1), G, 64);
      RemDouble(Shl(x, n - 1), G, 64);
    }
  }

  // ----- whole messages -----

  function OctetPoly(b: bv8): nat {
    Poly(b as Reg)
  }

  /** The message as one polynomial: first octet, and in it the top bit, highest. */
  function MsgPoly(m: seq<bv8>): nat {
    if m == [] then 0 else Xor(Shl(MsgPoly(m[..|m| - 1]), 8), OctetPoly(m[|m| - 1]))
  }

  lemma {:induction false} ShlXor(a: nat, b: nat, n: nat)
    ensures Shl(Xor(a, b), n) == Xor(Shl(a, n), Shl(b, n))
  {
    if n != 0 {
      ShlXor(a, b, n - 1);
      XorDouble(Shl(a, n - 1), Shl(b, n - 1));
    }
  }

  lemma {:induction false} UpperZero(c: Reg, n: nat)
    requires Upper(c, n) == 0 && UpN(c, n) == 0
    ensures c == 0
    decreases n
  {
    hide Up;
    if n != 0 {
      UpperZero(Up(c), n - 1);
      ShlOne(n - 1);
      UpZero(c);
    }
  }

  lemma UpZero(c: Reg)
    ensures Up(c) == 0 && !Top(c) ==> c == 0
  {
  }

  /** Different registers are different polynomials. */
  lemma PolyInjective(c: Reg, d: Reg)
    requires Poly(c) == Poly(d)
    ensures c == d
  {
    hide Upper, UpN, Plus;
    UpperPlus(c, d, 64);
    XorSelf(Poly(c));
    Emptied(Plus(c, d));
    UpperZero(Plus(c, d), 64);
    PlusZero(c, d);
  }

  lemma PlusZero(c: Reg, d: Reg)
    ensures Plus(c, d) == 0 ==> c == d
  {
  }

  lemma PolyUp(c: Reg)
    requires !Top(c)
    ensures Poly(Up(c)) == 2 * Poly(c)
  {
    hide Poly, Up;
    PolyShift(c);
    ShlOne(64);
  }

  lemma PolyUp8(c: Reg)
    requires c < 0x0100_0000_0000_0000
    ensures Poly(Up8(c)) == 256 * Poly(c)
  {
    hide Poly, Up, Top;
    NoTops(c);
    var c2 := Up(Up(c));
    var c4 := Up(Up(c2));
    var c6 := Up(Up(c4));
    PolyUp(c);
    PolyUp(Up(c));
    PolyUp(c2);
    PolyUp(Up(c2));
    PolyUp(c4);
    PolyUp(Up(c4));
    PolyUp(c6);
    PolyUp(Up(c6));
  }

  lemma NoTops(c: Reg)
    requires c < 0x0100_0000_0000_0000
    ensures var c2 := Up(Up(c));
            var c4 := Up(Up(c2));
            var c6 := Up(Up(c4));
            && !Top(c) && !Top(Up(c)) && !Top(c2) && !Top(Up(c2))
            && !Top(c4) && !Top(Up(c4)) && !Top(c6) && !Top(Up(c6))
  {
  }

  /** An octet at the top of the register is that octet times x^56. */
  lemma PolyOctet(b: bv8)
    ensures Poly(b as Reg << 56) == Shl(OctetPoly(b), 56) && OctetPoly(b) < 256
  {
    hide Poly, Up8, Up, Shl;
    var c := b as Reg;
    var p := Poly(c);
    assert c < 256;
    OctetShifts(b);
    PolyUp8(c);
    PolyUp8(c << 8);
    PolyUp8(c << 16);
    PolyUp8(c << 24);
    PolyUp8(c << 32);
    PolyUp8(c << 40);
    PolyUp8(c << 48);
    Shl56(p);
    Pow64();
    PolyBelow(c << 56);
    Shl256(p);
  }

  lemma OctetShifts(b: bv8)
    ensures var c := b as Reg;
            && Up8(c) == c << 8 && Up8(c << 8) == c << 16 && Up8(c << 16) == c << 24 && Up8(c << 24) == c << 32
            && Up8(c << 32) == c << 40 && Up8(c << 40) == c << 48 && Up8(c << 48) == c << 56
            && c < 0x0100_0000_0000_0000 && (c << 8) < 0x0100_0000_0000_0000 && (c << 16) < 0x0100_0000_0000_0000
            && (c << 24) < 0x0100_0000_0000_0000 && (c << 32) < 0x0100_0000_0000_0000
            && (c << 40) < 0x0100_0000_0000_0000 && (c << 48) < 0x0100_0000_0000_0000
  {
    hide Up8;
    var c := b as Reg;
    Up8Def(c);
    Up8Def(c << 8);
    Up8Def(c << 16);
    Up8Def(c << 24);
    Up8Def(c << 32);
    Up8Def(c << 40);
    Up8Def(c << 48);
  }

  lemma Shl56(p: nat)
    ensures Shl(p, 56) == 0x100_0000_0000_0000 * p
  {
    ShlSmall(p);
    ShlSmall(256 * p);
    ShlSmall(0x1_0000 * p);
    ShlSmall(0x100_0000 * p);
    ShlSmall(0x1_0000_0000 * p);
    ShlSmall(0x100_0000_0000 * p);
    ShlSmall(0x1_0000_0000_0000 * p);
    ShlShl(p, 8, 8);
    ShlShl(p, 16, 8);
    ShlShl(p, 24, 8);
    ShlShl(p, 32, 8);
    ShlShl(p, 40, 8);
    ShlShl(p, 48, 8);
  }

  lemma Shl256(p: nat)
    ensures 0x100_0000_0000_0000 * p < 0x1_0000_0000_0000_0000 ==> p < 256
  {
  }

  lemma Pow64()
    ensures Pow2(64) == 0x1_0000_0000_0000_0000
  {
    hide Shl, Pow2;
    Shl56(1);
    ShlShl(1, 56, 8);
    ShlSmall(0x100_0000_0000_0000);
    ShlOne(64);
  }

  /**
   The register after a message is the remainder, modulo G, of the initial register
   times x^(8 n) plus the message times x^64.
   */
  lemma {:induction false} SerialRemainder(c: Reg, m: seq<bv8>)
    ensures Poly(Serial(c, m)) == Rem(Xor(Shl(Poly(c), 8 * |m|), Shl(MsgPoly(m), 64)), G, 64)
  {
    hide Rem, G, Poly, Shl, Xor, ByteStep, OctetPoly;
    if m == [] {
      NoMessage(Poly(c));
      PolyBelow(c);
      RemSmall(Poly(c), G, 64);
    } else {
      var n := |m| - 1;
      SerialRemainder(c, m[..n]);
      NextOctet(Serial(c, m[..n]), m[n], Poly(c), 8 * n, MsgPoly(m[..n]));
    }
  }

  lemma NoMessage(x: nat)
    ensures Xor(Shl(x, 0), Shl(0, 64)) == x
  {
    hide Xor;
    ShlOne(64);
    XorZero(x);
  }

  /** One more octet: everything before it is multiplied by x^8. */
  lemma NextOctet(s: Reg, b: bv8, c: nat, k: nat, p: nat)
    requires Poly(s) == Rem(Xor(Shl(c, k), Shl(p, 64)), G, 64)
    ensures Poly(ByteStep(s, b)) == Rem(Xor(Shl(c, k + 8), Shl(Xor(Shl(p, 8), OctetPoly(b)), 64)), G, 64)
  {
    hide Rem, G, Poly, Shl, Xor, Step8, Plus, OctetPoly;
    var x, o := Xor(Shl(c, k), Shl(p, 64)), OctetPoly(b);
    PolyStep8(Plus(s, b as Reg << 56));
    PolyPlus(s, b as Reg << 56);
    PolyOctet(b);
    ShlXor(Rem(x, G, 64), Shl(o, 56), 8);
    ShlShl(o, 56, 8);
    RemAfter(x, Shl(o, 64));
    ShlXor(Shl(c, k), Shl(p, 64), 8);
    ShlShl(c, k, 8);
    ShlShl(p, 64, 8);
    ShlShl(p, 8, 64);
    ShlXor(Shl(p, 8), o, 64);
    XorAssoc(Shl(c, k + 8), Shl(p, 72), Shl(o, 64));
  }

  lemma PolyPlus(c: Reg, d: Reg)
    ensures Poly(Plus(c, d)) == Xor(Poly(c), Poly(d))
  {
    hide Upper, Plus, Xor;
    UpperPlus(c, d, 64);
  }

  lemma RemAfter(x: nat, y: nat)
    ensures Rem(Xor(Shl(Rem(x, G, 64), 8), y), G, 64) == Rem(Xor(Shl(x, 8), y), G, 64)
  {
    hide Rem, G, Shl, Xor;
    ModulusG();
    RemXor(Shl(Rem(x, G, 64), 8), y, G, 64);
    RemXor(Shl(x, 8), y, G, 64);
    RemShl(x, 8);
  }

  // ----- error detection -----

  /** x is invertible modulo G, because G has a constant term. */
  lemma {:induction false} ShlInvertible(a: nat, n: nat)
    requires a < Pow2(64) && Rem(Shl(a, n), G, 64) == 0
    ensures a == 0
    decreases n
  {
    hide *;
    ShlStep(a, n);
    if n == 0 {
      RemSmall(a, G, 64);
    } else {
      RemDouble(Shl(a, n - 1), G, 64);
      ModulusG();
      RemBound(Shl(a, n - 1), G, 64);
      ReduceZero(Rem(Shl(a, n - 1), G, 64));
      ShlInvertible(a, n - 1);
    }
  }

  lemma ShlStep(a: nat, n: nat)
    ensures Shl(a, n) == if n == 0 then a else 2 * Shl(a, n - 1)
  {
  }

  lemma ReduceZero(r: nat)
    requires r < Pow2(64) && Reduce(2 * r, G, 64) == 0
    ensures r == 0
  {
    GOdd();
    hide G;
    ReduceOdd(r, G);
  }

  lemma ReduceOdd(r: nat, g: nat)
    requires g % 2 == 1 && Reduce(2 * r, g, 64) == 0
    ensures r == 0
  {
    hide Pow2, Xor;
    XorCancel(2 * r, g);
    XorZero(g);
  }

  lemma GOdd()
    ensures G % 2 == 1
  {
    hide Upper;
    Pow64();
    UpperExtend(POLY, 63);
    PolyLowBit();
  }

  /** The constant term of the divisor. */
  lemma PolyLowBit()
    ensures TopBit(UpN(POLY, 63)) == 1
  {
    hide UpN, Up8, Up, TopBit;
    var c2 := Up8(Up8(POLY));
    var c4 := Up8(Up8(c2));
    var c6 := Up8(Up8(c4));
    UpN8(POLY, 55);
    UpN8(Up8(POLY), 47);
    UpN8(c2, 39);
    UpN8(Up8(c2), 31);
    UpN8(c4, 23);
    UpN8(Up8(c4), 15);
    UpN8(c6, 7);
    LowBitShifted();
  }

  lemma LowBitShifted()
    ensures var c2 := Up8(Up8(POLY));
            var c4 := Up8(Up8(c2));
            var c6 := Up8(Up8(c4));
            TopBit(UpN(Up8(c6), 7)) == 1
  {
    hide Up8;
    Up8Def(POLY);
    Up8Def(POLY << 8);
    Up8Def(POLY << 16);
    Up8Def(POLY << 24);
    Up8Def(POLY << 32);
    Up8Def(POLY << 40);
    Up8Def(POLY << 48);
    var c := POLY << 56;
    assert UpN(c, 7) == UpN(Up(Up(Up(Up(c)))), 3) == Up(Up(Up(Up(Up(Up(Up(c)))))));
  }

  /** Two messages in the same place, of degree below 64, with the same remainder. */
  lemma SameRemainder(x: nat, a: nat, b: nat, n: nat)
    requires a < Pow2(64) && b < Pow2(64)
    requires Rem(Xor(x, Shl(a, n)), G, 64) == Rem(Xor(x, Shl(b, n)), G, 64)
    ensures a == b
  {
    hide Rem, G, Shl, Xor, Pow2;
    ModulusG();
    var u, v := Xor(x, Shl(a, n)), Xor(x, Shl(b, n));
    RemXor(u, v, G, 64);
    XorSelf(Rem(u, G, 64));
    XorSwap(x, Shl(a, n), x, Shl(b, n));
    XorSelf(x);
    XorZero(Xor(Shl(a, n), Shl(b, n)));
    ShlXor(a, b, n);
    XorBound(64, a, b);
    ShlInvertible(Xor(a, b), n);
    XorCancel(a, b);
    XorZero(b);
  }

  lemma {:induction false} MsgPolyBound(m: seq<bv8>)
    ensures MsgPoly(m) < Pow2(8 * |m|)
  {
    hide Xor, OctetPoly, Shl;
    if m != [] {
      var n := |m| - 1;
      MsgPolyBound(m[..n]);
      MsgPolySplit(m);
      PolyOctet(m[n]);
      Pow2Eight(8 * n);
    }
  }

  lemma Pow2Eight(n: nat)
    ensures Pow2(n + 8) == 256 * Pow2(n)
  {
    assert Pow2(n + 2) == 4 * Pow2(n);
    assert Pow2(n + 4) == 16 * Pow2(n);
    assert Pow2(n + 6) == 64 * Pow2(n);
  }

  lemma MsgPolySplit(m: seq<bv8>)
    requires m != []
    ensures MsgPoly(m) == 256 * MsgPoly(m[..|m| - 1]) + OctetPoly(m[|m| - 1])
  {
    hide Xor, OctetPoly, Shl;
    var p, o := MsgPoly(m[..|m| - 1]), OctetPoly(m[|m| - 1]);
    PolyOctet(m[|m| - 1]);
    ShlSmall(p);
    ShlSmall(0);
    Pow2Eight(0);
    XorSplit(8, 0, o, p, 0);
    XorZero(o);
    XorZero(p);
  }

  lemma {:induction false} MsgPolyInjective(u: seq<bv8>, v: seq<bv8>)
    requires |u| == |v| && MsgPoly(u) == MsgPoly(v)
    ensures u == v
  {
    hide *;
    if u != [] {
      var n := |u| - 1;
      MsgPolySplit(u);
      MsgPolySplit(v);
      PolyOctet(u[n]);
      PolyOctet(v[n]);
      SameDigits(MsgPoly(u[..n]), OctetPoly(u[n]), MsgPoly(v[..n]), OctetPoly(v[n]));
      MsgPolyInjective(u[..n], v[..n]);
      OctetInjective(u[n], v[n]);
      assert u == u[..n] + [u[n]] && v == v[..n] + [v[n]];
    }
  }

  lemma SameDigits(a: nat, o: nat, b: nat, q: nat)
    requires o < 256 && q < 256 && 256 * a + o == 256 * b + q
    ensures a == b && o == q
  {
  }

  lemma OctetInjective(a: bv8, b: bv8)
    requires OctetPoly(a) == OctetPoly(b)
    ensures a == b
  {
    hide Poly;
    PolyInjective(a as Reg, b as Reg);
  }

  /** The update for a fixed message loses nothing of the register. */
  lemma SerialInjective(c: Reg, d: Reg, m: seq<bv8>)
    requires Serial(c, m) == Serial(d, m)
    ensures c == d
  {
    hide Rem, G, Shl, Xor, Poly, Serial;
    SerialRemainder(c, m);
    SerialRemainder(d, m);
    var t := Shl(MsgPoly(m), 64);
    XorComm(Shl(Poly(c), 8 * |m|), t);
    XorComm(Shl(Poly(d), 8 * |m|), t);
    PolyBelow(c);
    PolyBelow(d);
    SameRemainder(t, Poly(c), Poly(d), 8 * |m|);
    PolyInjective(c, d);
  }

  /** Buffers that differ only within eight consecutive octets have different CRCs. */
  lemma BurstDetected(p: seq<bv8>, u: seq<bv8>, v: seq<bv8>, s: seq<bv8>)
    requires |u| == |v| <= 8 && u != v
    ensures CrcSpec(p + u + s) != CrcSpec(p + v + s)
  {
    hide Serial, Plus;
    var c := Serial(XOROUT, p);
    SerialConcat(XOROUT, p + u, s);
    SerialConcat(XOROUT, p + v, s);
    SerialConcat(XOROUT, p, u);
    SerialConcat(XOROUT, p, v);
    if CrcSpec(p + u + s) == CrcSpec(p + v + s) {
      PlusCancel(Serial(XOROUT, p + u + s), XOROUT);
      PlusCancel(Serial(XOROUT, p + v + s), XOROUT);
      SerialInjective(Serial(c, u), Serial(c, v), s);
      WindowInjective(c, u, v);
      assert false;
    }
  }

  lemma WindowInjective(c: Reg, u: seq<bv8>, v: seq<bv8>)
    requires |u| == |v| <= 8 && Serial(c, u) == Serial(c, v)
    ensures u == v
  {
    hide Rem, G, Shl, Xor, Poly, Serial, MsgPoly;
    SerialRemainder(c, u);
    SerialRemainder(c, v);
    MsgPolyBound(u);
    MsgPolyBound(v);
    Pow2Monotone(8 * |u|, 64);
    SameRemainder(Shl(Poly(c), 8 * |u|), MsgPoly(u), MsgPoly(v), 64);
    MsgPolyInjective(u, v);
  }

  // ----- a known value -----

  lemma SerialSnoc(c: Reg, m: seq<bv8>, b: bv8)
    ensures Serial(c, []) == c && Serial(c, m + [b]) == ByteStep(Serial(c, m), b)
  {
    hide ByteStep;
    assert (m + [b])[..|m|] == m;
  }

  /** The octets of "123456789" one by one. */
  lemma CheckSteps()
    ensures ByteStep(0xffffffffffffffff, 0x31) == 0x8db4713229b2f2a5
    ensures ByteStep(0x8db4713229b2f2a5, 0x32) == 0xf488d61a961b3128
    ensures ByteStep(0xf488d61a961b3128, 0x33) == 0x2a0bb93a7813ca88
    ensures ByteStep(0x2a0bb93a7813ca88, 0x34) == 0x33302b9fc23855a8
    ensures ByteStep(0x33302b9fc23855a8, 0x35) == 0xfcf93a5065c329f9
    ensures ByteStep(0xfcf93a5065c329f9, 0x36) == 0xc242b8ed1b26187a
    ensures ByteStep(0xc242b8ed1b26187a, 0x37) == 0xcfc30460a7cc7b9f
    ensures ByteStep(0xcfc30460a7cc7b9f, 0x38) == 0xcb9e4a0b1e7bf3b9
    ensures ByteStep(0xcb9e4a0b1e7bf3b9, 0x39) == 0x9d13a61c0e5b0ff5
  {
  }

  /** The check value of this CRC: that of the octets of "123456789". */
  lemma CheckValue()
    ensures CrcSpec([0x31, 0x32, 0x33, 0x34, 0x35, 0x36, 0x37, 0x38, 0x39]) == 0x62ec59e3f1a4f00a
  {
    CheckSteps();
    hide Serial, ByteStep;
    var m0: seq<bv8> := [];
    var m1: seq<bv8> := [0x31];
    SerialSnoc(XOROUT, m0, 0x31);
    assert m0 + [0x31] == m1;
    var m2: seq<bv8> := [0x31, 0x32];
    SerialSnoc(XOROUT, m1, 0x32);
    assert m1 + [0x32] == m2;
    var m3: seq<bv8> := [0x31, 0x32, 0x33];
    SerialSnoc(XOROUT, m2, 0x33);
    assert m2 + [0x33] == m3;
    var m4: seq<bv8> := [0x31, 0x32, 0x33, 0x34];
    SerialSnoc(XOROUT, m3, 0x34);
    assert m3 + [0x34] == m4;
    var m5: seq<bv8> := [0x31, 0x32, 0x33, 0x34, 0x35];
    SerialSnoc(XOROUT, m4, 0x35);
    assert m4 + [0x35] == m5;
    var m6: seq<bv8> := [0x31, 0x32, 0x33, 0x34, 0x35, 0x36];
    SerialSnoc(XOROUT, m5, 0x36);
    assert m5 + [0x36] == m6;
    var m7: seq<bv8> := [0x31, 0x32, 0x33, 0x34, 0x35, 0x36, 0x37];
    SerialSnoc(XOROUT, m6, 0x37);
    assert m6 + [0x37] == m7;
    var m8: seq<bv8> := [0x31, 0x32, 0x33, 0x34, 0x35, 0x36, 0x37, 0x38];
    SerialSnoc(XOROUT, m7, 0x38);
    assert m7 + [0x38] == m8;
    var m9: seq<bv8> := [0x31, 0x32, 0x33, 0x34, 0x35, 0x36, 0x37, 0x38, 0x39];
    SerialSnoc(XOROUT, m8, 0x39);
    assert m8 + [0x39] == m9;
  }

  // ----- credential identity -----

  /** The octets of a uid_t in memory order on a little-endian machine. */
  function UidOctets(uid: bv32): seq<bv8> {
    [(uid & 0xff) as bv8, ((uid >> 8) & 0xff) as bv8, ((uid >> 16) & 0xff) as bv8, ((uid >> 24) & 0xff) as bv8]
  }

  function SharedOctet(shared: bool): bv8 {
    if shared then 1 else 0
  }

  /** _credential_hash of a user credential: two updates, then the final complement. */
  function UserHash(uid: bv32, shared: bool): Reg {
    Plus(Serial(Serial(XOROUT, UidOctets(uid)), [SharedOctet(shared)]), XOROUT)
  }

  /** Credentials compare by hash; for user credentials that is exact. */
  lemma UserIdentityExact(uid: bv32, shared: bool, uid': bv32, shared': bool)
    ensures UserHash(uid, shared) == UserHash(uid', shared') <==> uid == uid' && shared == shared'
  {
    hide Serial, Plus, UidOctets;
    var u, v := UidOctets(uid) + [SharedOctet(shared)], UidOctets(uid') + [SharedOctet(shared')];
    SerialConcat(XOROUT, UidOctets(uid), [SharedOctet(shared)]);
    SerialConcat(XOROUT, UidOctets(uid'), [SharedOctet(shared')]);
    assert [] + u + [] == u && [] + v + [] == v;
    UidOctetsLength(uid);
    UidOctetsLength(uid');
    if u != v {
      BurstDetected([], u, v, []);
    } else {
      assert UidOctets(uid) == u[..4] && UidOctets(uid') == v[..4] && u[4] == v[4];
      UidOctetsInjective(uid, uid');
    }
  }

  lemma UidOctetsLength(uid: bv32)
    ensures |UidOctets(uid)| == 4
  {
  }

  lemma UidOctetsInjective(a: bv32, b: bv32)
    requires UidOctets(a) == UidOctets(b)
    ensures a == b
  {
    var s, t := UidOctets(a), UidOctets(b);
    assert s[0] == t[0] && s[1] == t[1] && s[2] == t[2] && s[3] == t[3];
  }
}
