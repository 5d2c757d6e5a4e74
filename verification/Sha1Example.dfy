/** The example of FIPS 180: the digest of the message "abc", which takes every constant and every function of
    the standard. */
module Sha1Example {
  import opened Sha1Spec

  const ABC: seq<Byte> := [0x61, 0x62, 0x63]

  /** The one block of the padded message. */
  const BLOCK: seq<Byte> := ABC + [0x80] + Zeros(59) + [0x18]

  lemma BlockBytes()
    ensures |BLOCK| == 64 && BLOCK[..4] == ABC + [0x80] && BLOCK[63] == 0x18
    ensures forall k :: 4 <= k < 63 ==> BLOCK[k] == 0
  {
  }

  predicate Words0() {
    && W(BLOCK, 0) == 0x61626380 && W(BLOCK, 1) == 0x00000000 && W(BLOCK, 2) == 0x00000000
    && W(BLOCK, 3) == 0x00000000 && W(BLOCK, 4) == 0x00000000 && W(BLOCK, 5) == 0x00000000
    && W(BLOCK, 6) == 0x00000000 && W(BLOCK, 7) == 0x00000000 && W(BLOCK, 8) == 0x00000000
    && W(BLOCK, 9) == 0x00000000 && W(BLOCK, 10) == 0x00000000 && W(BLOCK, 11) == 0x00000000
    && W(BLOCK, 12) == 0x00000000 && W(BLOCK, 13) == 0x00000000 && W(BLOCK, 14) == 0x00000000
    && W(BLOCK, 15) == 0x00000018
  }

  lemma Schedule0()
    ensures Words0()
  {
    BlockBytes();
    hide Zeros;
  }

  predicate Words1() {
    && W(BLOCK, 16) == 0xC2C4C700 && W(BLOCK, 17) == 0x00000000 && W(BLOCK, 18) == 0x00000030
    && W(BLOCK, 19) == 0x85898E01 && W(BLOCK, 20) == 0x00000000 && W(BLOCK, 21) == 0x00000060
    && W(BLOCK, 22) == 0x0B131C03 && W(BLOCK, 23) == 0x00000030 && W(BLOCK, 24) == 0x85898EC1
    && W(BLOCK, 25) == 0x16263806 && W(BLOCK, 26) == 0x00000000 && W(BLOCK, 27) == 0x00000180
    && W(BLOCK, 28) == 0x2C4C700C && W(BLOCK, 29) == 0x000000F0 && W(BLOCK, 30) == 0x93AFB507
    && W(BLOCK, 31) == 0x5898E048
  }

  lemma Schedule1()
    requires Words0()
    ensures Words1()
  {
  }

  predicate Words2() {
    && W(BLOCK, 32) == 0x8E9A9202 && W(BLOCK, 33) == 0x00000600 && W(BLOCK, 34) == 0xB131C0F0
    && W(BLOCK, 35) == 0x16263BC6 && W(BLOCK, 36) == 0x4EBED41E && W(BLOCK, 37) == 0x626380A1
    && W(BLOCK, 38) == 0x16263806 && W(BLOCK, 39) == 0x000018C0 && W(BLOCK, 40) == 0xD2E138C4
    && W(BLOCK, 41) == 0x00000F00 && W(BLOCK, 42) == 0x3AFB5079 && W(BLOCK, 43) == 0x898E04E5
    && W(BLOCK, 44) == 0xE2BA3C2B && W(BLOCK, 45) == 0x000060C0 && W(BLOCK, 46) == 0x053A37CD
    && W(BLOCK, 47) == 0x74458547
  }

  lemma Schedule2()
    requires Words1()
    ensures Words2()
  {
  }

  predicate Words3() {
    && W(BLOCK, 48) == 0xDA9415ED && W(BLOCK, 49) == 0x26380A16 && W(BLOCK, 50) == 0x626383A1
    && W(BLOCK, 51) == 0x4EBF54DE && W(BLOCK, 52) == 0x3835B44B && W(BLOCK, 53) == 0x0000F600
    && W(BLOCK, 54) == 0x1E84C7A3 && W(BLOCK, 55) == 0x98E04D98 && W(BLOCK, 56) == 0x651D16A0
    && W(BLOCK, 57) == 0x62658CA1 && W(BLOCK, 58) == 0x458544D6 && W(BLOCK, 59) == 0x44584CB7
    && W(BLOCK, 60) == 0x7BA06619 && W(BLOCK, 61) == 0x6380AEA2 && W(BLOCK, 62) == 0x0AE55269
    && W(BLOCK, 63) == 0x627B49A1
  }

  lemma Schedule3()
    requires Words2()
    ensures Words3()
  {
  }

  predicate Words4() {
    && W(BLOCK, 64) == 0x7CD45C9D && W(BLOCK, 65) == 0x000F0000 && W(BLOCK, 66) == 0xFB50753A
    && W(BLOCK, 67) == 0xEC6765E8 && W(BLOCK, 68) == 0xBA3C2BE2 && W(BLOCK, 69) == 0x0060C000
    && W(BLOCK, 70) == 0x3A37CD05 && W(BLOCK, 71) == 0x458546F4 && W(BLOCK, 72) == 0xB8599DD6
    && W(BLOCK, 73) == 0x380A1A26 && W(BLOCK, 74) == 0x01E02203 && W(BLOCK, 75) == 0xE7CC3456
    && W(BLOCK, 76) == 0xE6E60B69 && W(BLOCK, 77) == 0x00F60A00 && W(BLOCK, 78) == 0x5795EF4F
    && W(BLOCK, 79) == 0x822E0879
  }

  lemma Schedule4()
    requires Words3()
    ensures Words4()
  {
  }

  lemma Rounds0()
    requires Words0()
    ensures Rounds(BLOCK, H0, 16) == Registers(0x20BDD62F, 0x196BEE77, 0x644A3DA5, 0x1181ED99, 0x18C623F9)
  {
    hide W;
    assert Rounds(BLOCK, H0, 0) == H0;
    assert Rounds(BLOCK, H0, 1) == Registers(0x0116FC33, 0x67452301, 0x7BF36AE2, 0x98BADCFE, 0x10325476);
    assert Rounds(BLOCK, H0, 3) == Registers(0xA1390F08, 0x8990536D, 0xC045BF0C, 0x59D148C0, 0x7BF36AE2);
    assert Rounds(BLOCK, H0, 5) == Registers(0xCFD499DE, 0xCDD8E11B, 0x284E43C2, 0x626414DB, 0xC045BF0C);
    assert Rounds(BLOCK, H0, 7) == Registers(0x993E30C1, 0x3FC7CA40, 0xB3F52677, 0xF3763846, 0x284E43C2);
    assert Rounds(BLOCK, H0, 9) == Registers(0x4B6AE328, 0x9E8C07D4, 0x664F8C30, 0x0FF1F290, 0xB3F52677);
    assert Rounds(BLOCK, H0, 11) == Registers(0xFBDA9E89, 0x8351F929, 0x12DAB8CA, 0x27A301F5, 0x664F8C30);
    assert Rounds(BLOCK, H0, 13) == Registers(0x4607B664, 0x63188FE4, 0x7EF6A7A2, 0x60D47E4A, 0x12DAB8CA);
    assert Rounds(BLOCK, H0, 15) == Registers(0x196BEE77, 0x9128F695, 0x1181ED99, 0x18C623F9, 0x7EF6A7A2);
  }

  lemma Rounds1()
    requires Words1()
    requires Rounds(BLOCK, H0, 16) == Registers(0x20BDD62F, 0x196BEE77, 0x644A3DA5, 0x1181ED99, 0x18C623F9)
    ensures Rounds(BLOCK, H0, 32) == Registers(0x3B845D33, 0x1267B407, 0x717EEBD7, 0xA0DC2D4B, 0xD2AA1365)
  {
    hide W;
    assert Rounds(BLOCK, H0, 18) == Registers(0x82AA6728, 0x4E925823, 0xC82F758B, 0xC65AFB9D, 0x644A3DA5);
    assert Rounds(BLOCK, H0, 20) == Registers(0xFD9E1D7D, 0xDC64901D, 0x20AA99CA, 0xD3A49608, 0xC82F758B);
    assert Rounds(BLOCK, H0, 22) == Registers(0x33A23BFC, 0x1A37B0CA, 0x7F67875F, 0x77192407, 0x20AA99CA);
    assert Rounds(BLOCK, H0, 24) == Registers(0xD541F12D, 0x21283486, 0x0CE88EFF, 0x868DEC32, 0x7F67875F);
    assert Rounds(BLOCK, H0, 26) == Registers(0x48413BA4, 0xC7567DC6, 0x75507C4B, 0x884A0D21, 0x0CE88EFF);
    assert Rounds(BLOCK, H0, 28) == Registers(0x4AA84D97, 0xBE35FBD5, 0x12104EE9, 0xB1D59F71, 0x75507C4B);
    assert Rounds(BLOCK, H0, 30) == Registers(0xC5FBAF5D, 0x8370B52E, 0xD2AA1365, 0x6F8D7EF5, 0x12104EE9);
  }

  lemma Rounds2()
    requires Words2()
    requires Rounds(BLOCK, H0, 32) == Registers(0x3B845D33, 0x1267B407, 0x717EEBD7, 0xA0DC2D4B, 0xD2AA1365)
    ensures Rounds(BLOCK, H0, 48) == Registers(0xBEAD02CA, 0xA01B846C, 0x8714787C, 0x503CA382, 0xFB86C6AB)
  {
    hide W;
    assert Rounds(BLOCK, H0, 34) == Registers(0x2C0EBC11, 0x046FAA0A, 0xCEE1174C, 0xC499ED01, 0x717EEBD7);
    assert Rounds(BLOCK, H0, 36) == Registers(0xDCBBB0CB, 0x21796AD4, 0x4B03AF04, 0x811BEA82, 0xCEE1174C);
    assert Rounds(BLOCK, H0, 38) == Registers(0xDC63973F, 0x0F511FD8, 0xF72EEC32, 0x085E5AB5, 0x4B03AF04);
    assert Rounds(BLOCK, H0, 40) == Registers(0x32DE1CBA, 0x4C986405, 0xF718E5CF, 0x03D447F6, 0xF72EEC32);
    assert Rounds(BLOCK, H0, 42) == Registers(0x970A0D5C, 0xFC87DEDF, 0x8CB7872E, 0x53261901, 0xF718E5CF);
    assert Rounds(BLOCK, H0, 44) == Registers(0xEE1B1AAF, 0x7F193DC5, 0x25C28357, 0xFF21F7B7, 0x8CB7872E);
    assert Rounds(BLOCK, H0, 46) == Registers(0x1C51E1F2, 0x40F28E09, 0xFB86C6AB, 0x5FC64F71, 0x25C28357);
  }

  lemma Rounds3()
    requires Words3()
    requires Rounds(BLOCK, H0, 48) == Registers(0xBEAD02CA, 0xA01B846C, 0x8714787C, 0x503CA382, 0xFB86C6AB)
    ensures Rounds(BLOCK, H0, 64) == Registers(0x6B61C9E1, 0xB66C020B, 0x9523272C, 0xF5D5B051, 0x8FD4B796)
  {
    hide W;
    assert Rounds(BLOCK, H0, 50) == Registers(0x120731C5, 0xBAF39337, 0xAFAB40B2, 0x2806E11B, 0x8714787C);
    assert Rounds(BLOCK, H0, 52) == Registers(0x3847AD66, 0x641DB2CE, 0x4481CC71, 0xEEBCE4CD, 0xAFAB40B2);
    assert Rounds(BLOCK, H0, 54) == Registers(0x27E9F1D8, 0xE490436D, 0x8E11EB59, 0x99076CB3, 0x4481CC71);
    assert Rounds(BLOCK, H0, 56) == Registers(0x5E6456AF, 0x7B71F76D, 0x09FA7C76, 0x792410DB, 0x8E11EB59);
    assert Rounds(BLOCK, H0, 58) == Registers(0xD262FF50, 0xC846093F, 0xD79915AB, 0x5EDC7DDB, 0x09FA7C76);
    assert Rounds(BLOCK, H0, 60) == Registers(0x3F52DE5A, 0x09D785FD, 0x3498BFD4, 0xF211824F, 0xD79915AB);
    assert Rounds(BLOCK, H0, 62) == Registers(0x548C9CB2, 0xD756C147, 0x8FD4B796, 0x4275E17F, 0x3498BFD4);
  }

  lemma Rounds4()
    requires Words4()
    requires Rounds(BLOCK, H0, 64) == Registers(0x6B61C9E1, 0xB66C020B, 0x9523272C, 0xF5D5B051, 0x8FD4B796)
    ensures Rounds(BLOCK, H0, 80) == Registers(0x42541B35, 0x5738D5E1, 0x21834873, 0x681E6DF6, 0xD8FDF6AD)
  {
    hide W;
    assert Rounds(BLOCK, H0, 66) == Registers(0x101655F9, 0x19DFA7AC, 0x5AD87278, 0xED9B0082, 0x9523272C);
    assert Rounds(BLOCK, H0, 68) == Registers(0x78DD4D2B, 0x0C3DF2B4, 0x4405957E, 0x0677E9EB, 0x5AD87278);
    assert Rounds(BLOCK, H0, 70) == Registers(0x3F2588C2, 0x497093C0, 0xDE37534A, 0x030F7CAD, 0x4405957E);
    assert Rounds(BLOCK, H0, 72) == Registers(0x39859DE7, 0xC199F8C7, 0x8FC96230, 0x125C24F0, 0xDE37534A);
    assert Rounds(BLOCK, H0, 74) == Registers(0x11793F6F, 0xEDB42DE4, 0xCE616779, 0xF0667E31, 0x8FC96230);
    assert Rounds(BLOCK, H0, 76) == Registers(0x63F7DAB7, 0x5EE76897, 0xC45E4FDB, 0x3B6D0B79, 0xCE616779);
    assert Rounds(BLOCK, H0, 78) == Registers(0x860D21CC, 0xA079B7D9, 0xD8FDF6AD, 0xD7B9DA25, 0xC45E4FDB);
  }

  /** The padded message is the block. */
  lemma AbcPadded()
    ensures Padded(ABC) == BLOCK && |BLOCK| == 64
  {
    hide NumberBytes, LowByte;
    NumberBytesSmall(24, 8);
    LengthByte();
    assert Zeros(52) + Zeros(7) == Zeros(59);
  }

  lemma LengthByte()
    ensures LowByte(24) == 0x18 && LowByte(0) == 0
  {
  }

  lemma {:induction false} NumberBytesSmall(x: nat, n: nat)
    requires x < 0x100 && n > 0
    ensures NumberBytes(x, n) == Zeros(n - 1) + [LowByte(x)]
  {
    assert NumberBytes(x, n) == NumberBytes(x / 0x100, n - 1) + [LowByte(x)];
    if n > 1 {
      NumberBytesSmall(0, n - 1);
      LengthByte();
      assert Zeros(n - 2) + [0] == Zeros(n - 1);
    }
  }

  /** The hash value after the block. */
  lemma AbcHash()
    ensures HashBlocks(H0, Padded(ABC)) == Registers(0xA9993E36, 0x4706816A, 0xBA3E2571, 0x7850C26C, 0x9CD0D89D)
  {
    hide W, Rounds;
    AbcPadded();
    Schedule0();
    Schedule1();
    Schedule2();
    Schedule3();
    Schedule4();
    Rounds0();
    Rounds1();
    Rounds2();
    Rounds3();
    Rounds4();
    assert BLOCK[..64] == BLOCK && BLOCK[64..] == [];
  }

  /** The digest of "abc". */
  lemma AbcDigest()
    ensures Digest(ABC) == [
      0xA9, 0x99, 0x3E, 0x36, 0x47, 0x06, 0x81, 0x6A, 0xBA, 0x3E,
      0x25, 0x71, 0x78, 0x50, 0xC2, 0x6C, 0x9C, 0xD0, 0xD8, 0x9D]
  {
    hide HashBlocks, Padded;
    AbcHash();
  }
}
