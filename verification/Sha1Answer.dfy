/** SHA-1 of "abc", as FIPS 180-4 and its examples give it. */
module Sha1Answer {
  import opened Common
  import opened BlockHash
  import opened Sha1
  import opened KnownAnswers

  ghost predicate Words0(b: Block) {
    && W(b, 0) == 0x61626380 && W(b, 1) == 0x00000000 && W(b, 2) == 0x00000000 && W(b, 3) == 0x00000000
    && W(b, 4) == 0x00000000 && W(b, 5) == 0x00000000 && W(b, 6) == 0x00000000 && W(b, 7) == 0x00000000
    && W(b, 8) == 0x00000000 && W(b, 9) == 0x00000000 && W(b, 10) == 0x00000000 && W(b, 11) == 0x00000000
    && W(b, 12) == 0x00000000 && W(b, 13) == 0x00000000 && W(b, 14) == 0x00000000 && W(b, 15) == 0x00000018
  }

  ghost predicate Words1(b: Block) {
    && W(b, 16) == 0xc2c4c700 && W(b, 17) == 0x00000000 && W(b, 18) == 0x00000030 && W(b, 19) == 0x85898e01
    && W(b, 20) == 0x00000000 && W(b, 21) == 0x00000060 && W(b, 22) == 0x0b131c03 && W(b, 23) == 0x00000030
    && W(b, 24) == 0x85898ec1 && W(b, 25) == 0x16263806 && W(b, 26) == 0x00000000 && W(b, 27) == 0x00000180
    && W(b, 28) == 0x2c4c700c && W(b, 29) == 0x000000f0 && W(b, 30) == 0x93afb507 && W(b, 31) == 0x5898e048
  }

  ghost predicate Words2(b: Block) {
    && W(b, 32) == 0x8e9a9202 && W(b, 33) == 0x00000600 && W(b, 34) == 0xb131c0f0 && W(b, 35) == 0x16263bc6
    && W(b, 36) == 0x4ebed41e && W(b, 37) == 0x626380a1 && W(b, 38) == 0x16263806 && W(b, 39) == 0x000018c0
    && W(b, 40) == 0xd2e138c4 && W(b, 41) == 0x00000f00 && W(b, 42) == 0x3afb5079 && W(b, 43) == 0x898e04e5
    && W(b, 44) == 0xe2ba3c2b && W(b, 45) == 0x000060c0 && W(b, 46) == 0x053a37cd && W(b, 47) == 0x74458547
  }

  ghost predicate Words3(b: Block) {
    && W(b, 48) == 0xda9415ed && W(b, 49) == 0x26380a16 && W(b, 50) == 0x626383a1 && W(b, 51) == 0x4ebf54de
    && W(b, 52) == 0x3835b44b && W(b, 53) == 0x0000f600 && W(b, 54) == 0x1e84c7a3 && W(b, 55) == 0x98e04d98
    && W(b, 56) == 0x651d16a0 && W(b, 57) == 0x62658ca1 && W(b, 58) == 0x458544d6 && W(b, 59) == 0x44584cb7
    && W(b, 60) == 0x7ba06619 && W(b, 61) == 0x6380aea2 && W(b, 62) == 0x0ae55269 && W(b, 63) == 0x627b49a1
  }

  ghost predicate Words4(b: Block) {
    && W(b, 64) == 0x7cd45c9d && W(b, 65) == 0x000f0000 && W(b, 66) == 0xfb50753a && W(b, 67) == 0xec6765e8
    && W(b, 68) == 0xba3c2be2 && W(b, 69) == 0x0060c000 && W(b, 70) == 0x3a37cd05 && W(b, 71) == 0x458546f4
    && W(b, 72) == 0xb8599dd6 && W(b, 73) == 0x380a1a26 && W(b, 74) == 0x01e02203 && W(b, 75) == 0xe7cc3456
    && W(b, 76) == 0xe6e60b69 && W(b, 77) == 0x00f60a00 && W(b, 78) == 0x5795ef4f && W(b, 79) == 0x822e0879
  }

  lemma Loaded(b: Block)
    requires AbcBlock(b, 63)
    ensures Words0(b)
  {
    hide W;
    forall t | 0 <= t < 16 ensures W(b, t) == if t == 0 then 0x61626380 else if t == 15 then 24 else 0 {
      LoadOne(b, t);
      WStep(b, t);
    }
  }

  lemma LoadOne(b: Block, t: nat)
    requires AbcBlock(b, 63) && t < 16
    ensures LoadBig(b, t) == if t == 0 then 0x61626380 else if t == 15 then 24 else 0
  {
    Joined(b[4 * t], b[4 * t + 1], b[4 * t + 2], b[4 * t + 3]);
  }

  lemma Joined(x: Octet, y: Octet, z: Octet, w: Octet)
    ensures var j := ((x as Word) << 24) | ((y as Word) << 16) | ((z as Word) << 8) | (w as Word);
      && (x == 0x61 && y == 0x62 && z == 0x63 && w == 0x80 ==> j == 0x61626380)
      && (x == 0 && y == 0 && z == 0 ==> j == w as Word)
    ensures (24 as Octet) as Word == 24 && (0 as Octet) as Word == 0
  {
  }

  lemma Schedule1(b: Block)
    requires Words0(b)
    ensures Words1(b)
  {
    hide W;
    WStep(b, 16); WStep(b, 17); WStep(b, 18); WStep(b, 19); WStep(b, 20); WStep(b, 21); WStep(b, 22); WStep(b, 23);
    WStep(b, 24); WStep(b, 25); WStep(b, 26); WStep(b, 27); WStep(b, 28); WStep(b, 29); WStep(b, 30); WStep(b, 31);
  }

  lemma Schedule2(b: Block)
    requires Words1(b)
    ensures Words2(b)
  {
    hide W;
    WStep(b, 32); WStep(b, 33); WStep(b, 34); WStep(b, 35); WStep(b, 36); WStep(b, 37); WStep(b, 38); WStep(b, 39);
    WStep(b, 40); WStep(b, 41); WStep(b, 42); WStep(b, 43); WStep(b, 44); WStep(b, 45); WStep(b, 46); WStep(b, 47);
  }

  lemma Schedule3(b: Block)
    requires Words2(b)
    ensures Words3(b)
  {
    hide W;
    WStep(b, 48); WStep(b, 49); WStep(b, 50); WStep(b, 51); WStep(b, 52); WStep(b, 53); WStep(b, 54); WStep(b, 55);
    WStep(b, 56); WStep(b, 57); WStep(b, 58); WStep(b, 59); WStep(b, 60); WStep(b, 61); WStep(b, 62); WStep(b, 63);
  }

  lemma Schedule4(b: Block)
    requires Words3(b)
    ensures Words4(b)
  {
    hide W;
    WStep(b, 64); WStep(b, 65); WStep(b, 66); WStep(b, 67); WStep(b, 68); WStep(b, 69); WStep(b, 70); WStep(b, 71);
    WStep(b, 72); WStep(b, 73); WStep(b, 74); WStep(b, 75); WStep(b, 76); WStep(b, 77); WStep(b, 78); WStep(b, 79);
  }

  lemma Rounds0(b: Block)
    requires Words0(b) && Rounds(b, INITIAL, 0) == 
      State(0x67452301, 0xefcdab89, 0x98badcfe, 0x10325476, 0xc3d2e1f0)
    ensures Rounds(b, INITIAL, 16) == 
      State(0x20bdd62f, 0x196bee77, 0x644a3da5, 0x1181ed99, 0x18c623f9)
  {
    hide W, Rounds;
    RoundsStep(b, INITIAL, 1); RoundsStep(b, INITIAL, 2); RoundsStep(b, INITIAL, 3); RoundsStep(b, INITIAL, 4);
    RoundsStep(b, INITIAL, 5); RoundsStep(b, INITIAL, 6); RoundsStep(b, INITIAL, 7); RoundsStep(b, INITIAL, 8);
    RoundsStep(b, INITIAL, 9); RoundsStep(b, INITIAL, 10); RoundsStep(b, INITIAL, 11); RoundsStep(b, INITIAL, 12);
    RoundsStep(b, INITIAL, 13); RoundsStep(b, INITIAL, 14); RoundsStep(b, INITIAL, 15); RoundsStep(b, INITIAL, 16);
  }

  lemma Rounds1(b: Block)
    requires Words1(b) && Rounds(b, INITIAL, 16) == 
      State(0x20bdd62f, 0x196bee77, 0x644a3da5, 0x1181ed99, 0x18c623f9)
    ensures Rounds(b, INITIAL, 32) == 
      State(0x3b845d33, 0x1267b407, 0x717eebd7, 0xa0dc2d4b, 0xd2aa1365)
  {
    hide W, Rounds;
    RoundsStep(b, INITIAL, 17); RoundsStep(b, INITIAL, 18); RoundsStep(b, INITIAL, 19); RoundsStep(b, INITIAL, 20);
    RoundsStep(b, INITIAL, 21); RoundsStep(b, INITIAL, 22); RoundsStep(b, INITIAL, 23); RoundsStep(b, INITIAL, 24);
    RoundsStep(b, INITIAL, 25); RoundsStep(b, INITIAL, 26); RoundsStep(b, INITIAL, 27); RoundsStep(b, INITIAL, 28);
    RoundsStep(b, INITIAL, 29); RoundsStep(b, INITIAL, 30); RoundsStep(b, INITIAL, 31); RoundsStep(b, INITIAL, 32);
  }

  lemma Rounds2(b: Block)
    requires Words2(b) && Rounds(b, INITIAL, 32) == 
      State(0x3b845d33, 0x1267b407, 0x717eebd7, 0xa0dc2d4b, 0xd2aa1365)
    ensures Rounds(b, INITIAL, 48) == 
      State(0xbead02ca, 0xa01b846c, 0x8714787c, 0x503ca382, 0xfb86c6ab)
  {
    hide W, Rounds;
    RoundsStep(b, INITIAL, 33); RoundsStep(b, INITIAL, 34); RoundsStep(b, INITIAL, 35); RoundsStep(b, INITIAL, 36);
    RoundsStep(b, INITIAL, 37); RoundsStep(b, INITIAL, 38); RoundsStep(b, INITIAL, 39); RoundsStep(b, INITIAL, 40);
    RoundsStep(b, INITIAL, 41); RoundsStep(b, INITIAL, 42); RoundsStep(b, INITIAL, 43); RoundsStep(b, INITIAL, 44);
    RoundsStep(b, INITIAL, 45); RoundsStep(b, INITIAL, 46); RoundsStep(b, INITIAL, 47); RoundsStep(b, INITIAL, 48);
  }

  lemma Rounds3(b: Block)
    requires Words3(b) && Rounds(b, INITIAL, 48) == 
      State(0xbead02ca, 0xa01b846c, 0x8714787c, 0x503ca382, 0xfb86c6ab)
    ensures Rounds(b, INITIAL, 64) == 
      State(0x6b61c9e1, 0xb66c020b, 0x9523272c, 0xf5d5b051, 0x8fd4b796)
  {
    hide W, Rounds;
    RoundsStep(b, INITIAL, 49); RoundsStep(b, INITIAL, 50); RoundsStep(b, INITIAL, 51); RoundsStep(b, INITIAL, 52);
    RoundsStep(b, INITIAL, 53); RoundsStep(b, INITIAL, 54); RoundsStep(b, INITIAL, 55); RoundsStep(b, INITIAL, 56);
    RoundsStep(b, INITIAL, 57); RoundsStep(b, INITIAL, 58); RoundsStep(b, INITIAL, 59); RoundsStep(b, INITIAL, 60);
    RoundsStep(b, INITIAL, 61); RoundsStep(b, INITIAL, 62); RoundsStep(b, INITIAL, 63); RoundsStep(b, INITIAL, 64);
  }

  lemma Rounds4(b: Block)
    requires Words4(b) && Rounds(b, INITIAL, 64) == 
      State(0x6b61c9e1, 0xb66c020b, 0x9523272c, 0xf5d5b051, 0x8fd4b796)
    ensures Rounds(b, INITIAL, 80) == 
      State(0x42541b35, 0x5738d5e1, 0x21834873, 0x681e6df6, 0xd8fdf6ad)
  {
    hide W, Rounds;
    RoundsStep(b, INITIAL, 65); RoundsStep(b, INITIAL, 66); RoundsStep(b, INITIAL, 67); RoundsStep(b, INITIAL, 68);
    RoundsStep(b, INITIAL, 69); RoundsStep(b, INITIAL, 70); RoundsStep(b, INITIAL, 71); RoundsStep(b, INITIAL, 72);
    RoundsStep(b, INITIAL, 73); RoundsStep(b, INITIAL, 74); RoundsStep(b, INITIAL, 75); RoundsStep(b, INITIAL, 76);
    RoundsStep(b, INITIAL, 77); RoundsStep(b, INITIAL, 78); RoundsStep(b, INITIAL, 79); RoundsStep(b, INITIAL, 80);
  }

  lemma Compressed(b: Block)
    requires AbcBlock(b, 63)
    ensures Compress(INITIAL, b) ==
      State(0xa9993e36, 0x4706816a, 0xba3e2571, 0x7850c26c, 0x9cd0d89d)
  {
    hide W, Rounds;
    Loaded(b);
    Schedule1(b);
    Schedule2(b);
    Schedule3(b);
    Schedule4(b);
    RoundsStep(b, INITIAL, 0);
    Rounds0(b);
    Rounds1(b);
    Rounds2(b);
    Rounds3(b);
    Rounds4(b);
  }

  /** The digest of "abc". */
  lemma Answer()
    ensures Digest(ABC) == [
      0xa9, 0x99, 0x3e, 0x36, 0x47, 0x06, 0x81, 0x6a, 0xba, 0x3e, 0x25, 0x71, 0x78, 0x50, 0xc2, 0x6c,
      0x9c, 0xd0, 0xd8, 0x9d]
  {
    hide Compress, Absorb, Pad;
    PaddedBig();
    var b: Block := Pad(ABC, BigEndian64(24));
    OneBlock(Compress, INITIAL, b);
    Compressed(b);
  }
}
