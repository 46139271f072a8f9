/** MD5 of "abc", as section A.5 of RFC 1321 gives it. */
module Md5Answer {
  import opened Common
  import opened BlockHash
  import opened Md5
  import opened KnownAnswers

  ghost predicate AbcWords(x: Words) {
    forall t :: 0 <= t < 16 ==> x[t] == if t == 0 then 0x80636261 else if t == 14 then 24 else 0
  }

  lemma Loaded(b: Block)
    requires AbcBlock(b, 56)
    ensures AbcWords(LoadWords(b))
  {
    forall t | 0 <= t < 16 ensures LoadWords(b)[t] == if t == 0 then 0x80636261 else if t == 14 then 24 else 0 {
      Joined(b[4 * t], b[4 * t + 1], b[4 * t + 2], b[4 * t + 3]);
    }
  }

  lemma Joined(x: Octet, y: Octet, z: Octet, w: Octet)
    ensures var j := (x as Word) | ((y as Word) << 8) | ((z as Word) << 16) | ((w as Word) << 24);
      && (x == 0x61 && y == 0x62 && z == 0x63 && w == 0x80 ==> j == 0x80636261)
      && (y == 0 && z == 0 && w == 0 ==> j == x as Word)
    ensures (24 as Octet) as Word == 24 && (0 as Octet) as Word == 0
  {
  }

  lemma Steps1(x: Words)
    requires AbcWords(x) && Steps(x, INITIAL, 0) == State(0x67452301, 0xefcdab89, 0x98badcfe, 0x10325476)
    ensures Steps(x, INITIAL, 16) == State(0xdda9b9a6, 0x72aff2e0, 0xe396856b, 0xa1051895)
  {
    hide Steps, T, Fun, WordIndex, Amount;
    Schedule1();
    Constants1();
    StepsStep(x, INITIAL, 0); StepsStep(x, INITIAL, 1); StepsStep(x, INITIAL, 2); StepsStep(x, INITIAL, 3);
    StepsStep(x, INITIAL, 4); StepsStep(x, INITIAL, 5); StepsStep(x, INITIAL, 6); StepsStep(x, INITIAL, 7);
    StepsStep(x, INITIAL, 8); StepsStep(x, INITIAL, 9); StepsStep(x, INITIAL, 10); StepsStep(x, INITIAL, 11);
    StepsStep(x, INITIAL, 12); StepsStep(x, INITIAL, 13); StepsStep(x, INITIAL, 14); StepsStep(x, INITIAL, 15);
  }

  lemma Steps2(x: Words)
    requires AbcWords(x) && Steps(x, INITIAL, 16) == State(0xdda9b9a6, 0x72aff2e0, 0xe396856b, 0xa1051895)
    ensures Steps(x, INITIAL, 32) == State(0x790a77fb, 0x726342d3, 0xa62884aa, 0x9f47e4f8)
  {
    hide Steps, T, Fun, WordIndex, Amount;
    Schedule2();
    Constants2();
    StepsStep(x, INITIAL, 16); StepsStep(x, INITIAL, 17); StepsStep(x, INITIAL, 18); StepsStep(x, INITIAL, 19);
    StepsStep(x, INITIAL, 20); StepsStep(x, INITIAL, 21); StepsStep(x, INITIAL, 22); StepsStep(x, INITIAL, 23);
    StepsStep(x, INITIAL, 24); StepsStep(x, INITIAL, 25); StepsStep(x, INITIAL, 26); StepsStep(x, INITIAL, 27);
    StepsStep(x, INITIAL, 28); StepsStep(x, INITIAL, 29); StepsStep(x, INITIAL, 30); StepsStep(x, INITIAL, 31);
  }

  lemma Steps3(x: Words)
    requires AbcWords(x) && Steps(x, INITIAL, 32) == State(0x790a77fb, 0x726342d3, 0xa62884aa, 0x9f47e4f8)
    ensures Steps(x, INITIAL, 48) == State(0x7f2e507b, 0x7beb9700, 0x8fae6399, 0x99d9679d)
  {
    hide Steps, T, Fun, WordIndex, Amount;
    Schedule3();
    Constants3();
    StepsStep(x, INITIAL, 32); StepsStep(x, INITIAL, 33); StepsStep(x, INITIAL, 34); StepsStep(x, INITIAL, 35);
    StepsStep(x, INITIAL, 36); StepsStep(x, INITIAL, 37); StepsStep(x, INITIAL, 38); StepsStep(x, INITIAL, 39);
    StepsStep(x, INITIAL, 40); StepsStep(x, INITIAL, 41); StepsStep(x, INITIAL, 42); StepsStep(x, INITIAL, 43);
    StepsStep(x, INITIAL, 44); StepsStep(x, INITIAL, 45); StepsStep(x, INITIAL, 46); StepsStep(x, INITIAL, 47);
  }

  lemma Steps4(x: Words)
    requires AbcWords(x) && Steps(x, INITIAL, 48) == State(0x7f2e507b, 0x7beb9700, 0x8fae6399, 0x99d9679d)
    ensures Steps(x, INITIAL, 64) == State(0x310ade8f, 0xc08226b3, 0xe484b9d8, 0x624d8cb2)
  {
    hide Steps, T, Fun, WordIndex, Amount;
    Schedule4();
    Constants4();
    StepsStep(x, INITIAL, 48); StepsStep(x, INITIAL, 49); StepsStep(x, INITIAL, 50); StepsStep(x, INITIAL, 51);
    StepsStep(x, INITIAL, 52); StepsStep(x, INITIAL, 53); StepsStep(x, INITIAL, 54); StepsStep(x, INITIAL, 55);
    StepsStep(x, INITIAL, 56); StepsStep(x, INITIAL, 57); StepsStep(x, INITIAL, 58); StepsStep(x, INITIAL, 59);
    StepsStep(x, INITIAL, 60); StepsStep(x, INITIAL, 61); StepsStep(x, INITIAL, 62); StepsStep(x, INITIAL, 63);
  }

  lemma Compressed(b: Block)
    requires AbcBlock(b, 56)
    ensures Compress(INITIAL, b) == State(0x98500190, 0xb04fd23c, 0x7d3f96d6, 0x727fe128)
  {
    hide Steps, LoadWords;
    Loaded(b);
    var x := LoadWords(b);
    StepsNone(x, INITIAL);
    Steps1(x);
    Steps2(x);
    Steps3(x);
    Steps4(x);
  }

  /** The digest of "abc". */
  lemma Answer()
    ensures Digest(ABC) == [
      0x90, 0x01, 0x50, 0x98, 0x3c, 0xd2, 0x4f, 0xb0, 0xd6, 0x96, 0x3f, 0x7d, 0x28, 0xe1, 0x7f, 0x72]
  {
    hide Compress, Absorb, Pad;
    PaddedLittle();
    var b: Block := Pad(ABC, LittleEndian64(24));
    OneBlock(Compress, INITIAL, b);
    Compressed(b);
  }
}
