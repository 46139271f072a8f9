/** MD5: the streaming context computes the digest of sections 3.1 to 3.5 of RFC 1321,
    however the message is cut into updates. */
module Md5 {
  import opened Common
  import opened BlockHash

  datatype State = State(a: Word, b: Word, c: Word, d: Word)

  type Words = x: seq<Word> | |x| == 16 witness seq(16, i => 0)

  const INITIAL: State := State(0x67452301, 0xefcdab89, 0x98badcfe, 0x10325476)

  function F(x: Word, y: Word, z: Word): Word { (x & y) | (!x & z) }
  function G(x: Word, y: Word, z: Word): Word { (x & z) | (y & !z) }
  function H(x: Word, y: Word, z: Word): Word { x ^ y ^ z }
  function I(x: Word, y: Word, z: Word): Word { y ^ (x | !z) }

  /** b + ((a + f + x + t) <<< s). */
  function Mix(f: Word, a: Word, b: Word, x: Word, s: bv6, t: Word): Word
    requires s <= 32
  {
    Add(RotL(Add(Add(Add(a, f), x), t), s), b)
  }

  // ----- Section 3.4: the 64 operations as one rule -----

  function Fun(i: nat, x: Word, y: Word, z: Word): Word {
    if i < 16 then F(x, y, z) else if i < 32 then G(x, y, z) else if i < 48 then H(x, y, z) else I(x, y, z)
  }

  /** The word of the block that operation i uses. */
  function WordIndex(i: nat): (k: nat)
    ensures k < 16
  {
    if i < 16 then i
    else if i < 32 then (5 * i + 1) % 16
    else if i < 48 then (3 * i + 5) % 16
    else 7 * i % 16
  }

  /** The rotation of operation i. */
  function Amount(i: nat): (s: bv6)
    ensures s <= 32
  {
    if i < 16 then [7, 12, 17, 22][i % 4]
    else if i < 32 then [5, 9, 14, 20][i % 4]
    else if i < 48 then [4, 11, 16, 23][i % 4]
    else [6, 10, 15, 21][i % 4]
  }

  function T1(i: nat): Word {
    match i
    case 0 => 0xd76aa478 case 1 => 0xe8c7b756 case 2 => 0x242070db case 3 => 0xc1bdceee
    case 4 => 0xf57c0faf case 5 => 0x4787c62a case 6 => 0xa8304613 case 7 => 0xfd469501
    case 8 => 0x698098d8 case 9 => 0x8b44f7af case 10 => 0xffff5bb1 case 11 => 0x895cd7be
    case 12 => 0x6b901122 case 13 => 0xfd987193 case 14 => 0xa679438e case 15 => 0x49b40821
    case _ => 0
  }

  function T2(i: nat): Word {
    match i
    case 16 => 0xf61e2562 case 17 => 0xc040b340 case 18 => 0x265e5a51 case 19 => 0xe9b6c7aa
    case 20 => 0xd62f105d case 21 => 0x02441453 case 22 => 0xd8a1e681 case 23 => 0xe7d3fbc8
    case 24 => 0x21e1cde6 case 25 => 0xc33707d6 case 26 => 0xf4d50d87 case 27 => 0x455a14ed
    case 28 => 0xa9e3e905 case 29 => 0xfcefa3f8 case 30 => 0x676f02d9 case 31 => 0x8d2a4c8a
    case _ => 0
  }

  function T3(i: nat): Word {
    match i
    case 32 => 0xfffa3942 case 33 => 0x8771f681 case 34 => 0x6d9d6122 case 35 => 0xfde5380c
    case 36 => 0xa4beea44 case 37 => 0x4bdecfa9 case 38 => 0xf6bb4b60 case 39 => 0xbebfbc70
    case 40 => 0x289b7ec6 case 41 => 0xeaa127fa case 42 => 0xd4ef3085 case 43 => 0x04881d05
    case 44 => 0xd9d4d039 case 45 => 0xe6db99e5 case 46 => 0x1fa27cf8 case 47 => 0xc4ac5665
    case _ => 0
  }

  function T4(i: nat): Word {
    match i
    case 48 => 0xf4292244 case 49 => 0x432aff97 case 50 => 0xab9423a7 case 51 => 0xfc93a039
    case 52 => 0x655b59c3 case 53 => 0x8f0ccc92 case 54 => 0xffeff47d case 55 => 0x85845dd1
    case 56 => 0x6fa87e4f case 57 => 0xfe2ce6e0 case 58 => 0xa3014314 case 59 => 0x4e0811a1
    case 60 => 0xf7537e82 case 61 => 0xbd3af235 case 62 => 0x2ad7d2bb case 63 => 0xeb86d391
    case _ => 0
  }

  /** The additive constants. */
  function T(i: nat): Word {
    if i < 16 then T1(i) else if i < 32 then T2(i) else if i < 48 then T3(i) else T4(i)
  }

  function Step(x: Words, s: State, i: nat): State {
    State(s.d, Mix(Fun(i, s.b, s.c, s.d), s.a, s.b, x[WordIndex(i)], Amount(i), T(i)), s.b, s.c)
  }

  function Steps(x: Words, s: State, i: nat): State
    decreases i, x
  {
    if i == 0 then s else Step(x, Steps(x, s, i - 1), i - 1)
  }

  function LoadWord(block: Block, t: nat): Word
    requires t < 16
  {
    (block[4 * t] as Word) | ((block[4 * t + 1] as Word) << 8) |
    ((block[4 * t + 2] as Word) << 16) | ((block[4 * t + 3] as Word) << 24)
  }

  function LoadWords(block: Block): Words {
    seq(16, t requires 0 <= t < 16 => LoadWord(block, t))
  }

  function AddStates(s: State, r: State): State {
    State(Add(s.a, r.a), Add(s.b, r.b), Add(s.c, r.c), Add(s.d, r.d))
  }

  function Compress(s: State, block: Block): State {
    AddStates(s, Steps(LoadWords(block), s, 64))
  }

  lemma StepsStep(x: Words, s: State, i: nat)
    ensures Steps(x, s, i + 1) == Step(x, Steps(x, s, i), i)
  {
    hide Step;
  }

  /** Four operations in the order in which the code names its variables. */
  lemma FourSteps(x: Words, s: State, i: nat, a: Word, b: Word, c: Word, d: Word)
    requires Steps(x, s, i) == State(a, b, c, d)
    ensures var a1 := Mix(Fun(i, b, c, d), a, b, x[WordIndex(i)], Amount(i), T(i));
      var d1 := Mix(Fun(i + 1, a1, b, c), d, a1, x[WordIndex(i + 1)], Amount(i + 1), T(i + 1));
      var c1 := Mix(Fun(i + 2, d1, a1, b), c, d1, x[WordIndex(i + 2)], Amount(i + 2), T(i + 2));
      var b1 := Mix(Fun(i + 3, c1, d1, a1), b, c1, x[WordIndex(i + 3)], Amount(i + 3), T(i + 3));
      Steps(x, s, i + 4) == State(a1, b1, c1, d1)
  {
    hide Steps, Mix, Fun, WordIndex, Amount, T;
    StepsStep(x, s, i);
    StepsStep(x, s, i + 1);
    StepsStep(x, s, i + 2);
    StepsStep(x, s, i + 3);
  }

  // ----- The operations of the code -----

  function FF(a: Word, b: Word, c: Word, d: Word, x: Word, s: bv6, ac: Word): Word
    requires s <= 32
  {
    Mix(F(b, c, d), a, b, x, s, ac)
  }

  function GG(a: Word, b: Word, c: Word, d: Word, x: Word, s: bv6, ac: Word): Word
    requires s <= 32
  {
    Mix(G(b, c, d), a, b, x, s, ac)
  }

  function HH(a: Word, b: Word, c: Word, d: Word, x: Word, s: bv6, ac: Word): Word
    requires s <= 32
  {
    Mix(H(b, c, d), a, b, x, s, ac)
  }

  function II(a: Word, b: Word, c: Word, d: Word, x: Word, s: bv6, ac: Word): Word
    requires s <= 32
  {
    Mix(I(b, c, d), a, b, x, s, ac)
  }

  /** Four bytes of a word, least significant first. */
  function WordBytes(x: Word): Message {
    [(x & 0xff) as Octet, ((x >> 8) & 0xff) as Octet, ((x >> 16) & 0xff) as Octet, ((x >> 24) & 0xff) as Octet]
  }

  function Output(s: State): Message {
    WordBytes(s.a) + WordBytes(s.b) + WordBytes(s.c) + WordBytes(s.d)
  }

  /** The digest of a message: its padded form, folded block by block. The length field holds
      the low 64 bits of the number of bits. */
  function Digest(m: Message): Message {
    Output(Absorb(Compress, INITIAL, Pad(m, LittleEndian64(8 * |m| % TWO64))))
  }

  // The schedule of each round, as the code spells it out.

  lemma Schedule1()
    ensures WordIndex(0) == 0 && WordIndex(1) == 1 && WordIndex(2) == 2 && WordIndex(3) == 3
    ensures Amount(0) == 7 && Amount(1) == 12 && Amount(2) == 17 && Amount(3) == 22
    ensures WordIndex(4) == 4 && WordIndex(5) == 5 && WordIndex(6) == 6 && WordIndex(7) == 7
    ensures Amount(4) == 7 && Amount(5) == 12 && Amount(6) == 17 && Amount(7) == 22
    ensures WordIndex(8) == 8 && WordIndex(9) == 9 && WordIndex(10) == 10 && WordIndex(11) == 11
    ensures Amount(8) == 7 && Amount(9) == 12 && Amount(10) == 17 && Amount(11) == 22
    ensures WordIndex(12) == 12 && WordIndex(13) == 13 && WordIndex(14) == 14 && WordIndex(15) == 15
    ensures Amount(12) == 7 && Amount(13) == 12 && Amount(14) == 17 && Amount(15) == 22
  {
  }

  lemma Constants1()
    ensures T(0) == 0xd76aa478 && T(1) == 0xe8c7b756
    ensures T(2) == 0x242070db && T(3) == 0xc1bdceee
    ensures T(4) == 0xf57c0faf && T(5) == 0x4787c62a
    ensures T(6) == 0xa8304613 && T(7) == 0xfd469501
    ensures T(8) == 0x698098d8 && T(9) == 0x8b44f7af
    ensures T(10) == 0xffff5bb1 && T(11) == 0x895cd7be
    ensures T(12) == 0x6b901122 && T(13) == 0xfd987193
    ensures T(14) == 0xa679438e && T(15) == 0x49b40821
    ensures forall i: nat, x, y, z :: 0 <= i < 16 ==> Fun(i, x, y, z) == F(x, y, z)
  {
    hide F, G, H, I;
  }

  lemma Schedule2()
    ensures WordIndex(16) == 1 && WordIndex(17) == 6 && WordIndex(18) == 11 && WordIndex(19) == 0
    ensures Amount(16) == 5 && Amount(17) == 9 && Amount(18) == 14 && Amount(19) == 20
    ensures WordIndex(20) == 5 && WordIndex(21) == 10 && WordIndex(22) == 15 && WordIndex(23) == 4
    ensures Amount(20) == 5 && Amount(21) == 9 && Amount(22) == 14 && Amount(23) == 20
    ensures WordIndex(24) == 9 && WordIndex(25) == 14 && WordIndex(26) == 3 && WordIndex(27) == 8
    ensures Amount(24) == 5 && Amount(25) == 9 && Amount(26) == 14 && Amount(27) == 20
    ensures WordIndex(28) == 13 && WordIndex(29) == 2 && WordIndex(30) == 7 && WordIndex(31) == 12
    ensures Amount(28) == 5 && Amount(29) == 9 && Amount(30) == 14 && Amount(31) == 20
  {
  }

  lemma Constants2()
    ensures T(16) == 0xf61e2562 && T(17) == 0xc040b340
    ensures T(18) == 0x265e5a51 && T(19) == 0xe9b6c7aa
    ensures T(20) == 0xd62f105d && T(21) == 0x02441453
    ensures T(22) == 0xd8a1e681 && T(23) == 0xe7d3fbc8
    ensures T(24) == 0x21e1cde6 && T(25) == 0xc33707d6
    ensures T(26) == 0xf4d50d87 && T(27) == 0x455a14ed
    ensures T(28) == 0xa9e3e905 && T(29) == 0xfcefa3f8
    ensures T(30) == 0x676f02d9 && T(31) == 0x8d2a4c8a
    ensures forall i: nat, x, y, z :: 16 <= i < 32 ==> Fun(i, x, y, z) == G(x, y, z)
  {
    hide F, G, H, I;
  }

  lemma Schedule3()
    ensures WordIndex(32) == 5 && WordIndex(33) == 8 && WordIndex(34) == 11 && WordIndex(35) == 14
    ensures Amount(32) == 4 && Amount(33) == 11 && Amount(34) == 16 && Amount(35) == 23
    ensures WordIndex(36) == 1 && WordIndex(37) == 4 && WordIndex(38) == 7 && WordIndex(39) == 10
    ensures Amount(36) == 4 && Amount(37) == 11 && Amount(38) == 16 && Amount(39) == 23
    ensures WordIndex(40) == 13 && WordIndex(41) == 0 && WordIndex(42) == 3 && WordIndex(43) == 6
    ensures Amount(40) == 4 && Amount(41) == 11 && Amount(42) == 16 && Amount(43) == 23
    ensures WordIndex(44) == 9 && WordIndex(45) == 12 && WordIndex(46) == 15 && WordIndex(47) == 2
    ensures Amount(44) == 4 && Amount(45) == 11 && Amount(46) == 16 && Amount(47) == 23
  {
  }

  lemma Constants3()
    ensures T(32) == 0xfffa3942 && T(33) == 0x8771f681
    ensures T(34) == 0x6d9d6122 && T(35) == 0xfde5380c
    ensures T(36) == 0xa4beea44 && T(37) == 0x4bdecfa9
    ensures T(38) == 0xf6bb4b60 && T(39) == 0xbebfbc70
    ensures T(40) == 0x289b7ec6 && T(41) == 0xeaa127fa
    ensures T(42) == 0xd4ef3085 && T(43) == 0x04881d05
    ensures T(44) == 0xd9d4d039 && T(45) == 0xe6db99e5
    ensures T(46) == 0x1fa27cf8 && T(47) == 0xc4ac5665
    ensures forall i: nat, x, y, z :: 32 <= i < 48 ==> Fun(i, x, y, z) == H(x, y, z)
  {
    hide F, G, H, I;
  }

  lemma Schedule4()
    ensures WordIndex(48) == 0 && WordIndex(49) == 7 && WordIndex(50) == 14 && WordIndex(51) == 5
    ensures Amount(48) == 6 && Amount(49) == 10 && Amount(50) == 15 && Amount(51) == 21
    ensures WordIndex(52) == 12 && WordIndex(53) == 3 && WordIndex(54) == 10 && WordIndex(55) == 1
    ensures Amount(52) == 6 && Amount(53) == 10 && Amount(54) == 15 && Amount(55) == 21
    ensures WordIndex(56) == 8 && WordIndex(57) == 15 && WordIndex(58) == 6 && WordIndex(59) == 13
    ensures Amount(56) == 6 && Amount(57) == 10 && Amount(58) == 15 && Amount(59) == 21
    ensures WordIndex(60) == 4 && WordIndex(61) == 11 && WordIndex(62) == 2 && WordIndex(63) == 9
    ensures Amount(60) == 6 && Amount(61) == 10 && Amount(62) == 15 && Amount(63) == 21
  {
  }

  lemma Constants4()
    ensures T(48) == 0xf4292244 && T(49) == 0x432aff97
    ensures T(50) == 0xab9423a7 && T(51) == 0xfc93a039
    ensures T(52) == 0x655b59c3 && T(53) == 0x8f0ccc92
    ensures T(54) == 0xffeff47d && T(55) == 0x85845dd1
    ensures T(56) == 0x6fa87e4f && T(57) == 0xfe2ce6e0
    ensures T(58) == 0xa3014314 && T(59) == 0x4e0811a1
    ensures T(60) == 0xf7537e82 && T(61) == 0xbd3af235
    ensures T(62) == 0x2ad7d2bb && T(63) == 0xeb86d391
    ensures forall i: nat, x, y, z :: 48 <= i < 64 ==> Fun(i, x, y, z) == I(x, y, z)
  {
    hide F, G, H, I;
  }

  // ----- The streaming context -----

  class Context {
    var state: State
    var count0: nat
    var count1: nat
    const buffer: array<Octet>
    ghost var msg: Message

    ghost predicate Valid()
      reads this, buffer
    {
      && buffer.Length == 64
      && Counts(count0, count1, |msg|)
      && state == Absorb(Compress, INITIAL, msg)
      && buffer[..|msg| % 64] == Tail(msg)
    }

    constructor ()
      ensures Valid() && msg == [] && fresh(buffer)
    {
      hide Absorb, Compress, Tail;
      state := INITIAL;
      count0, count1 := 0, 0;
      buffer := new Octet[64];
      msg := [];
      new;
      NothingAbsorbed();
    }

    method Transform(block: Block)
      modifies this`state
      ensures state == Compress(old(state), block)
    {
      hide Steps, LoadWord, Add;
      var x := new Word[16];
      for i := 0 to 16
        modifies x
        invariant forall k :: 0 <= k < i ==> x[k] == LoadWord(block, k)
      {
        x[i] := LoadWord(block, i);
      }
      assert x[..] == LoadWords(block);
      StepsNone(x[..], state);
      var r := Round1(x[..], state, state);
      r := Round2(x[..], state, r);
      r := Round3(x[..], state, r);
      r := Round4(x[..], state, r);
      state := State(Add(state.a, r.a), Add(state.b, r.b), Add(state.c, r.c), Add(state.d, r.d));
    }

    method Round1(x: Words, ghost s: State, from: State) returns (r: State)
      requires from == Steps(x, s, 0)
      ensures r == Steps(x, s, 16)
    {
      hide Steps, Mix, F, G, H, I, Fun, WordIndex, Amount, T;
      Schedule1();
      Constants1();
      var a, b, c, d := from.a, from.b, from.c, from.d;
      FourSteps(x, s, 0, a, b, c, d);
      a := FF(a, b, c, d, x[0], 7, 0xd76aa478);
      d := FF(d, a, b, c, x[1], 12, 0xe8c7b756);
      c := FF(c, d, a, b, x[2], 17, 0x242070db);
      b := FF(b, c, d, a, x[3], 22, 0xc1bdceee);
      FourSteps(x, s, 4, a, b, c, d);
      a := FF(a, b, c, d, x[4], 7, 0xf57c0faf);
      d := FF(d, a, b, c, x[5], 12, 0x4787c62a);
      c := FF(c, d, a, b, x[6], 17, 0xa8304613);
      b := FF(b, c, d, a, x[7], 22, 0xfd469501);
      FourSteps(x, s, 8, a, b, c, d);
      a := FF(a, b, c, d, x[8], 7, 0x698098d8);
      d := FF(d, a, b, c, x[9], 12, 0x8b44f7af);
      c := FF(c, d, a, b, x[10], 17, 0xffff5bb1);
      b := FF(b, c, d, a, x[11], 22, 0x895cd7be);
      FourSteps(x, s, 12, a, b, c, d);
      a := FF(a, b, c, d, x[12], 7, 0x6b901122);
      d := FF(d, a, b, c, x[13], 12, 0xfd987193);
      c := FF(c, d, a, b, x[14], 17, 0xa679438e);
      b := FF(b, c, d, a, x[15], 22, 0x49b40821);
      return State(a, b, c, d);
    }

    method Round2(x: Words, ghost s: State, from: State) returns (r: State)
      requires from == Steps(x, s, 16)
      ensures r == Steps(x, s, 32)
    {
      hide Steps, Mix, F, G, H, I, Fun, WordIndex, Amount, T;
      Schedule2();
      Constants2();
      var a, b, c, d := from.a, from.b, from.c, from.d;
      FourSteps(x, s, 16, a, b, c, d);
      a := GG(a, b, c, d, x[1], 5, 0xf61e2562);
      d := GG(d, a, b, c, x[6], 9, 0xc040b340);
      c := GG(c, d, a, b, x[11], 14, 0x265e5a51);
      b := GG(b, c, d, a, x[0], 20, 0xe9b6c7aa);
      FourSteps(x, s, 20, a, b, c, d);
      a := GG(a, b, c, d, x[5], 5, 0xd62f105d);
      d := GG(d, a, b, c, x[10], 9, 0x02441453);
      c := GG(c, d, a, b, x[15], 14, 0xd8a1e681);
      b := GG(b, c, d, a, x[4], 20, 0xe7d3fbc8);
      FourSteps(x, s, 24, a, b, c, d);
      a := GG(a, b, c, d, x[9], 5, 0x21e1cde6);
      d := GG(d, a, b, c, x[14], 9, 0xc33707d6);
      c := GG(c, d, a, b, x[3], 14, 0xf4d50d87);
      b := GG(b, c, d, a, x[8], 20, 0x455a14ed);
      FourSteps(x, s, 28, a, b, c, d);
      a := GG(a, b, c, d, x[13], 5, 0xa9e3e905);
      d := GG(d, a, b, c, x[2], 9, 0xfcefa3f8);
      c := GG(c, d, a, b, x[7], 14, 0x676f02d9);
      b := GG(b, c, d, a, x[12], 20, 0x8d2a4c8a);
      return State(a, b, c, d);
    }

    method Round3(x: Words, ghost s: State, from: State) returns (r: State)
      requires from == Steps(x, s, 32)
      ensures r == Steps(x, s, 48)
    {
      hide Steps, Mix, F, G, H, I, Fun, WordIndex, Amount, T;
      Schedule3();
      Constants3();
      var a, b, c, d := from.a, from.b, from.c, from.d;
      FourSteps(x, s, 32, a, b, c, d);
      a := HH(a, b, c, d, x[5], 4, 0xfffa3942);
      d := HH(d, a, b, c, x[8], 11, 0x8771f681);
      c := HH(c, d, a, b, x[11], 16, 0x6d9d6122);
      b := HH(b, c, d, a, x[14], 23, 0xfde5380c);
      FourSteps(x, s, 36, a, b, c, d);
      a := HH(a, b, c, d, x[1], 4, 0xa4beea44);
      d := HH(d, a, b, c, x[4], 11, 0x4bdecfa9);
      c := HH(c, d, a, b, x[7], 16, 0xf6bb4b60);
      b := HH(b, c, d, a, x[10], 23, 0xbebfbc70);
      FourSteps(x, s, 40, a, b, c, d);
      a := HH(a, b, c, d, x[13], 4, 0x289b7ec6);
      d := HH(d, a, b, c, x[0], 11, 0xeaa127fa);
      c := HH(c, d, a, b, x[3], 16, 0xd4ef3085);
      b := HH(b, c, d, a, x[6], 23, 0x04881d05);
      FourSteps(x, s, 44, a, b, c, d);
      a := HH(a, b, c, d, x[9], 4, 0xd9d4d039);
      d := HH(d, a, b, c, x[12], 11, 0xe6db99e5);
      c := HH(c, d, a, b, x[15], 16, 0x1fa27cf8);
      b := HH(b, c, d, a, x[2], 23, 0xc4ac5665);
      return State(a, b, c, d);
    }

    method Round4(x: Words, ghost s: State, from: State) returns (r: State)
      requires from == Steps(x, s, 48)
      ensures r == Steps(x, s, 64)
    {
      hide Steps, Mix, F, G, H, I, Fun, WordIndex, Amount, T;
      Schedule4();
      Constants4();
      var a, b, c, d := from.a, from.b, from.c, from.d;
      FourSteps(x, s, 48, a, b, c, d);
      a := II(a, b, c, d, x[0], 6, 0xf4292244);
      d := II(d, a, b, c, x[7], 10, 0x432aff97);
      c := II(c, d, a, b, x[14], 15, 0xab9423a7);
      b := II(b, c, d, a, x[5], 21, 0xfc93a039);
      FourSteps(x, s, 52, a, b, c, d);
      a := II(a, b, c, d, x[12], 6, 0x655b59c3);
      d := II(d, a, b, c, x[3], 10, 0x8f0ccc92);
      c := II(c, d, a, b, x[10], 15, 0xffeff47d);
      b := II(b, c, d, a, x[1], 21, 0x85845dd1);
      FourSteps(x, s, 56, a, b, c, d);
      a := II(a, b, c, d, x[8], 6, 0x6fa87e4f);
      d := II(d, a, b, c, x[15], 10, 0xfe2ce6e0);
      c := II(c, d, a, b, x[6], 15, 0xa3014314);
      b := II(b, c, d, a, x[13], 21, 0x4e0811a1);
      FourSteps(x, s, 60, a, b, c, d);
      a := II(a, b, c, d, x[4], 6, 0xf7537e82);
      d := II(d, a, b, c, x[11], 10, 0xbd3af235);
      c := II(c, d, a, b, x[2], 15, 0x2ad7d2bb);
      b := II(b, c, d, a, x[9], 21, 0xeb86d391);
      return State(a, b, c, d);
    }

    /** Feeding more of the message keeps the context that of the whole message so far. */
    method Update(data: Message)
      requires Valid()
      modifies this, buffer
      ensures Valid() && msg == old(msg) + data
    {
      hide Absorb, Compress, Tail, Counts;
      ghost var whole, rest := msg + data, Tail(msg) + data;
      AbsorbAppend(Compress, INITIAL, msg, data);
      CountsIndex(count0, count1, |msg|);
      TailLength(msg);
      var j, len := count0 / 8 % 64, |data|;
      LowBits(len);
      count0, count1 := AddLength(count0, count1, len, 8 * len % TWO64 % TWO32, |msg|);
      var i: nat := 0;
      ghost var front := Tail(msg);
      if j + len > 63 {
        i := FillBlock(j, data, whole);
        i := Blocks(i, data, whole);
        j, front := 0, [];
        rest := data[i..];
      }
      Memcpy(buffer, j, data[i..]);
      CopiedBehind(buffer, j, front, data[i..]);
      AbsorbStep(Compress, state, rest);
      TailStep(rest);
      TailLength(whole);
      msg := whole;
    }

    ghost predicate Pending(rest: Message, whole: Message)
      reads this
    {
      && Absorb(Compress, state, rest) == Absorb(Compress, INITIAL, whole)
      && Tail(rest) == Tail(whole)
    }

    /** Completes the partial block from the input and compresses it. */
    method FillBlock(j: nat, data: Message, ghost whole: Message) returns (i: nat)
      requires buffer.Length == 64 && j == |Tail(msg)| && 64 <= j + |data|
      requires buffer[..j] == Tail(msg) && Pending(Tail(msg) + data, whole)
      modifies this`state, buffer
      ensures i <= |data| && Pending(data[i..], whole)
    {
      hide Absorb, Compress, Tail;
      ghost var rest := Tail(msg) + data;
      TailLength(msg);
      i := 64 - j;
      Memcpy(buffer, j, data[..i]);
      assert buffer[..] == buffer[..j] + buffer[j..j + |data[..i]|] == rest[..64];
      assert rest[64..] == data[i..];
      AbsorbStep(Compress, state, rest);
      TailStep(rest);
      Transform(buffer[..]);
    }

    /** The loop of Update over the complete blocks of the input. */
    method Blocks(start: nat, data: Message, ghost whole: Message) returns (i: nat)
      requires start <= |data| && Pending(data[start..], whole)
      modifies this`state
      ensures i <= |data| < i + 64 && Pending(data[i..], whole)
    {
      hide Absorb, Compress, Tail;
      i := start;
      while i + 63 < |data|
        invariant i <= |data| && Pending(data[i..], whole)
      {
        AbsorbStep(Compress, state, data[i..]);
        TailStep(data[i..]);
        assert data[i..][..64] == data[i..i + 64] && data[i..][64..] == data[i + 64..];
        Transform(data[i..i + 64]);
        i := i + 64;
      }
    }

    /** Pads the message in one update, appends its length, and writes out the digest. */
    method Final() returns (digest: Message)
      requires Valid()
      modifies this, buffer
      ensures digest == Digest(old(msg))
      ensures Valid() && |msg| % 64 == 0
    {
      hide Absorb, Compress, Tail, LittleEndian64, Output, Padded, ZeroCount, Digest, Counts;
      CountsAreBits(count0, count1, |msg|);
      CountsIndex(count0, count1, |msg|);
      var bits := LittleEndian64(count1 * TWO32 + count0);
      var index := count0 / 8 % 64;
      var padLen := if index < 56 then 56 - index else 120 - index;
      Padding(msg, padLen);
      Update(([0x80] + Zeros(63))[..padLen]);
      Update(bits);
      Finished(old(msg), msg);
      digest := Output(state);
    }
  }

  /** The prefix of the padding array that Final uses. */
  lemma Padding(m: Message, padLen: nat)
    requires padLen == if |m| % 64 < 56 then 56 - |m| % 64 else 120 - |m| % 64
    ensures padLen <= 64
    ensures m + ([0x80] + Zeros(63))[..padLen] == Padded(m, ZeroCount(|m|))
  {
    assert ([0x80] + Zeros(63))[..padLen] == [0x80] + Zeros(padLen - 1);
    assert m + ([0x80] + Zeros(padLen - 1)) == m + [0x80] + Zeros(padLen - 1);
  }

  lemma StepsNone(x: Words, s: State)
    ensures Steps(x, s, 0) == s
  {
  }

  lemma NothingAbsorbed()
    ensures Absorb(Compress, INITIAL, []) == INITIAL && Tail([]) == []
  {
    hide Compress;
  }

  lemma Finished(m: Message, padded: Message)
    requires padded == Padded(m, ZeroCount(|m|)) + LittleEndian64(8 * |m| % TWO64)
    ensures Output(Absorb(Compress, INITIAL, padded)) == Digest(m)
    ensures |padded| % 64 == 0
  {
    hide Absorb, Compress, Output, Padded;
  }

  method Md5(data: Message) returns (digest: Message)
    ensures digest == Digest(data)
  {
    var ctx := new Context();
    if |data| > 0 {
      ctx.Update(data);
      assert [] + data == data;
    }
    digest := ctx.Final();
  }
}
