/** CRC-32 and CRC-32C: the table-driven loop is bit-serial division by the reflected
    polynomial, continues across calls, and detects every error burst of up to 32 bits. */
module Crc {
  import opened Common

  /** Reflected polynomials: bit 31 is the coefficient of x^0, bit 0 that of x^31. */
  const CRC32_POLY: bv32 := 0xEDB88320
  const CRC32C_POLY: bv32 := 0x82F63B78

  // ----- Words: the few bit operations the code uses, by name -----

  function Xor(x: bv32, y: bv32): bv32 { x ^ y }

  function Not(x: bv32): bv32 { !x }

  /** A byte as a register word. */
  function Word(b: Octet): bv32 { b as bv32 }

  function Half(x: bv32): bv32 { x >> 1 }

  function Odd(x: bv32): bool { x & 1 == 1 }

  /** The top bit, set in both polynomials. */
  predicate Top(x: bv32) { x & 0x8000_0000 != 0 }

  lemma XorHalf(x: bv32, y: bv32)
    ensures Half(Xor(x, y)) == Xor(Half(x), Half(y))
  {
  }

  lemma XorOdd(x: bv32, y: bv32)
    ensures Odd(Xor(x, y)) == (Odd(x) != Odd(y))
  {
  }

  lemma XorAssoc(x: bv32, y: bv32, z: bv32)
    ensures Xor(Xor(x, y), z) == Xor(x, Xor(y, z))
  {
    XorAssocRaw(x, y, z);
  }

  lemma XorAssocRaw(x: bv32, y: bv32, z: bv32)
    ensures (x ^ y) ^ z == x ^ (y ^ z)
  {
  }

  lemma XorComm(x: bv32, y: bv32)
    ensures Xor(x, y) == Xor(y, x)
  {
  }

  lemma XorSelf(x: bv32)
    ensures Xor(x, x) == 0 && Xor(0, x) == x && Xor(x, 0) == x
  {
  }

  lemma XorLaws(x: bv32, y: bv32, p: bv32)
    ensures Xor(Xor(p, x), y) == Xor(p, Xor(x, y))
    ensures Xor(x, Xor(p, y)) == Xor(p, Xor(x, y))
    ensures Xor(p, Xor(p, x)) == x
    ensures Xor(Xor(p, x), Xor(p, y)) == Xor(x, y)
  {
    hide *;
    XorAssoc(p, x, y);
    XorAssoc(x, p, y);
    XorComm(x, p);
    XorAssoc(p, p, x);
    XorSelf(p);
    XorSelf(x);
    XorAssoc(p, x, Xor(p, y));
    XorAssoc(p, p, Xor(x, y));
    XorSelf(Xor(x, y));
  }

  /** The parts of a word that the table lookup separates. */
  function Low(x: bv32): bv32 { x & 0xff }

  function High(x: bv32): bv32 { x & 0xffff_ff00 }

  function Shr8(x: bv32): bv32 { x >> 8 }

  lemma SplitWord(z: bv32)
    ensures z == Xor(Low(z), High(z)) && Low(High(z)) == 0
  {
  }

  /** A byte folded into a register leaves the upper three bytes alone. */
  lemma FoldByte(c: bv32, b: bv32)
    requires Low(b) == b
    ensures Shr8(High(Xor(c, b))) == Shr8(c)
  {
  }

  /** n single shifts. */
  function Shift(x: bv32, n: nat): bv32 {
    if n == 0 then x else Shift(Half(x), n - 1)
  }

  /** The low n bits of the word are zero. */
  predicate LowZero(x: bv32, n: nat) {
    n == 0 || (!Odd(x) && LowZero(Half(x), n - 1))
  }

  /** Eight named halves of a word. */
  lemma Shift8(x: bv32)
    ensures Shift(x, 8) == Shr8(x)
    ensures Low(x) == 0 ==> LowZero(x, 8)
  {
    hide Half, Odd, Low, Shr8, Shift, LowZero;
    var x1 := Half(x);
    var x2 := Half(x1);
    var x3 := Half(x2);
    var x4 := Half(x3);
    var x5 := Half(x4);
    var x6 := Half(x5);
    var x7 := Half(x6);
    HalvesRaw(x);
    ShiftStep(x, 8);
    ShiftStep(x1, 7);
    ShiftStep(x2, 6);
    ShiftStep(x3, 5);
    ShiftStep(x4, 4);
    ShiftStep(x5, 3);
    ShiftStep(x6, 2);
    ShiftStep(x7, 1);
    ShiftStep(Half(x7), 0);
  }

  lemma ShiftStep(x: bv32, n: nat)
    ensures Shift(x, n) == if n == 0 then x else Shift(Half(x), n - 1)
    ensures LowZero(x, n) == (n == 0 || (!Odd(x) && LowZero(Half(x), n - 1)))
  {
    hide Half, Odd;
  }

  lemma HalvesRaw(x: bv32)
    ensures var x4 := Half(Half(Half(Half(x))));
      && Half(Half(Half(Half(x4)))) == Shr8(x)
      && (Low(x) == 0 ==>
            && !Odd(x) && !Odd(Half(x)) && !Odd(Half(Half(x))) && !Odd(Half(Half(Half(x))))
            && !Odd(x4) && !Odd(Half(x4)) && !Odd(Half(Half(x4))) && !Odd(Half(Half(Half(x4)))))
  {
  }

  // ----- The step that builds the table -----

  function Step(poly: bv32, c: bv32): bv32 {
    if Odd(c) then Xor(poly, Half(c)) else Half(c)
  }

  function Steps(poly: bv32, c: bv32, n: nat): bv32
    decreases n
  {
    if n == 0 then c else Steps(poly, Step(poly, c), n - 1)
  }

  /** The step is linear over xor; the table works because of this. */
  lemma StepLinear(poly: bv32, x: bv32, y: bv32)
    ensures Step(poly, Xor(x, y)) == Xor(Step(poly, x), Step(poly, y))
  {
    hide Xor, Half, Odd;
    XorOdd(x, y);
    XorHalf(x, y);
    XorLaws(Half(x), Half(y), poly);
  }

  lemma {:induction false} StepsLinear(poly: bv32, x: bv32, y: bv32, n: nat)
    ensures Steps(poly, Xor(x, y), n) == Xor(Steps(poly, x, n), Steps(poly, y, n))
    decreases n
  {
    hide Step, Xor;
    if n != 0 {
      StepLinear(poly, x, y);
      StepsLinear(poly, Step(poly, x), Step(poly, y), n - 1);
    }
  }

  lemma {:induction false} StepsCompose(poly: bv32, c: bv32, m: nat, n: nat)
    ensures Steps(poly, c, m + n) == Steps(poly, Steps(poly, c, m), n)
    decreases m
  {
    hide Step;
    if m != 0 {
      StepsCompose(poly, Step(poly, c), m - 1, n);
    }
  }

  /** On a word whose low n bits are zero the steps only shift. */
  lemma {:induction false} StepsShift(poly: bv32, c: bv32, n: nat)
    requires LowZero(c, n)
    ensures Steps(poly, c, n) == Shift(c, n)
    decreases n
  {
    hide Xor, Half, Odd;
    if n != 0 {
      StepsShift(poly, Half(c), n - 1);
    }
  }

  /** The identity behind the table: a byte is divided out at once. */
  lemma TableStep(poly: bv32, c: bv32, b: bv32)
    requires Low(b) == b
    ensures Steps(poly, Xor(c, b), 8) == Xor(Steps(poly, Low(Xor(c, b)), 8), Shr8(c))
  {
    hide *;
    var z := Xor(c, b);
    SplitWord(z);
    StepsLinear(poly, Low(z), High(z), 8);
    Shift8(High(z));
    StepsShift(poly, High(z), 8);
    FoldByte(c, b);
  }

  // ----- The bit-serial register -----

  /** The bits of a word, least significant first: in reflected order, highest degree first. */
  function WordBits(w: bv32, n: nat): (bits: seq<bool>)
    ensures |bits| == n
    decreases n
  {
    if n == 0 then [] else [Odd(w)] + WordBits(Half(w), n - 1)
  }

  function MessageBits(data: seq<Octet>): seq<bool> {
    if data == [] then [] else WordBits(Word(data[0]), 8) + MessageBits(data[1..])
  }

  /** One message bit enters the division register. */
  function Feed(poly: bv32, c: bv32, bit: bool): bv32 {
    if Odd(c) != bit then Xor(poly, Half(c)) else Half(c)
  }

  function Serial(poly: bv32, c: bv32, bits: seq<bool>): bv32
    decreases |bits|
  {
    if bits == [] then c else Serial(poly, Feed(poly, c, bits[0]), bits[1..])
  }

  lemma {:induction false} SerialAppend(poly: bv32, c: bv32, a: seq<bool>, b: seq<bool>)
    ensures Serial(poly, c, a + b) == Serial(poly, Serial(poly, c, a), b)
    decreases |a|
  {
    hide Feed;
    if a == [] {
      assert a + b == b;
    } else {
      assert (a + b)[1..] == a[1..] + b;
      SerialAppend(poly, Feed(poly, c, a[0]), a[1..], b);
    }
  }

  /** Folding a word into the register first, or feeding its bits one at a time. */
  lemma {:induction false} FoldOrFeed(poly: bv32, c: bv32, w: bv32, n: nat)
    ensures Steps(poly, Xor(c, w), n) == Xor(Serial(poly, c, WordBits(w, n)), Shift(w, n))
    decreases n
  {
    hide Xor, Odd, Half;
    if n != 0 {
      var c' := Feed(poly, c, Odd(w));
      XorOdd(c, w);
      XorHalf(c, w);
      XorLaws(Half(c), Half(w), poly);
      assert Step(poly, Xor(c, w)) == Xor(c', Half(w));
      FoldOrFeed(poly, c', Half(w), n - 1);
      assert WordBits(w, n)[1..] == WordBits(Half(w), n - 1);
    }
  }

  lemma ByteIsLow(b: Octet)
    ensures Low(Word(b)) == Word(b) && Shr8(Word(b)) == 0
  {
  }

  /** One step of the table-driven loop feeds the eight bits of its byte. */
  lemma ByteStep(poly: bv32, c: bv32, b: Octet)
    ensures Serial(poly, c, WordBits(Word(b), 8))
         == Xor(Steps(poly, Low(Xor(c, Word(b))), 8), Shr8(c))
  {
    hide *;
    var w := Word(b);
    ByteIsLow(b);
    TableStep(poly, c, w);
    FoldOrFeed(poly, c, w, 8);
    Shift8(w);
    XorSelf(Serial(poly, c, WordBits(w, 8)));
  }

  // ----- Polynomial long division -----

  function XorBits(a: seq<bool>, b: seq<bool>): (r: seq<bool>)
    requires |a| == |b|
    ensures |r| == |a|
  {
    seq(|a|, i requires 0 <= i < |a| => a[i] != b[i])
  }

  /** Adds (over GF(2)) the 32 bits r to the front of s. */
  function AddFront(r: seq<bool>, s: seq<bool>): (t: seq<bool>)
    requires |r| == 32 <= |s|
    ensures |t| == |s|
  {
    XorBits(r, s[..32]) + s[32..]
  }

  /** Long division by the monic polynomial x^32 + divisor, leading coefficient first: a
      leading one is cancelled by subtracting the polynomial, and the next bit comes up. */
  function Remainder(divisor: seq<bool>, s: seq<bool>): seq<bool>
    requires |divisor| == 32 <= |s|
    decreases |s|
  {
    if |s| == 32 then s
    else Remainder(divisor, if s[0] then AddFront(divisor, s[1..]) else s[1..])
  }

  function Zeros(n: nat): seq<bool> { seq(n, i => false) }

  lemma {:induction false} WordBitsXor(x: bv32, y: bv32, n: nat)
    ensures WordBits(Xor(x, y), n) == XorBits(WordBits(x, n), WordBits(y, n))
    decreases n
  {
    hide Xor, Odd, Half;
    if n != 0 {
      XorOdd(x, y);
      XorHalf(x, y);
      WordBitsXor(Half(x), Half(y), n - 1);
    }
  }

  lemma {:induction false} WordBitsSnoc(w: bv32, n: nat)
    ensures WordBits(w, n + 1) == WordBits(w, n) + [Odd(Shift(w, n))]
    decreases n
  {
    hide Odd, Half;
    if n != 0 {
      WordBitsSnoc(Half(w), n - 1);
    }
  }

  lemma {:induction false} ShiftAdd(w: bv32, m: nat, n: nat)
    ensures Shift(w, m + n) == Shift(Shift(w, m), n)
    decreases m
  {
    hide Half;
    if m != 0 {
      ShiftAdd(Half(w), m - 1, n);
    }
  }

  lemma ShiftedOut(w: bv32)
    ensures !Odd(Shift(w, 32))
  {
    hide Shift, Shr8, Odd;
    Shift8(w);
    Shift8(Shr8(w));
    Shift8(Shr8(Shr8(w)));
    Shift8(Shr8(Shr8(Shr8(w))));
    ShiftAdd(w, 8, 24);
    ShiftAdd(Shr8(w), 8, 16);
    ShiftAdd(Shr8(Shr8(w)), 8, 8);
    Shr32Raw(w);
  }

  lemma Shr32Raw(w: bv32)
    ensures !Odd(Shr8(Shr8(Shr8(Shr8(w)))))
  {
  }

  /** Halving a register drops its leading coefficient and brings up a zero. */
  lemma HalfBits(c: bv32)
    ensures WordBits(c, 32)[0] == Odd(c)
    ensures WordBits(Half(c), 32) == WordBits(c, 32)[1..] + [false]
  {
    hide Odd, Half, Shift;
    assert WordBits(c, 33)[1..] == WordBits(Half(c), 32);
    WordBitsSnoc(c, 32);
    ShiftedOut(c);
    assert (WordBits(c, 32) + [false])[1..] == WordBits(c, 32)[1..] + [false];
  }

  /** The register computes the remainder of the message polynomial times x^32, with the
      initial register added to its leading 32 coefficients. */
  lemma {:induction false} SerialIsDivision(poly: bv32, c: bv32, bits: seq<bool>)
    ensures WordBits(Serial(poly, c, bits), 32)
         == Remainder(WordBits(poly, 32), AddFront(WordBits(c, 32), bits + Zeros(32)))
    decreases |bits|
  {
    hide Xor, Odd, Half, Feed, WordBits, Remainder, AddFront;
    var dividend := AddFront(WordBits(c, 32), bits + Zeros(32));
    if bits == [] {
      DivideNothing(poly, c);
      assert bits + Zeros(32) == Zeros(32);
    } else {
      SerialIsDivision(poly, Feed(poly, c, bits[0]), bits[1..]);
      DivideOneBit(poly, c, bits[0], bits[1..] + Zeros(32));
      assert [bits[0]] + (bits[1..] + Zeros(32)) == bits + Zeros(32);
    }
  }

  lemma DivideNothing(poly: bv32, c: bv32)
    ensures Remainder(WordBits(poly, 32), AddFront(WordBits(c, 32), Zeros(32))) == WordBits(c, 32)
  {
    hide WordBits;
    assert AddFront(WordBits(c, 32), Zeros(32)) == WordBits(c, 32);
  }

  lemma DivideOneBit(poly: bv32, c: bv32, bit: bool, tail: seq<bool>)
    requires 32 <= |tail|
    ensures Remainder(WordBits(poly, 32), AddFront(WordBits(c, 32), [bit] + tail))
         == Remainder(WordBits(poly, 32), AddFront(WordBits(Feed(poly, c, bit), 32), tail))
  {
    hide Odd, Half, Xor, WordBits, AddFront, XorBits;
    var p, h := WordBits(poly, 32), WordBits(Half(c), 32);
    HalfBits(c);
    WordBitsXor(poly, Half(c), 32);
    AddFrontSplit(WordBits(c, 32), bit, tail, h);
    AddFrontTwice(p, h, tail);
  }

  /** The leading bit, and the rest with the shifted register added. */
  lemma AddFrontSplit(r: seq<bool>, bit: bool, tail: seq<bool>, h: seq<bool>)
    requires |r| == 32 == |h| <= |tail| && h == r[1..] + [false]
    ensures AddFront(r, [bit] + tail)[0] == (r[0] != bit)
    ensures AddFront(r, [bit] + tail)[1..] == AddFront(h, tail)
  {
    var s := AddFront(r, [bit] + tail);
    assert s[1..] == AddFront(h, tail);
  }

  lemma AddFrontTwice(p: seq<bool>, h: seq<bool>, tail: seq<bool>)
    requires |p| == 32 == |h| <= |tail|
    ensures AddFront(p, AddFront(h, tail)) == AddFront(XorBits(p, h), tail)
  {
  }

  // ----- The checksum -----

  function Crc(poly: bv32, data: seq<Octet>, prev: bv32): bv32 {
    Not(Serial(poly, Not(prev), MessageBits(data)))
  }

  lemma {:induction false} MessageBitsAppend(a: seq<Octet>, b: seq<Octet>)
    ensures MessageBits(a + b) == MessageBits(a) + MessageBits(b)
  {
    hide WordBits;
    if a == [] {
      assert a + b == b;
    } else {
      assert (a + b)[1..] == a[1..] + b;
      MessageBitsAppend(a[1..], b);
    }
  }

  /** A checksum continues from the checksum of what came before. */
  lemma CrcContinues(poly: bv32, a: seq<Octet>, b: seq<Octet>, prev: bv32)
    ensures Crc(poly, a + b, prev) == Crc(poly, b, Crc(poly, a, prev))
  {
    hide Serial, MessageBits, Not;
    MessageBitsAppend(a, b);
    SerialAppend(poly, Not(prev), MessageBits(a), MessageBits(b));
    NotNot(Serial(poly, Not(prev), MessageBits(a)));
  }

  lemma NotNot(x: bv32)
    ensures Not(Not(x)) == x
  {
  }

  /** The checksum is a polynomial remainder: of the message times x^32, with the complemented
      previous checksum added to its leading coefficients. */
  lemma CrcIsDivision(poly: bv32, data: seq<Octet>, prev: bv32)
    ensures WordBits(Not(Crc(poly, data, prev)), 32)
         == Remainder(WordBits(poly, 32),
                      AddFront(WordBits(Not(prev), 32), MessageBits(data) + Zeros(32)))
  {
    hide Serial, MessageBits, WordBits, Remainder, AddFront, Not;
    NotNot(Serial(poly, Not(prev), MessageBits(data)));
    SerialIsDivision(poly, Not(prev), MessageBits(data));
  }

  // ----- The implementation -----

  function Index(b: Octet): (i: nat)
    ensures i < 256
  {
    b as int
  }

  ghost predicate IsTable(poly: bv32, table: seq<bv32>) {
    |table| == 256 && forall k: Octet :: table[Index(k)] == Steps(poly, Word(k), 8)
  }

  lemma ByteIndex(x: Octet, y: Octet)
    ensures Index(x) == Index(y) ==> x == y
    ensures Index(x) < 255 ==> Index(x + 1) == Index(x) + 1
  {
  }

  method BuildTable(poly: bv32) returns (table: array<bv32>)
    ensures fresh(table) && IsTable(poly, table[..])
  {
    hide Step, Steps, Index, Word, Odd, Xor, Half;
    table := new bv32[256];
    var i: nat, entry: Octet := 0, 0;
    IndexOfZero();
    while i < 256
      invariant i <= 256 && (i < 256 ==> Index(entry) == i)
      invariant forall k: Octet :: Index(k) < i ==> table[Index(k)] == Steps(poly, Word(k), 8)
    {
      var c := Word(entry);
      ghost var done := table[..];
      for j := 0 to 8
        invariant table[..] == done
        invariant Steps(poly, c, 8 - j) == Steps(poly, Word(entry), 8)
      {
        StepsOnce(poly, c, 8 - j);
        c := if Odd(c) then Xor(poly, Half(c)) else Half(c);
      }
      StepsNone(poly, c);
      table[i] := c;
      forall k: Octet | Index(k) < i + 1 ensures table[Index(k)] == Steps(poly, Word(k), 8) {
        ByteIndex(k, entry);
      }
      ByteIndex(entry, entry);
      i, entry := i + 1, entry + 1;
    }
  }

  lemma IndexOfZero()
    ensures Index(0) == 0
  {
  }

  lemma StepsOnce(poly: bv32, c: bv32, n: nat)
    requires n > 0
    ensures Steps(poly, c, n) == Steps(poly, if Odd(c) then Xor(poly, Half(c)) else Half(c), n - 1)
  {
  }

  lemma StepsNone(poly: bv32, c: bv32)
    ensures Steps(poly, c, 0) == c
  {
  }

  method TableCrc(poly: bv32, table: seq<bv32>, data: seq<Octet>, prev: bv32) returns (r: bv32)
    requires IsTable(poly, table)
    ensures r == Crc(poly, data, prev)
  {
    hide Steps, Serial, MessageBits, WordBits, Word, Not, Low, Xor, Shr8, IsTable, Index;
    TableLength(poly, table);
    var crc := Not(prev);
    ghost var start := crc;
    assert data[0..] == data;
    for i := 0 to |data|
      invariant Serial(poly, crc, MessageBits(data[i..])) == Serial(poly, start, MessageBits(data))
    {
      assert data[i..] == [data[i]] + data[i + 1..];
      MessageBitsStep(data[i], data[i + 1..]);
      SerialAppend(poly, crc, WordBits(Word(data[i]), 8), MessageBits(data[i + 1..]));
      ByteStep(poly, crc, data[i]);
      LookupIsLow(poly, table, crc, data[i]);
      crc := Xor(table[Index(LowByte(Xor(crc, Word(data[i]))))], Shr8(crc));
    }
    SerialNone(poly, crc, data[|data|..]);
    return Not(crc);
  }

  lemma MessageBitsStep(b: Octet, rest: seq<Octet>)
    ensures MessageBits([b] + rest) == WordBits(Word(b), 8) + MessageBits(rest)
  {
    hide WordBits;
    assert ([b] + rest)[1..] == rest;
  }

  lemma SerialNone(poly: bv32, c: bv32, none: seq<Octet>)
    requires none == []
    ensures Serial(poly, c, MessageBits(none)) == c
  {
  }

  lemma TableLength(poly: bv32, table: seq<bv32>)
    requires IsTable(poly, table)
    ensures |table| == 256
  {
  }

  /** The low byte of a word, as the code gets it with & 0xFF. */
  function LowByte(z: bv32): Octet { (z & 0xff) as bv8 }

  lemma LookupIsLow(poly: bv32, table: seq<bv32>, crc: bv32, b: Octet)
    requires IsTable(poly, table) && |table| == 256
    ensures table[Index(LowByte(Xor(crc, Word(b))))] == Steps(poly, Low(Xor(crc, Word(b))), 8)
  {
    hide Steps, Word, Low, Xor, Index, LowByte;
    LowByteWord(Xor(crc, Word(b)));
  }

  lemma LowByteWord(z: bv32)
    ensures Word(LowByte(z)) == Low(z)
  {
  }

  method Crc32(data: seq<Octet>, prev: bv32) returns (r: bv32)
    ensures r == Crc(CRC32_POLY, data, prev)
  {
    var table := BuildTable(CRC32_POLY);
    r := TableCrc(CRC32_POLY, table[..], data, prev);
  }

  method Crc32c(data: seq<Octet>, prev: bv32) returns (r: bv32)
    ensures r == Crc(CRC32C_POLY, data, prev)
  {
    var table := BuildTable(CRC32C_POLY);
    r := TableCrc(CRC32C_POLY, table[..], data, prev);
  }

  // ----- What the checksum detects -----

  lemma StepInjective(poly: bv32, x: bv32, y: bv32)
    requires Top(poly) && Step(poly, x) == Step(poly, y)
    ensures x == y
  {
    hide Xor, Odd, Half, Top;
    TopOfStep(poly, x);
    TopOfStep(poly, y);
    XorLaws(Half(x), Half(y), poly);
    if Odd(x) {
      assert Xor(poly, Xor(poly, Half(x))) == Xor(poly, Xor(poly, Half(y)));
      XorLaws(Half(y), Half(x), poly);
    }
    HalfAndOdd(x, y);
  }

  lemma TopOfStep(poly: bv32, x: bv32)
    requires Top(poly)
    ensures Top(Step(poly, x)) == Odd(x)
  {
    hide Xor, Odd, Half, Top;
    TopRaw(poly, x);
  }

  lemma TopRaw(poly: bv32, x: bv32)
    requires Top(poly)
    ensures !Top(Half(x)) && Top(Xor(poly, Half(x)))
  {
  }

  lemma HalfAndOdd(x: bv32, y: bv32)
    requires Half(x) == Half(y) && Odd(x) == Odd(y)
    ensures x == y
  {
  }

  lemma {:induction false} StepsInjective(poly: bv32, x: bv32, y: bv32, n: nat)
    requires Top(poly) && Steps(poly, x, n) == Steps(poly, y, n)
    ensures x == y
    decreases n
  {
    hide Step, Top;
    if n != 0 {
      StepsInjective(poly, Step(poly, x), Step(poly, y), n - 1);
      StepInjective(poly, x, y);
    }
  }

  lemma {:induction false} SerialInjective(poly: bv32, x: bv32, y: bv32, bits: seq<bool>)
    requires Top(poly) && Serial(poly, x, bits) == Serial(poly, y, bits)
    ensures x == y
    decreases |bits|
  {
    hide Feed, Top, Xor;
    if bits != [] {
      var bit: bv32 := if bits[0] then 1 else 0;
      SerialInjective(poly, Feed(poly, x, bits[0]), Feed(poly, y, bits[0]), bits[1..]);
      FeedIsStep(poly, x, bits[0]);
      FeedIsStep(poly, y, bits[0]);
      StepInjective(poly, Xor(x, bit), Xor(y, bit));
      XorLaws(x, y, bit);
      XorComm(x, bit);
      XorComm(y, bit);
      XorLaws(y, x, bit);
    }
  }

  lemma FeedIsStep(poly: bv32, c: bv32, bit: bool)
    ensures Feed(poly, c, bit) == Step(poly, Xor(c, if bit then 1 else 0))
  {
    hide Xor, Odd, Half;
    var w: bv32 := if bit then 1 else 0;
    XorOdd(c, w);
    XorHalf(c, w);
    OneBit();
    XorSelf(Half(c));
  }

  lemma OneBit()
    ensures Odd(1) && !Odd(0) && Half(1) == 0 && Half(0) == 0
  {
  }

  function Shl8(x: bv32): bv32 { x << 8 }

  /** Up to four bytes as one register word, first byte lowest. */
  function Pack(w: seq<Octet>): bv32
    requires |w| <= 4
  {
    if w == [] then 0 else Xor(Word(w[0]), Shl8(Pack(w[1..])))
  }

  /** k times one byte up. */
  function Up(x: bv32, k: nat): bv32
    decreases k
  {
    if k == 0 then x else Up(Shl8(x), k - 1)
  }

  /** Nothing is lost by moving the word up one byte. */
  predicate Keeps(x: bv32) { Shr8(Shl8(x)) == x }

  lemma Shl8Linear(x: bv32, y: bv32)
    ensures Shl8(Xor(x, y)) == Xor(Shl8(x), Shl8(y))
  {
  }

  lemma Shr8Linear(x: bv32, y: bv32)
    ensures Shr8(Xor(x, y)) == Xor(Shr8(x), Shr8(y))
  {
  }

  lemma Shl8Low(x: bv32)
    ensures Low(Shl8(x)) == 0
  {
  }

  lemma {:induction false} UpLinear(x: bv32, y: bv32, k: nat)
    ensures Up(Xor(x, y), k) == Xor(Up(x, k), Up(y, k))
    decreases k
  {
    hide Xor, Shl8;
    if k != 0 {
      Shl8Linear(x, y);
      Shr8Linear(x, y);
      Shl8Low(x);
      UpLinear(Shl8(x), Shl8(y), k - 1);
    }
  }

  lemma ByteKeeps(b: Octet)
    ensures Keeps(Word(b)) && Keeps(Shl8(Word(b))) && Keeps(Shl8(Shl8(Word(b))))
    ensures Shr8(Word(b)) == 0 && LowByte(Word(b)) == b
    ensures Keeps(0) && Shl8(0) == 0
  {
  }

  lemma {:induction false} PackKeeps(w: seq<Octet>, k: nat)
    requires |w| + k <= 3
    ensures Keeps(Up(Pack(w), k))
    decreases |w|
  {
    hide Xor, Shl8, Word, Keeps;
    if w == [] {
      UpZero(k);
    } else {
      var b, p := Word(w[0]), Pack(w[1..]);
      PackKeeps(w[1..], k + 1);
      UpLinear(b, Shl8(p), k);
      UpByte(w[0], k);
      KeepsXor(Up(b, k), Up(Shl8(p), k));
    }
  }

  lemma {:induction false} UpZero(k: nat)
    ensures Up(0, k) == 0 && Keeps(0)
  {
    hide Keeps, Shl8;
    ByteKeeps(0);
    if k != 0 {
      UpZero(k - 1);
    }
  }

  lemma UpByte(b: Octet, k: nat)
    requires k <= 2
    ensures Keeps(Up(Word(b), k))
  {
    hide Keeps, Shl8, Word;
    ByteKeeps(b);
    if k == 2 {
      assert Up(Word(b), 2) == Up(Shl8(Word(b)), 1) == Shl8(Shl8(Word(b)));
    }
  }

  lemma KeepsXor(x: bv32, y: bv32)
    requires Keeps(x) && Keeps(y)
    ensures Keeps(Xor(x, y))
  {
    hide Xor, Shl8, Shr8;
    Shl8Linear(x, y);
    Shr8Linear(x, y);
    Shl8Low(x);
    Shl8Linear(Shl8(x), Shl8(y));
    Shr8Linear(Shl8(x), Shl8(y));
    Shl8Low(Shl8(x));
  }

  /** A byte and the rest packed above it come apart again. */
  lemma Unpack(b: Octet, p: bv32)
    requires Keeps(p)
    ensures LowByte(Xor(Word(b), Shl8(p))) == b
    ensures Shr8(Xor(Word(b), Shl8(p))) == p
    ensures Low(Shl8(p)) == 0 && Shr8(Shl8(p)) == p
  {
    hide Shr8, Shl8, Xor, Word, LowByte, Low;
    Shl8Linear(Word(b), Shl8(p));
    Shr8Linear(Word(b), Shl8(p));
    Shl8Low(Word(b));
    Shl8Linear(p, p);
    Shr8Linear(p, p);
    Shl8Low(p);
    ByteKeeps(b);
    XorSelf(p);
    UnpackByte(b, p);
  }

  lemma UnpackByte(b: Octet, p: bv32)
    ensures LowByte(Xor(Word(b), Shl8(p))) == b
  {
    UnpackRaw(b, p);
  }

  lemma UnpackRaw(b: Octet, p: bv32)
    ensures (((b as bv32) ^ (p << 8)) & 0xff) as bv8 == b
  {
  }

  lemma {:induction false} PackInjective(v: seq<Octet>, w: seq<Octet>)
    requires |v| == |w| <= 4 && Pack(v) == Pack(w)
    ensures v == w
  {
    hide Xor, Shr8, Shl8, Word, LowByte, Keeps;
    if v != [] {
      PackKeeps(v[1..], 0);
      PackKeeps(w[1..], 0);
      Unpack(v[0], Pack(v[1..]));
      Unpack(w[0], Pack(w[1..]));
      PackInjective(v[1..], w[1..]);
      assert v == [v[0]] + v[1..] && w == [w[0]] + w[1..];
    }
  }

  /** Four bytes or fewer may be folded in together. */
  lemma {:induction false} FoldPack(poly: bv32, c: bv32, w: seq<Octet>)
    requires |w| <= 4
    ensures Serial(poly, c, MessageBits(w)) == Steps(poly, Xor(c, Pack(w)), 8 * |w|)
    decreases |w|
  {
    hide Xor, Serial, Steps, WordBits, Low, Shr8, Shl8, Shift, LowZero, Word, LowByte, Keeps, MessageBits;
    if w == [] {
      SerialNone(poly, c, w);
      StepsNone(poly, c);
      XorSelf(c);
    } else {
      var b, p := Word(w[0]), Pack(w[1..]);
      var c' := Serial(poly, c, WordBits(b, 8));
      assert [w[0]] + w[1..] == w;
      MessageBitsStep(w[0], w[1..]);
      SerialAppend(poly, c, WordBits(b, 8), MessageBits(w[1..]));
      FoldPack(poly, c', w[1..]);
      PackKeeps(w[1..], 0);
      Unpack(w[0], p);
      Shift8(Shl8(p));
      StepsShift(poly, Shl8(p), 8);
      ByteFolded(poly, c, w[0]);
      StepsLinear(poly, Xor(c, b), Shl8(p), 8);
      XorAssoc(c, b, Shl8(p));
      StepsCompose(poly, Xor(c, Pack(w)), 8, 8 * |w[1..]|);
    }
  }

  lemma ByteFolded(poly: bv32, c: bv32, b: Octet)
    ensures Serial(poly, c, WordBits(Word(b), 8)) == Steps(poly, Xor(c, Word(b)), 8)
  {
    hide *;
    ByteStep(poly, c, b);
    ByteIsLow(b);
    TableStep(poly, c, Word(b));
  }

  // ----- Bits as bytes -----

  function Bit(x: bool, at: Octet): Octet { if x then at else 0 }

  function ByteOf(u: seq<bool>): Octet
    requires |u| == 8
  {
    Bit(u[0], 1) | Bit(u[1], 2) | Bit(u[2], 4) | Bit(u[3], 8) |
    Bit(u[4], 16) | Bit(u[5], 32) | Bit(u[6], 64) | Bit(u[7], 128)
  }

  lemma BitsOfByte(u: seq<bool>)
    requires |u| == 8
    ensures var c := Word(ByteOf(u)); var c4 := Half(Half(Half(Half(c))));
      && Odd(c) == u[0] && Odd(Half(c)) == u[1] && Odd(Half(Half(c))) == u[2] && Odd(Half(Half(Half(c)))) == u[3]
      && Odd(c4) == u[4] && Odd(Half(c4)) == u[5] && Odd(Half(Half(c4))) == u[6] && Odd(Half(Half(Half(c4)))) == u[7]
  {
  }

  lemma WordBitsStep(w: bv32, n: nat)
    ensures WordBits(w, n) == if n == 0 then [] else [Odd(w)] + WordBits(Half(w), n - 1)
  {
    hide Odd, Half;
  }

  /** Four named bits of a word. */
  lemma WordBits4(w: bv32, n: nat)
    ensures WordBits(w, n + 4)
         == [Odd(w), Odd(Half(w)), Odd(Half(Half(w))), Odd(Half(Half(Half(w))))] + WordBits(Half(Half(Half(Half(w)))), n)
  {
    hide Odd, Half, WordBits;
    WordBitsStep(w, n + 4);
    WordBitsStep(Half(w), n + 3);
    WordBitsStep(Half(Half(w)), n + 2);
    WordBitsStep(Half(Half(Half(w))), n + 1);
  }

  lemma ByteOfIs(u: seq<bool>)
    requires |u| == 8
    ensures WordBits(Word(ByteOf(u)), 8) == u
  {
    hide Odd, Half, WordBits, Word, ByteOf;
    var c := Word(ByteOf(u));
    BitsOfByte(u);
    WordBits4(c, 4);
    WordBits4(Half(Half(Half(Half(c)))), 0);
    WordBitsStep(Half(Half(Half(Half(Half(Half(Half(Half(c)))))))), 0);
  }

  /** Any bits that fill whole bytes are the bits of some message. */
  lemma {:induction false} BytesOf(u: seq<bool>) returns (data: seq<Octet>)
    requires |u| % 8 == 0
    ensures MessageBits(data) == u && 8 * |data| == |u|
    decreases |u|
  {
    hide WordBits, Word, ByteOf;
    if u == [] {
      data := [];
    } else {
      var b := ByteOf(u[..8]);
      var rest := BytesOf(u[8..]);
      ByteOfIs(u[..8]);
      data := [b] + rest;
      MessageBitsStep(b, rest);
    }
  }

  // ----- Error bursts -----

  /** From the same register, different bits up to 32 lead to different registers. */
  lemma BitsInjective(poly: bv32, c: bv32, v: seq<bool>, w: seq<bool>)
    requires Top(poly) && |v| == |w| <= 32 && Serial(poly, c, v) == Serial(poly, c, w)
    ensures v == w
  {
    hide Serial, MessageBits, Top;
    var fill := Zeros(32 - |v|);
    SerialAppend(poly, c, v, fill);
    SerialAppend(poly, c, w, fill);
    var x := BytesOf(v + fill);
    var y := BytesOf(w + fill);
    BytesInjective(poly, c, x, y);
    assert v == (v + fill)[..|v|] && w == (w + fill)[..|w|];
  }

  lemma BytesInjective(poly: bv32, c: bv32, v: seq<Octet>, w: seq<Octet>)
    requires Top(poly) && |v| == |w| <= 4
    requires Serial(poly, c, MessageBits(v)) == Serial(poly, c, MessageBits(w))
    ensures v == w
  {
    hide Serial, MessageBits, Top, Xor, Steps, Pack;
    FoldPack(poly, c, v);
    FoldPack(poly, c, w);
    StepsInjective(poly, Xor(c, Pack(v)), Xor(c, Pack(w)), 8 * |v|);
    XorLaws(Pack(v), Pack(w), c);
    XorLaws(Pack(w), Pack(v), c);
    PackInjective(v, w);
  }

  /** Two messages whose bits differ only within 32 adjacent ones, wherever in a byte they begin, never
      have the same checksum. */
  lemma DetectsBursts(poly: bv32, a: seq<Octet>, b: seq<Octet>, prev: bv32,
                      front: seq<bool>, v: seq<bool>, w: seq<bool>, back: seq<bool>)
    requires poly == CRC32_POLY || poly == CRC32C_POLY
    requires MessageBits(a) == front + v + back && MessageBits(b) == front + w + back
    requires |v| == |w| <= 32 && v != w
    ensures Crc(poly, a, prev) != Crc(poly, b, prev)
  {
    hide Serial, MessageBits, Not, Top;
    PolynomialsHaveTop();
    if Crc(poly, a, prev) == Crc(poly, b, prev) {
      SameChecksum(poly, Not(prev), front, v, w, back);
      assert false;
    }
  }

  lemma PolynomialsHaveTop()
    ensures Top(CRC32_POLY) && Top(CRC32C_POLY)
  {
  }

  lemma SameChecksum(poly: bv32, c: bv32, front: seq<bool>, v: seq<bool>, w: seq<bool>, back: seq<bool>)
    requires Top(poly) && |v| == |w| <= 32
    requires Not(Serial(poly, c, front + v + back)) == Not(Serial(poly, c, front + w + back))
    ensures v == w
  {
    hide Serial, Top, Not;
    var c' := Serial(poly, c, front);
    NotNot(Serial(poly, c, front + v + back));
    NotNot(Serial(poly, c, front + w + back));
    SerialAfter(poly, front, v, back, c);
    SerialAfter(poly, front, w, back, c);
    SerialInjective(poly, Serial(poly, c', v), Serial(poly, c', w), back);
    BitsInjective(poly, c', v, w);
  }

  lemma SerialAfter(poly: bv32, front: seq<bool>, v: seq<bool>, back: seq<bool>, c: bv32)
    ensures Serial(poly, c, front + v + back)
         == Serial(poly, Serial(poly, Serial(poly, c, front), v), back)
  {
    hide Serial;
    SerialAppend(poly, c, front + v, back);
    SerialAppend(poly, c, front, v);
  }

  /** In particular a change within four adjacent bytes is detected. */
  lemma DetectsByteBursts(poly: bv32, front: seq<Octet>, v: seq<Octet>, w: seq<Octet>, back: seq<Octet>, prev: bv32)
    requires poly == CRC32_POLY || poly == CRC32C_POLY
    requires |v| == |w| <= 4 && v != w
    ensures Crc(poly, front + v + back, prev) != Crc(poly, front + w + back, prev)
  {
    hide Serial, MessageBits, Not, Top, Crc;
    var a, b := front + v + back, front + w + back;
    BitsAround(front, v, back);
    BitsAround(front, w, back);
    MessageBitsLength(v);
    MessageBitsLength(w);
    PolynomialsHaveTop();
    if MessageBits(v) == MessageBits(w) {
      BytesInjective(poly, 0, v, w);
      assert false;
    }
    DetectsBursts(poly, a, b, prev, MessageBits(front), MessageBits(v), MessageBits(w), MessageBits(back));
  }

  lemma BitsAround(front: seq<Octet>, v: seq<Octet>, back: seq<Octet>)
    ensures MessageBits(front + v + back) == MessageBits(front) + MessageBits(v) + MessageBits(back)
  {
    hide MessageBits;
    MessageBitsAppend(front + v, back);
    MessageBitsAppend(front, v);
  }

  lemma {:induction false} MessageBitsLength(data: seq<Octet>)
    ensures |MessageBits(data)| == 8 * |data|
  {
    hide WordBits, Word;
    if data != [] { MessageBitsLength(data[1..]); }
  }

  // ----- The polynomials -----

  /** The bits of a register word, four at a time. */
  lemma NibblesOf(w: bv32, w1: bv32, w2: bv32, w3: bv32, w4: bv32, w5: bv32, w6: bv32, w7: bv32)
    requires Down(w, w1) && Down(w1, w2) && Down(w2, w3) && Down(w3, w4) && Down(w4, w5) && Down(w5, w6) && Down(w6, w7)
    ensures WordBits(w, 32) == Nibble(w) + (Nibble(w1) + (Nibble(w2) + (Nibble(w3)
      + (Nibble(w4) + (Nibble(w5) + (Nibble(w6) + (Nibble(w7) + [])))))))
  {
    hide Odd, Half, WordBits;
    WordBits4(w, 28);
    WordBits4(w1, 24);
    WordBits4(w2, 20);
    WordBits4(w3, 16);
    WordBits4(w4, 12);
    WordBits4(w5, 8);
    WordBits4(w6, 4);
    WordBits4(w7, 0);
    WordBitsStep(Half(Half(Half(Half(w7)))), 0);
  }

  predicate Down(w: bv32, next: bv32) { Half(Half(Half(Half(w)))) == next }

  function Nibble(w: bv32): (n: seq<bool>)
    ensures |n| == 4
  {
    [Odd(w), Odd(Half(w)), Odd(Half(Half(w))), Odd(Half(Half(Half(w))))]
  }

  /** The exponents of the two generators, apart from the leading one: those of IEEE 802.3 and of
      Castagnoli's polynomial. The bits of a word come with falling exponents, from 31 to 0. */
  lemma PolynomialsAre(e: nat)
    requires e < 32
    ensures WordBits(CRC32_POLY, 32)[31 - e] <==> e in {26, 23, 22, 16, 12, 11, 10, 8, 7, 5, 4, 2, 1, 0}
    ensures WordBits(CRC32C_POLY, 32)[31 - e]
       <==> e in {28, 27, 26, 25, 23, 22, 20, 19, 18, 14, 13, 11, 10, 9, 8, 6, 0}
  {
    hide WordBits;
    NibblesOf(CRC32_POLY, 0xEDB8832, 0xEDB883, 0xEDB88, 0xEDB8, 0xEDB, 0xED, 0xE);
    NibblesOf(CRC32C_POLY, 0x82F63B7, 0x82F63B, 0x82F63, 0x82F6, 0x82F, 0x82, 0x8);
  }
}
