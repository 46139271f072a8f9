/** What MD5, SHA-1 and SHA-256 share: folding a compression function over 64-byte blocks,
    feeding a message in pieces, and padding. */
module BlockHash {
  import opened Common

  type Message = seq<Octet>

  type Block = b: Message | |b| == 64 witness seq(64, i => 0)

  /** The chaining value after all complete blocks of the message. */
  function Absorb<S>(compress: (S, Block) -> S, s: S, data: Message): S
    decreases |data|
  {
    if |data| < 64 then s
    else
      var block: Block := data[..64];
      Absorb(compress, compress(s, block), data[64..])
  }

  /** The bytes behind the last complete block. */
  function Tail(data: Message): (t: Message)
    ensures |t| == |data| % 64
  {
    data[|data| - |data| % 64..]
  }

  lemma TailLength(data: Message)
    ensures |Tail(data)| == |data| % 64
  {
  }

  lemma AbsorbStep<S>(compress: (S, Block) -> S, s: S, data: Message)
    ensures |data| < 64 ==> Absorb(compress, s, data) == s
    ensures 64 <= |data| ==>
      var block: Block := data[..64];
      Absorb(compress, s, data) == Absorb(compress, compress(s, block), data[64..])
  {
  }

  lemma TailStep(data: Message)
    ensures |data| < 64 ==> Tail(data) == data
    ensures 64 <= |data| ==> Tail(data) == Tail(data[64..])
  {
    if 64 <= |data| {
      assert |data[64..]| % 64 == |data| % 64;
    }
  }

  /** A message in two pieces: only the incomplete block of the first piece matters. */
  lemma {:induction false} AbsorbAppend<S>(compress: (S, Block) -> S, s: S, a: Message, b: Message)
    ensures Absorb(compress, s, a + b) == Absorb(compress, Absorb(compress, s, a), Tail(a) + b)
    ensures Tail(a + b) == Tail(Tail(a) + b)
    decreases |a|
  {
    hide Absorb, Tail;
    AbsorbStep(compress, s, a);
    AbsorbStep(compress, s, a + b);
    TailStep(a);
    TailStep(a + b);
    if 64 <= |a| {
      assert (a + b)[..64] == a[..64] && (a + b)[64..] == a[64..] + b;
      var block: Block := a[..64];
      AbsorbAppend(compress, compress(s, block), a[64..], b);
    }
  }

  // ----- Padding: one bit, zeros up to 56 modulo 64, and eight bytes of length -----

  function ZeroCount(n: nat): (k: nat)
    ensures k < 64 && (n + 1 + k) % 64 == 56
  {
    (119 - n % 64) % 64
  }

  function Zeros(k: nat): Message { seq(k, i => 0) }

  function Pad(m: Message, length: Message): Message {
    Padded(m, ZeroCount(|m|)) + length
  }

  /** A message with its one bit and the first k padding zeros. */
  function Padded(m: Message, k: nat): (p: Message)
    ensures |p| == |m| + 1 + k
  {
    m + [0x80] + Zeros(k)
  }

  lemma PaddedStep(m: Message, k: nat)
    ensures Padded(m, 0) == m + [0x80]
    ensures Padded(m, k + 1) == Padded(m, k) + [0x00]
  {
    assert Zeros(k + 1) == Zeros(k) + [0x00];
  }

  /** The number of zeros is the least one that leaves room for exactly the length. */
  lemma PadIsMinimal(m: Message, length: Message)
    requires |length| == 8
    ensures |Pad(m, length)| % 64 == 0 && m <= Pad(m, length)
    ensures forall k :: 0 <= k < ZeroCount(|m|) ==> |Padded(m, k)| % 64 != 56
  {
    hide ZeroCount;
    var n, z := |m|, ZeroCount(|m|);
    assert Pad(m, length)[..n] == m;
    DivModIs(n + 1 + z + 8, (n + 1 + z) / 64 + 1, 0, 64);
    forall k | 0 <= k < z ensures |Padded(m, k)| % 64 != 56 {
      if (n + 1 + k) % 64 == 56 { PadDone(n, k); }
    }
  }

  /** Byte i of a 64-bit number, counted from the least significant. */
  function ByteOf(v: nat, i: nat): Octet
  {
    if i == 0 then (v % 256) as Octet else ByteOf(v / 256, i - 1)
  }

  function LittleEndian64(v: nat): (s: Message)
    ensures |s| == 8
  {
    seq(8, i requires 0 <= i < 8 => ByteOf(v, i))
  }

  function BigEndian64(v: nat): (s: Message)
    ensures |s| == 8
  {
    seq(8, i requires 0 <= i < 8 => ByteOf(v, 7 - i))
  }

  // ----- Two 32-bit counters as one 64-bit number of bits -----

  /** 2^29 bytes are 2^32 bits. */
  const BYTES29: nat := 0x2000_0000

  /** count0 and count1 are the halves of the message length in bits, modulo 2^64. */
  predicate Counts(count0: nat, count1: nat, bytes: nat) {
    count0 == 8 * (bytes % BYTES29) && count1 == bytes / BYTES29 % TWO32
  }

  lemma CountsAreBits(count0: nat, count1: nat, bytes: nat)
    requires Counts(count0, count1, bytes)
    ensures count0 < TWO32 && count1 < TWO32 && count1 * TWO32 + count0 == 8 * bytes % TWO64
  {
    var q, r := bytes / BYTES29, bytes % BYTES29;
    var h := q / TWO32;
    assert 8 * bytes == h * TWO64 + (count1 * TWO32 + count0);
  }

  lemma CountsIndex(count0: nat, count1: nat, bytes: nat)
    requires Counts(count0, count1, bytes)
    ensures count0 / 8 % 64 == bytes % 64
  {
    var q, r := bytes / BYTES29, bytes % BYTES29;
    DivModIs(bytes, 0x80_0000 * q + r / 64, r % 64, 64);
    assert count0 / 8 == r;
  }

  /** One update of the counters: the low half with its carry, and the high half of the bits. */
  lemma CountsAdd(count0: nat, count1: nat, bytes: nat, len: nat, low: nat, new0: nat, new1: nat)
    requires Counts(count0, count1, bytes)
    requires low == 8 * len % TWO32 && new0 == (count0 + low) % TWO32
    requires new1 == (count1 + (if new0 < low then 1 else 0) + len / BYTES29 % TWO32) % TWO32
    ensures Counts(new0, new1, bytes + len)
  {
    var q, r, p, t := bytes / BYTES29, bytes % BYTES29, len / BYTES29, len % BYTES29;
    DivModIs(8 * len, p, 8 * t, TWO32);
    var carry := if r + t < BYTES29 then 0 else 1;
    DivModIs(count0 + low, carry, 8 * (r + t - carry * BYTES29), TWO32);
    DivModIs(bytes + len, q + p + carry, r + t - carry * BYTES29, BYTES29);
    CarrySum(q, carry, p);
  }

  lemma CountsRange(count0: nat, count1: nat, bytes: nat)
    requires Counts(count0, count1, bytes)
    ensures count0 < TWO32 && count1 < TWO32
  {
  }

  /** Cutting the byte count before shifting it to bits loses nothing of the low word. */
  lemma LowBits(len: nat)
    ensures len % TWO32 * 8 % TWO32 == 8 * len % TWO32
    ensures 8 * len % TWO64 % TWO32 == 8 * len % TWO32
  {
    var l := len % TWO32;
    DivModIs(8 * len, 8 * (len / TWO32) + 8 * l / TWO32, 8 * l % TWO32, TWO32);
    var h := 8 * len % TWO64;
    DivModIs(8 * len, (8 * len / TWO64) * TWO32 + h / TWO32, h % TWO32, TWO32);
  }

  lemma CarryTwice(count1: nat, carry: nat, high: nat)
    requires count1 < TWO32 && carry <= 1
    ensures ((count1 + carry) % TWO32 + high) % TWO32 == (count1 + carry + high) % TWO32
  {
    CarrySum(count1 + carry, 0, high);
    CarrySum(count1 + carry, high, 0);
  }

  /** The counter arithmetic of Update: the low word, its carry, and the bits above it. low is the
      number of bits as the code cuts it to 32 bits. */
  method AddLength(count0: nat, count1: nat, len: nat, low: nat, ghost bytes: nat) returns (new0: nat, new1: nat)
    requires Counts(count0, count1, bytes) && low == 8 * len % TWO32
    ensures Counts(new0, new1, bytes + len)
  {
    hide Counts;
    CountsRange(count0, count1, bytes);
    new0 := (count0 + low) % TWO32;
    var carry := if new0 < low then 1 else 0;
    new1 := (count1 + carry) % TWO32;
    new1 := (new1 + len / BYTES29 % TWO32) % TWO32;
    CarryTwice(count1, carry, len / BYTES29 % TWO32);
    CountsAdd(count0, count1, bytes, len, low, new0, new1);
  }

  /** The padding loop runs exactly ZeroCount times. */
  lemma PadNotYet(n: nat, k: nat)
    requires k <= ZeroCount(n) && (n + 1 + k) % 64 != 56
    ensures k < ZeroCount(n)
  {
  }

  lemma PadDone(n: nat, k: nat)
    requires k <= ZeroCount(n) && (n + 1 + k) % 64 == 56
    ensures k == ZeroCount(n)
  {
  }

  lemma CarrySum(x: nat, c: nat, y: nat)
    ensures (x % TWO32 + c + y % TWO32) % TWO32 == (x + y + c) % TWO32
  {
    var u, v := x / TWO32, y / TWO32;
    var z := x % TWO32 + c + y % TWO32;
    DivModIs(x + y + c, u + v + z / TWO32, z % TWO32, TWO32);
  }

  // ----- Words -----

  type Word = bv32

  /** Addition modulo 2^32. */
  function Add(x: Word, y: Word): Word { x + y }

  function RotL(x: Word, n: bv6): Word
    requires n <= 32
  {
    (x << n) | (x >> (32 - n))
  }

  /** Word t of a block, most significant byte first. */
  function LoadBig(block: Block, t: nat): Word
    requires t < 16
  {
    ((block[4 * t] as Word) << 24) | ((block[4 * t + 1] as Word) << 16) |
    ((block[4 * t + 2] as Word) << 8) | (block[4 * t + 3] as Word)
  }

  /** Four bytes of a word, most significant first. */
  function BigBytes(x: Word): Message {
    [(x >> 24) as Octet, ((x >> 16) & 0xff) as Octet, ((x >> 8) & 0xff) as Octet, (x & 0xff) as Octet]
  }

  // ----- Copying into the partial block -----

  /** What the partial block holds after a copy behind its first j bytes. */
  lemma CopiedBehind(buffer: array<Octet>, j: nat, front: Message, src: Message)
    requires j + |src| <= buffer.Length && buffer[..j] == front && buffer[j..j + |src|] == src
    ensures buffer[..|front + src|] == front + src
  {
    assert buffer[..j + |src|] == buffer[..j] + buffer[j..j + |src|];
  }

  method Memcpy(dst: array<Octet>, at: nat, src: Message)
    requires at + |src| <= dst.Length
    modifies dst
    ensures dst[..at] == old(dst[..at]) && dst[at..at + |src|] == src
    ensures dst[at + |src|..] == old(dst[at + |src|..])
  {
    for i := 0 to |src|
      invariant dst[..at] == old(dst[..at]) && dst[at..at + i] == src[..i]
      invariant dst[at + |src|..] == old(dst[at + |src|..])
    {
      dst[at + i] := src[i];
    }
  }
}
