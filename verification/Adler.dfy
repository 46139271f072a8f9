/** Adler-32 with the reductions deferred to every 5552 bytes: it never overflows 32 bits and
    equals the sums of section 2.2 of RFC 1950, which are reduced after every byte. */
module Adler {
  import opened Common
  import opened Bytes

  const MOD: nat := 65521
  const CHUNK: nat := 5552

  type UInt32 = x: nat | x < TWO32

  // ----- The definition: two sums, each reduced after every byte -----

  datatype Sums = Sums(s1: nat, s2: nat)

  function AddByte(s: Sums, b: Byte): Sums {
    var s1 := (s.s1 + b) % MOD;
    Sums(s1, (s.s2 + s1) % MOD)
  }

  function SumsOf(s: Sums, data: ByteString): Sums
    decreases |data|
  {
    if data == [] then s else SumsOf(AddByte(s, data[0]), data[1..])
  }

  /** A checksum as two 16-bit halves. */
  function Split(prev: UInt32): Sums {
    Sums(prev % 0x1_0000, prev / 0x1_0000)
  }

  function Join(s: Sums): nat {
    s.s2 * 0x1_0000 + s.s1
  }

  function Checksum(data: ByteString, prev: UInt32): nat {
    Join(SumsOf(Split(prev), data))
  }

  lemma {:induction false} SumsAppend(s: Sums, x: ByteString, y: ByteString)
    ensures SumsOf(s, x + y) == SumsOf(SumsOf(s, x), y)
    decreases |x|
  {
    hide AddByte;
    if x == [] {
      assert x + y == y;
    } else {
      assert (x + y)[1..] == x[1..] + y;
      SumsAppend(AddByte(s, x[0]), x[1..], y);
    }
  }

  lemma {:induction false} SumsAreHalves(s: Sums, data: ByteString)
    requires s.s1 < 0x1_0000 && s.s2 < 0x1_0000
    ensures SumsOf(s, data).s1 < 0x1_0000 && SumsOf(s, data).s2 < 0x1_0000
    ensures data != [] ==> SumsOf(s, data).s1 < MOD && SumsOf(s, data).s2 < MOD
    decreases |data|
  {
    if data != [] {
      SumsAreHalves(AddByte(s, data[0]), data[1..]);
    }
  }

  /** A checksum continues from the checksum of what came before. */
  lemma ChecksumContinues(x: ByteString, y: ByteString, prev: UInt32)
    ensures Checksum(x, prev) < TWO32
    ensures Checksum(x + y, prev) == Checksum(y, Checksum(x, prev))
  {
    hide SumsOf;
    SumsAreHalves(Split(prev), x);
    SumsAppend(Split(prev), x, y);
    var s := SumsOf(Split(prev), x);
    assert Split(Join(s)) == s;
  }

  // ----- Deferring the reduction -----

  /** The sums without any reduction. */
  function RawSums(s: Sums, data: ByteString): Sums {
    if data == [] then s
    else
      var r := RawSums(s, data[..|data| - 1]);
      var s1 := r.s1 + data[|data| - 1];
      Sums(s1, r.s2 + s1)
  }

  /** The largest second sum that n bytes can reach from any 16-bit start. */
  function Limit(n: nat): nat {
    if n == 0 then 0xffff else Limit(n - 1) + 0xffff + 255 * n
  }

  lemma {:induction false} LimitFormula(n: nat)
    ensures 2 * Limit(n) == 2 * 0xffff * (n + 1) + 255 * (n * n + n)
  {
    if n != 0 {
      LimitFormula(n - 1);
      assert (n - 1) * (n - 1) + (n - 1) + 2 * n == n * n + n;
    }
  }

  lemma {:induction false} LimitMonotone(m: nat, n: nat)
    requires m <= n
    ensures Limit(m) <= Limit(n)
    decreases n
  {
    if m < n {
      LimitMonotone(m, n - 1);
    }
  }

  /** 5552 bytes fit 32 bits, and one more would not. */
  lemma ChunkIsLargest()
    ensures Limit(CHUNK) < TWO32 <= Limit(CHUNK + 1)
  {
    hide Limit;
    LimitFormula(CHUNK);
    LimitFormula(CHUNK + 1);
  }

  lemma {:induction false} RawSumsBounded(s: Sums, data: ByteString)
    requires s.s1 <= 0xffff && s.s2 <= 0xffff
    ensures RawSums(s, data).s1 <= 0xffff + 255 * |data|
    ensures RawSums(s, data).s2 <= Limit(|data|)
  {
    if data != [] {
      RawSumsBounded(s, data[..|data| - 1]);
    }
  }

  /** The bound is met: all-ones data from an all-ones start. */
  lemma {:induction false} LimitIsReached(n: nat)
    ensures RawSums(Sums(0xffff, 0xffff), seq(n, i => 255)) == Sums(0xffff + 255 * n, Limit(n))
  {
    if n != 0 {
      LimitIsReached(n - 1);
      var data: ByteString := seq(n, i => 255);
      assert data[..n - 1] == seq(n - 1, i => 255);
    }
  }

  predicate Congruent(r: Sums, s: Sums) {
    r.s1 % MOD == s.s1 % MOD && r.s2 % MOD == s.s2 % MOD
  }

  lemma {:induction false} RawSumsCongruent(s: Sums, data: ByteString)
    ensures Congruent(RawSums(s, data), SumsOf(s, data))
  {
    hide SumsOf, RawSums, AddByte, Congruent;
    if data == [] {
      SumsOfNone(s);
      RawSumsOfNone(s);
      CongruentSelf(s);
    } else {
      var front, last := data[..|data| - 1], data[|data| - 1];
      assert data == front + [last];
      RawSumsCongruent(s, front);
      SumsAppend(s, front, [last]);
      SumsOfOne(SumsOf(s, front), last);
      RawSumsStep(s, data);
      CongruentStep(RawSums(s, front), SumsOf(s, front), last);
    }
  }

  lemma CongruentSelf(s: Sums)
    ensures Congruent(s, s)
  {
  }

  lemma CongruentStep(r: Sums, s: Sums, b: Byte)
    requires Congruent(r, s)
    ensures Congruent(Sums(r.s1 + b, r.s2 + (r.s1 + b)), AddByte(s, b))
  {
    ModAdd(r.s1, s.s1, b, b);
    ModAdd(r.s2, s.s2, r.s1 + b, s.s1 + b);
    ModAdd(s.s2, s.s2, s.s1 + b, (s.s1 + b) % MOD);
  }

  lemma ModAdd(x: nat, x': nat, y: nat, y': nat)
    requires x % MOD == x' % MOD && y % MOD == y' % MOD
    ensures (x + y) % MOD == (x' + y') % MOD
  {
    ModSum(x, y);
    ModSum(x', y');
  }

  lemma ModSum(x: nat, y: nat)
    ensures (x + y) % MOD == (x % MOD + y % MOD) % MOD
  {
    var q := x / MOD + y / MOD;
    assert x + y == q * MOD + (x % MOD + y % MOD);
  }

  lemma SumsOfNone(s: Sums)
    ensures SumsOf(s, []) == s
  {
  }

  lemma SumsOfOne(s: Sums, b: Byte)
    ensures SumsOf(s, [b]) == AddByte(s, b)
  {
    assert [b][1..] == [];
  }

  // ----- The implementation -----

  /** 32-bit unsigned addition. */
  function Add32(x: nat, y: nat): UInt32 {
    (x + y) % TWO32
  }

  method Adler32(data: ByteString, prev: UInt32) returns (r: UInt32)
    ensures r == Checksum(data, prev)
  {
    hide SumsOf, RawSums, Limit, Congruent, AddByte;
    var a: nat, b: nat := prev % 0x1_0000, prev / 0x1_0000 % 0x1_0000;
    var pos: nat, size: nat := 0, |data|;
    assert data[0..] == data;
    ghost var start := Split(prev);
    while size > 0
      invariant pos + size == |data|
      invariant a <= 0xffff && b <= 0xffff
      invariant SumsOf(Sums(a, b), data[pos..]) == SumsOf(start, data)
    {
      var tlen := if size > CHUNK then CHUNK else size;
      size := size - tlen;
      ghost var s, chunk := Sums(a, b), data[pos..pos + tlen];
      RawSumsOfNone(s);
      for k := 0 to tlen
        invariant a == RawSums(s, chunk[..k]).s1 && b == RawSums(s, chunk[..k]).s2
      {
        assert chunk[..k + 1][..k] == chunk[..k] && chunk[k] == data[pos + k];
        RawSumsStep(s, chunk[..k + 1]);
        NoOverflow(s, chunk[..k + 1]);
        a := Add32(a, data[pos + k]);
        b := Add32(b, a);
      }
      assert chunk[..tlen] == chunk && data[pos..] == chunk + data[pos + tlen..];
      SumsAppend(s, chunk, data[pos + tlen..]);
      ReducedChunk(s, chunk);
      a := a % MOD;
      b := b % MOD;
      pos := pos + tlen;
    }
    SumsOfNone(Sums(a, b));
    assert data[pos..] == [];
    return Join(Sums(a, b));
  }

  /** One reduction at the end of a chunk is as good as one after every byte. */
  lemma ReducedChunk(s: Sums, chunk: ByteString)
    requires s.s1 <= 0xffff && s.s2 <= 0xffff && chunk != []
    ensures var r := RawSums(s, chunk); SumsOf(s, chunk) == Sums(r.s1 % MOD, r.s2 % MOD)
  {
    hide SumsOf, RawSums;
    RawSumsCongruent(s, chunk);
    SumsAreHalves(s, chunk);
  }

  lemma RawSumsOfNone(s: Sums)
    ensures RawSums(s, []) == s
  {
  }

  lemma RawSumsStep(s: Sums, data: ByteString)
    requires data != []
    ensures var r, last := RawSums(s, data[..|data| - 1]), data[|data| - 1];
      RawSums(s, data) == Sums(r.s1 + last, r.s2 + (r.s1 + last))
  {
  }

  /** Within one chunk no sum leaves 32 bits. */
  lemma NoOverflow(s: Sums, data: ByteString)
    requires s.s1 <= 0xffff && s.s2 <= 0xffff && |data| <= CHUNK
    ensures RawSums(s, data).s1 < TWO32 && RawSums(s, data).s2 < TWO32
  {
    hide RawSums, Limit;
    RawSumsBounded(s, data);
    LimitMonotone(|data|, CHUNK);
    ChunkIsLargest();
  }

  // ----- The checksum in closed form -----

  function Total(data: ByteString): nat {
    if data == [] then 0 else data[0] + Total(data[1..])
  }

  /** Each byte times its place, counted from the end. */
  function Weighted(data: ByteString): nat {
    if data == [] then 0 else |data| * data[0] + Weighted(data[1..])
  }

  lemma {:induction false} TotalsSnoc(data: ByteString, b: Byte)
    ensures Total(data + [b]) == Total(data) + b && Weighted(data + [b]) == Weighted(data) + Total(data) + b
  {
    hide Total, Weighted;
    TotalsStep(data);
    TotalsStep(data + [b]);
    if data == [] {
      assert data + [b] == [b] && [b][1..] == [];
      TotalsStep([]);
    } else {
      assert (data + [b])[1..] == data[1..] + [b] && (data + [b])[0] == data[0];
      TotalsSnoc(data[1..], b);
      OneMore(|data|, data[0]);
    }
  }

  lemma OneMore(n: nat, b: nat)
    ensures (n + 1) * b == n * b + b
  {
  }

  lemma TotalsStep(data: ByteString)
    ensures Total(data) == if data == [] then 0 else data[0] + Total(data[1..])
    ensures Weighted(data) == if data == [] then 0 else |data| * data[0] + Weighted(data[1..])
  {
  }

  lemma {:induction false} RawSumsAre(s: Sums, data: ByteString)
    ensures RawSums(s, data) == Sums(s.s1 + Total(data), s.s2 + |data| * s.s1 + Weighted(data))
    decreases |data|
  {
    hide RawSums;
    if data == [] {
      RawSumsOfNone(s);
    } else {
      var front, b := data[..|data| - 1], data[|data| - 1];
      RawSumsStep(s, data);
      RawSumsAre(s, front);
      TotalsSnoc(front, b);
      assert data == front + [b];
      assert |data| * s.s1 == |front| * s.s1 + s.s1;
    }
  }

  /** Both halves outright, from any previous checksum. */
  lemma ChecksumIs(data: ByteString, prev: UInt32)
    requires data != []
    ensures Checksum(data, prev)
         == (prev / 65536 + |data| * (prev % 65536) + Weighted(data)) % 65521 * 65536
          + (prev % 65536 + Total(data)) % 65521
  {
    hide Total, Weighted, SumsOf, RawSums;
    SumsAre(Split(prev), data);
  }

  lemma SumsAre(s: Sums, data: ByteString)
    requires data != [] && s.s1 < 0x1_0000 && s.s2 < 0x1_0000
    ensures SumsOf(s, data)
         == Sums((s.s1 + Total(data)) % 65521, (s.s2 + |data| * s.s1 + Weighted(data)) % 65521)
  {
    hide Total, Weighted, SumsOf, RawSums;
    RawSumsAre(s, data);
    RawSumsCongruent(s, data);
    SumsAreHalves(s, data);
    var r := SumsOf(s, data);
    assert r.s1 % MOD == r.s1 && r.s2 % MOD == r.s2;
  }
}
