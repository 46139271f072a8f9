/** Symbol lookup through the two ELF hash tables, against a linear scan of the symbols. */
module ElfLookup {
  import opened Common
  import opened Bytes

  type CString = s: ByteString | 0 !in s witness []

  /** The symbol and string tables: names[i] is st_name of symbol i, an offset into strtab. */
  datatype Symbols = Symbols(names: seq<nat>, strtab: ByteString)

  /** The bytes from an offset to the terminating NUL. */
  function StringAt(strtab: ByteString, at: nat): (r: CString)
    requires at <= |strtab|
    ensures at + |r| <= |strtab| && strtab[at..at + |r|] == r
    ensures at + |r| < |strtab| ==> strtab[at + |r|] == 0
    decreases |strtab| - at
  {
    if at == |strtab| || strtab[at] == 0 then [] else [strtab[at]] + StringAt(strtab, at + 1)
  }

  ghost predicate Named(s: Symbols, from: nat) {
    forall i :: from <= i < |s.names| ==> s.names[i] < |s.strtab|
  }

  function NameOf(s: Symbols, i: nat): CString
    requires i < |s.names| && s.names[i] < |s.strtab|
  {
    StringAt(s.strtab, s.names[i])
  }

  // ----- The GNU hash table -----

  /** A 32-bit number; the arithmetic of the hashes wraps. */
  type Word32 = h: nat | h < TWO32

  /** (h << 5) + h + c. */
  function GnuStep(h: Word32, c: Byte): Word32 {
    (h * 32 % TWO32 + h + c) % TWO32
  }

  function GnuFold(h: Word32, name: CString): Word32
    decreases |name|
  {
    if name == [] then h else GnuFold(GnuStep(h, name[0]), name[1..])
  }

  function GnuHash(name: CString): Word32 {
    GnuFold(5381, name)
  }

  method GnuHashSymName(name: CString) returns (h: Word32)
    ensures h == GnuHash(name)
  {
    hide GnuStep;
    h := 5381;
    var i := 0;
    assert name[0..] == name;
    while i < |name|
      invariant 0 <= i <= |name|
      invariant GnuFold(h, name[i..]) == GnuHash(name)
    {
      assert name[i..][1..] == name[i + 1..];
      h := GnuStep(h, name[i]);
      i := i + 1;
    }
  }

  /** The table behind DT_GNU_HASH. Symbols below symOffset are not hashed. A filter word has as many
      bits as an address of the ELF class. */
  datatype GnuTable = GnuTable(
    buckets: seq<nat>, symOffset: nat, classBits: nat, bloomSize: bv32, bloomShift: nat, bloom: seq<nat>, chain: seq<Word32>)

  function Pow2(n: nat): (p: nat)
    ensures p > 0
  {
    if n == 0 then 1 else 2 * Pow2(n - 1)
  }

  predicate ElfClass(bits: nat) {
    bits == 32 || bits == 64
  }

  predicate BitSet(w: nat, k: nat) {
    w / Pow2(k) % 2 == 1
  }

  predicate PowerOfTwo(n: bv32) {
    n != 0 && n & (n - 1) == 0
  }

  /** h | 1: chain words carry the hash in their upper 31 bits. */
  function Upper(h: Word32): Word32 { h / 2 * 2 + 1 }

  predicate EndBit(h: Word32) { h % 2 == 1 }

  /** The bucket of symbol i, by its name. */
  ghost function SymBucket(t: GnuTable, s: Symbols, i: nat): nat
    requires |t.buckets| > 0 && i < |s.names| && s.names[i] < |s.strtab|
  {
    GnuHash(NameOf(s, i)) % |t.buckets|
  }

  ghost predicate GnuShape(t: GnuTable, s: Symbols) {
    && |t.buckets| > 0 && ElfClass(t.classBits)
    && PowerOfTwo(t.bloomSize) && t.bloomSize as int == |t.bloom| && |t.bloom| > 0 && t.bloomShift < 32
    && 0 < t.symOffset <= |s.names| && |t.chain| == |s.names| - t.symOffset
    && Named(s, t.symOffset)
  }

  /** What the linker promises: the hashed symbols are sorted by bucket, each bucket points at
      its first symbol, the chain repeats their hashes and marks the last of each bucket, and the
      Bloom filter has every symbol's bits. */
  ghost predicate GnuWellFormed(t: GnuTable, s: Symbols) {
    && GnuShape(t, s)
    && (forall i, j :: t.symOffset <= i <= j < |s.names| ==> SymBucket(t, s, i) <= SymBucket(t, s, j))
    && (forall i :: t.symOffset <= i < |s.names| ==>
          && Upper(t.chain[i - t.symOffset]) == Upper(GnuHash(NameOf(s, i)))
          && (EndBit(t.chain[i - t.symOffset]) <==>
              i + 1 == |s.names| || SymBucket(t, s, i + 1) != SymBucket(t, s, i)))
    && (forall i :: t.symOffset <= i < |s.names| ==>
          && t.symOffset <= t.buckets[SymBucket(t, s, i)] <= i
          && SymBucket(t, s, t.buckets[SymBucket(t, s, i)]) == SymBucket(t, s, i))
    && (forall b :: 0 <= b < |t.buckets| && t.symOffset <= t.buckets[b] ==>
          t.buckets[b] < |s.names| && SymBucket(t, s, t.buckets[b]) == b)
    && (forall i :: t.symOffset <= i < |s.names| ==> InBloom(t, GnuHash(NameOf(s, i))))
  }

  /** The filter word, chosen by the hash above its bit number, has both bits of the hash: that of the
      hash itself and that of the shifted hash, modulo the width of a word. */
  ghost predicate InBloom(t: GnuTable, h: Word32)
    requires ElfClass(t.classBits) && |t.bloom| > 0
  {
    var word := t.bloom[h / t.classBits % |t.bloom|];
    BitSet(word, h % t.classBits) && BitSet(word, h / Pow2(t.bloomShift) % t.classBits)
  }

  /** The first symbol from index i on with the given name. */
  function LinearScan(s: Symbols, i: nat, name: CString): Option<nat>
    requires Named(s, i)
    decreases |s.names| - i
  {
    if i >= |s.names| then None
    else if NameOf(s, i) == name then Some(i)
    else LinearScan(s, i + 1, name)
  }

  lemma {:induction false} LinearScanIs(s: Symbols, i: nat, name: CString, r: Option<nat>)
    requires Named(s, i)
    requires r.Some? ==> i <= r.value < |s.names| && NameOf(s, r.value) == name
    requires forall k :: i <= k < |s.names| && (r.Some? ==> k < r.value) ==> NameOf(s, k) != name
    ensures r == LinearScan(s, i, name)
    decreases |s.names| - i
  {
    hide StringAt;
    if i < |s.names| && NameOf(s, i) != name {
      LinearScanIs(s, i + 1, name, r);
    }
  }

  /** No symbol from `from` up to `to` has the name. */
  ghost predicate Absent(s: Symbols, from: nat, to: nat, name: CString)
    requires Named(s, from) && to <= |s.names|
  {
    forall k :: from <= k < to ==> NameOf(s, k) != name
  }

  lemma BloomMiss(t: GnuTable, s: Symbols, name: CString)
    requires GnuWellFormed(t, s) && !InBloom(t, GnuHash(name))
    ensures Absent(s, t.symOffset, |s.names|, name)
  {
    hide NameOf, GnuHash, InBloom, SymBucket;
  }

  lemma EmptyBucket(t: GnuTable, s: Symbols, name: CString)
    requires GnuWellFormed(t, s)
    requires t.buckets[GnuHash(name) % |t.buckets|] < t.symOffset
    ensures Absent(s, t.symOffset, |s.names|, name)
  {
    hide NameOf, GnuHash, InBloom;
    forall k | t.symOffset <= k < |s.names| ensures NameOf(s, k) != name {
      assert t.symOffset <= t.buckets[SymBucket(t, s, k)];
    }
  }

  lemma BucketStart(t: GnuTable, s: Symbols, name: CString)
    requires GnuWellFormed(t, s)
    requires t.symOffset <= t.buckets[GnuHash(name) % |t.buckets|]
    ensures var b := GnuHash(name) % |t.buckets|;
      t.buckets[b] < |s.names| && SymBucket(t, s, t.buckets[b]) == b
    ensures Absent(s, t.symOffset, t.buckets[GnuHash(name) % |t.buckets|], name)
  {
    hide NameOf, GnuHash, InBloom;
    var b := GnuHash(name) % |t.buckets|;
    forall k | t.symOffset <= k < t.buckets[b] ensures NameOf(s, k) != name {
      assert t.buckets[SymBucket(t, s, k)] <= k;
    }
  }

  lemma BucketEnd(t: GnuTable, s: Symbols, name: CString, i: nat)
    requires GnuWellFormed(t, s) && t.symOffset <= i < |s.names|
    requires SymBucket(t, s, i) == GnuHash(name) % |t.buckets|
    requires Absent(s, t.symOffset, i + 1, name)
    requires i + 1 == |s.names| || SymBucket(t, s, i + 1) != SymBucket(t, s, i)
    ensures Absent(s, t.symOffset, |s.names|, name)
  {
    hide NameOf, GnuHash, InBloom;
    forall k | i < k < |s.names| ensures NameOf(s, k) != name {
      assert SymBucket(t, s, i) <= SymBucket(t, s, i + 1) <= SymBucket(t, s, k);
    }
  }

  /** Where the linear scan goes through all hashed symbols, the lookup reads one filter word,
      one bucket and one run of the chain; both find the same symbol, or neither finds one. */
  method GnuLookup(t: GnuTable, s: Symbols, name: CString) returns (r: Option<nat>)
    requires GnuWellFormed(t, s)
    ensures r == LinearScan(s, t.symOffset, name)
  {
    hide GnuFold, GnuHash, NameOf, BitSet, Upper, EndBit, LinearScan, PowerOfTwo, SymBucket;
    var nameHash := GnuHashSymName(name);
    if |t.buckets| == 0 || !PowerOfTwo(t.bloomSize) { return None; }
    var word := t.bloom[nameHash / t.classBits % |t.bloom|];
    if !BitSet(word, nameHash % t.classBits) || !BitSet(word, nameHash / Pow2(t.bloomShift) % t.classBits) {
      BloomMiss(t, s, name);
      LinearScanIs(s, t.symOffset, name, None);
      return None;
    }
    var symIdx := t.buckets[nameHash % |t.buckets|];
    if symIdx < t.symOffset {
      EmptyBucket(t, s, name);
      LinearScanIs(s, t.symOffset, name, None);
      return None;
    }
    BucketStart(t, s, name);
    while true
      invariant t.symOffset <= symIdx < |s.names|
      invariant SymBucket(t, s, symIdx) == nameHash % |t.buckets|
      invariant Absent(s, t.symOffset, symIdx, name)
      decreases |s.names| - symIdx
    {
      if s.names[symIdx] >= |s.strtab| {
        break;
      }
      var hash := t.chain[symIdx - t.symOffset];
      if Upper(nameHash) == Upper(hash) && NameOf(s, symIdx) == name {
        LinearScanIs(s, t.symOffset, name, Some(symIdx));
        return Some(symIdx);
      }
      if EndBit(hash) {
        BucketEnd(t, s, name, symIdx);
        break;
      }
      symIdx := symIdx + 1;
    }
    LinearScanIs(s, t.symOffset, name, None);
    return None;
  }

  // ----- The System V hash table -----

  /** The bits in which two numbers differ. */
  function XorNat(x: nat, y: nat): nat
    decreases x + y
  {
    if x == 0 && y == 0 then 0
    else (if x % 2 == y % 2 then 0 else 1) + 2 * XorNat(x / 2, y / 2)
  }

  /** From here on a number has one of the upper four of 32 bits. */
  const TOP: nat := 0x1000_0000

  /** h << 4 plus c; g is its upper four bits; they are folded down 24 bits and taken out. */
  function ElfStep(h: Word32, c: Byte): Word32 {
    var h1 := (h * 16 % TWO32 + c) % TWO32;
    var g := h1 / TOP * TOP;
    var h2 := if g != 0 then XorNat(h1, g / 0x100_0000) else h1;
    h2 % TOP
  }

  function ElfFold(h: Word32, name: CString): Word32
    decreases |name|
  {
    if name == [] then h else ElfFold(ElfStep(h, name[0]), name[1..])
  }

  function ElfHash(name: CString): Word32 {
    ElfFold(0, name)
  }

  method ElfHashSymName(name: CString) returns (h: Word32)
    ensures h == ElfHash(name)
  {
    hide ElfStep;
    h := 0;
    var i := 0;
    assert name[0..] == name;
    while i < |name|
      invariant 0 <= i <= |name|
      invariant ElfFold(h, name[i..]) == ElfHash(name)
    {
      assert name[i..][1..] == name[i + 1..];
      h := ElfStep(h, name[i]);
      i := i + 1;
    }
  }

  /** The table behind DT_HASH. Symbol 0 is the undefined symbol and ends every chain. */
  datatype ElfTable = ElfTable(bucket: seq<nat>, chain: seq<nat>)

  /** `links` lists the symbols of one chain in order: the chain starts at `first`, and the
      last link leads to symbol 0. */
  ghost predicate IsChain(t: ElfTable, first: nat, links: seq<nat>) {
    && (forall k :: 0 <= k < |links| ==> 0 < links[k] < |t.chain|)
    && first == (if links == [] then 0 else links[0])
    && (forall k :: 0 <= k < |links| ==>
          t.chain[links[k]] == if k + 1 < |links| then links[k + 1] else 0)
  }

  lemma NextLink(t: ElfTable, first: nat, links: seq<nat>, k: nat)
    requires IsChain(t, first, links) && k < |links|
    ensures links[k] < |t.chain| && t.chain[links[k]] == if k + 1 < |links| then links[k + 1] else 0
  {
  }

  /** Every chain ends, and each symbol is linked into the chain of its name's bucket. */
  ghost predicate ElfChains(t: ElfTable, s: Symbols, chains: seq<seq<nat>>) {
    && |t.bucket| > 0 && |t.chain| == |s.names| && |t.chain| > 0 && Named(s, 1)
    && |chains| == |t.bucket|
    && (forall b :: 0 <= b < |chains| ==> IsChain(t, t.bucket[b], chains[b]))
    && (forall i :: 1 <= i < |s.names| ==>
          i in chains[ElfHash(NameOf(s, i)) % |t.bucket|])
  }

  ghost predicate ElfWellFormed(t: ElfTable, s: Symbols) {
    exists chains :: ElfChains(t, s, chains)
  }

  method ElfLookup(t: ElfTable, s: Symbols, name: CString) returns (r: Option<nat>)
    requires ElfWellFormed(t, s)
    ensures r.Some? ==> 1 <= r.value < |s.names| && NameOf(s, r.value) == name
    ensures r.Some? <==> exists i :: 1 <= i < |s.names| && NameOf(s, i) == name
  {
    hide ElfFold, ElfHash, NameOf;
    if |t.bucket| == 0 || |t.chain| == 0 { return None; }
    var nameHash := ElfHashSymName(name);
    ghost var chains :| ElfChains(t, s, chains);
    ghost var links := chains[nameHash % |t.bucket|];
    assert IsChain(t, t.bucket[nameHash % |t.bucket|], links);
    ghost var k := 0;
    var i := t.bucket[nameHash % |t.bucket|];
    while i != 0 && i < |t.chain|
      invariant 0 <= k <= |links| && i == if k < |links| then links[k] else 0
      invariant forall m :: 0 <= m < k ==> NameOf(s, links[m]) != name
      decreases |links| - k
    {
      if s.names[i] >= |s.strtab| {
        break;
      }
      if NameOf(s, i) == name {
        return Some(i);
      }
      NextLink(t, t.bucket[nameHash % |t.bucket|], links, k);
      i := t.chain[i];
      k := k + 1;
    }
    assert k == |links|;
    return None;
  }

  // ----- The values of the hashes -----

  lemma ModMulAdd(a: nat, k: nat, p: nat)
    ensures (a % TWO32 * k + p) % TWO32 == (a * k + p) % TWO32
  {
    var q, low := a / TWO32, a % TWO32;
    var small := low * k + p;
    assert a * k == q * k * TWO32 + low * k by { Distribute(q, low, k); }
    DivModIs(a * k + p, q * k + small / TWO32, small % TWO32, TWO32);
  }

  lemma Distribute(q: nat, low: nat, k: nat)
    ensures (q * TWO32 + low) * k == q * k * TWO32 + low * k
  {
  }

  function Pow(x: nat, n: nat): nat {
    if n == 0 then 1 else x * Pow(x, n - 1)
  }

  /** name[0] * x^(n-1) + ... + name[n-1], where n is the length. */
  function Polynomial(name: ByteString, x: nat): nat {
    if name == [] then 0 else name[0] * Pow(x, |name| - 1) + Polynomial(name[1..], x)
  }

  lemma {:induction false} GnuFoldValue(h: Word32, name: CString)
    ensures GnuFold(h, name) == (h * Pow(33, |name|) + Polynomial(name, 33)) % TWO32
    decreases |name|
  {
    hide GnuStep;
    if name != [] {
      var c, rest, k: nat := name[0], name[1..], Pow(33, |name| - 1);
      GnuFoldValue(GnuStep(h, c), rest);
      GnuStepValue(h, c);
      ModMulAdd(33 * h + c, k, Polynomial(rest, 33));
      assert (33 * h + c) * k == h * (33 * k) + c * k by { Regroup33(h, c, k); }
    }
  }

  lemma Regroup33(h: nat, c: nat, k: nat)
    ensures (33 * h + c) * k == h * (33 * k) + c * k
  {
  }

  lemma GnuStepValue(h: Word32, c: Byte)
    ensures GnuStep(h, c) == (33 * h + c) % TWO32
  {
  }

  /** The GNU hash is the value of a polynomial at 33, modulo 2^32. */
  lemma GnuHashValue(name: CString)
    ensures GnuHash(name) == (5381 * Pow(33, |name|) + Polynomial(name, 33)) % TWO32
  {
    GnuFoldValue(5381, name);
  }

  lemma {:induction false} XorNothing(x: nat)
    ensures XorNat(x, 0) == x
  {
    if x > 0 { XorNothing(x / 2); }
  }

  /** A bit of the result is set when the two numbers differ there. */
  lemma {:induction false} XorBit(x: nat, y: nat, k: nat)
    ensures XorNat(x, y) / Pow2(k) % 2 == if x / Pow2(k) % 2 == y / Pow2(k) % 2 then 0 else 1
    decreases k
  {
    hide XorNat;
    XorHalf(x, y);
    if k > 0 {
      XorBit(x / 2, y / 2, k - 1);
      HalfFirst(x, k);
      HalfFirst(y, k);
      HalfFirst(XorNat(x, y), k);
    }
  }

  lemma XorHalf(x: nat, y: nat)
    ensures XorNat(x, y) / 2 == XorNat(x / 2, y / 2)
    ensures XorNat(x, y) % 2 == if x % 2 == y % 2 then 0 else 1
  {
  }

  lemma HalfFirst(x: nat, k: nat)
    requires k > 0
    ensures x / Pow2(k) == x / 2 / Pow2(k - 1)
  {
    var p := Pow2(k - 1);
    var q, r: nat := x / 2 / p, x / 2 % p;
    assert x / 2 == p * q + r;
    assert x == q * (2 * p) + (2 * r + x % 2);
    DivModIs(x, q, 2 * r + x % 2, 2 * p);
  }

  /** Only the low bits change when the other number is small. */
  lemma {:induction false} XorLow(x: nat, y: nat, n: nat)
    requires y < Pow2(n)
    ensures XorNat(x, y) == x / Pow2(n) * Pow2(n) + XorNat(x % Pow2(n), y)
    ensures XorNat(x % Pow2(n), y) < Pow2(n)
    decreases n
  {
    hide XorNat;
    if n == 0 {
      XorNothing(x);
      XorNothing(0);
    } else {
      var p := Pow2(n - 1);
      XorLow(x / 2, y / 2, n - 1);
      HalfFirst(x, n);
      HalfRest(x, n);
      XorHalf(x, y);
      XorHalf(x % Pow2(n), y);
      var low := XorNat(x / 2 % p, y / 2);
      assert x / 2 / p * (2 * p) == 2 * (x / 2 / p * p);
    }
  }

  lemma HalfRest(x: nat, n: nat)
    requires n > 0
    ensures x % Pow2(n) / 2 == x / 2 % Pow2(n - 1) && x % Pow2(n) % 2 == x % 2
  {
    var p := Pow2(n - 1);
    var q, r: nat := x / 2 / p, x / 2 % p;
    assert x / 2 == p * q + r;
    assert x == q * (2 * p) + (2 * r + x % 2);
    DivModIs(x, q, 2 * r + x % 2, 2 * p);
  }

  lemma {:induction false} ElfFoldSnoc(h: Word32, name: CString, c: Byte)
    requires c != 0
    ensures ElfFold(h, name + [c]) == ElfStep(ElfFold(h, name), c)
    decreases |name|
  {
    hide ElfStep;
    assert (name + [c])[0] == if name == [] then c else name[0];
    if name == [] {
      assert name + [c] == [c] && [c][1..] == [];
    } else {
      assert (name + [c])[1..] == name[1..] + [c];
      ElfFoldSnoc(ElfStep(h, name[0]), name[1..], c);
    }
  }

  lemma ElfStepValue(h: Word32, c: Byte)
    ensures var h1 := (16 * h + c) % TWO32;
      ElfStep(h, c) == h1 % TOP / 256 * 256 + XorNat(h1 % 256, 16 * (h1 / TOP))
  {
    hide XorNat;
    var h1 := (16 * h + c) % TWO32;
    var top := h1 / TOP;
    Pow2Eight();
    ModMulAdd(h * 16, 1, c);
    FoldDown(top);
    XorLow(h1, 16 * top, 8);
    XorNothing(h1);
    KeepLow(h1, XorNat(h1 % 256, 16 * top));
  }

  lemma FoldDown(top: nat)
    ensures top * TOP / 0x100_0000 == 16 * top && (top * TOP != 0 <==> top != 0)
  {
  }

  lemma Pow2Eight()
    ensures Pow2(8) == 256
  {
    assert Pow2(4) == 16;
  }

  lemma KeepLow(h: nat, low: nat)
    requires low < 256
    ensures (h / 256 * 256 + low) % TOP == h % TOP / 256 * 256 + low
  {
    var a, b := h / TOP, h % TOP;
    DivModIs(h, a * 0x10_0000 + b / 256, b % 256, 256);
    DivModIs(h / 256 * 256 + low, a, b / 256 * 256 + low, TOP);
  }

  /** What one more character does to the hash: four bits up, and the upper four of 32 bits folded
      into the low byte and dropped. */
  lemma ElfHashAppend(name: CString, c: Byte)
    requires c != 0
    ensures var h := (16 * ElfHash(name) + c) % TWO32;
      ElfHash(name + [c]) == h % TOP / 256 * 256 + XorNat(h % 256, 16 * (h / TOP))
    ensures ElfHash([]) == 0
  {
    hide ElfStep, XorNat;
    ElfFoldSnoc(0, name, c);
    ElfStepValue(ElfHash(name), c);
  }

  lemma {:induction false} PolynomialSnoc(name: ByteString, c: Byte, x: nat)
    ensures Polynomial(name + [c], x) == x * Polynomial(name, x) + c
  {
    if name == [] {
      assert [c][1..] == [] && name + [c] == [c];
      assert Polynomial([c], x) == c * Pow(x, 0) + Polynomial([], x);
    } else {
      assert (name + [c])[1..] == name[1..] + [c];
      PolynomialSnoc(name[1..], c, x);
      var k := Pow(x, |name| - 1);
      assert name[0] * (x * k) == x * (name[0] * k) by { Swap(name[0], x, k); }
      assert x * (name[0] * k + Polynomial(name[1..], x)) == x * (name[0] * k) + x * Polynomial(name[1..], x);
    }
  }

  lemma Swap(a: nat, x: nat, k: nat)
    ensures a * (x * k) == x * (a * k)
  {
  }

  /** As long as it stays below 2^28 the SysV hash is the value of a polynomial at 16. */
  lemma {:induction false} ElfHashValue(name: CString)
    requires Polynomial(name, 16) < TOP
    ensures ElfHash(name) == Polynomial(name, 16)
    decreases |name|
  {
    hide Polynomial, ElfFold, XorNat;
    if name == [] {
      NothingHashed();
    } else {
      var front, c := name[..|name| - 1], name[|name| - 1];
      assert name == front + [c];
      PolynomialSnoc(front, c, 16);
      ElfHashValue(front);
      ElfHashAppend(front, c);
      NothingFolded(Polynomial(name, 16));
    }
  }

  lemma NothingFolded(h: nat)
    requires h < TOP
    ensures h % TWO32 == h && h / TOP == 0 && h % TOP / 256 * 256 + XorNat(h % 256, 0) == h
  {
    hide XorNat;
    XorNothing(h % 256);
  }

  lemma NothingHashed()
    ensures ElfHash([]) == 0 && Polynomial([], 16) == 0
  {
  }

  /** The hash has only 28 bits. */
  lemma {:induction false} ElfHashIs28Bits(h: Word32, name: CString)
    requires name != [] || h < TOP
    ensures ElfFold(h, name) < TOP
    decreases |name|
  {
    hide ElfStep;
    if name != [] {
      ElfStepIs28Bits(h, name[0]);
      ElfHashIs28Bits(ElfStep(h, name[0]), name[1..]);
    }
  }

  lemma ElfStepIs28Bits(h: Word32, c: Byte)
    ensures ElfStep(h, c) < TOP
  {
    hide XorNat;
  }
}
