/** Bytes and the big-endian numbers that the wire formats are built from. */
module Bytes {
  import opened Common

  type Byte = b: int | 0 <= b < 256

  type ByteString = seq<Byte>

  /** 256 to the power n. */
  function Pow256(n: nat): (p: nat)
    ensures p > 0
  {
    if n == 0 then 1 else 256 * Pow256(n - 1)
  }

  lemma Pow256Values()
    ensures Pow256(1) == 0x100 && Pow256(2) == 0x1_0000
    ensures Pow256(4) == 0x1_0000_0000 && Pow256(8) == 0x1_0000_0000_0000_0000
  {
    assert Pow256(3) == 256 * Pow256(2);
    assert Pow256(5) == 256 * Pow256(4);
    assert Pow256(6) == 256 * Pow256(5);
    assert Pow256(7) == 256 * Pow256(6);
  }

  /** The low n bytes of v, most significant first. */
  function BigEndian(v: nat, n: nat): (s: ByteString)
    ensures |s| == n
  {
    if n == 0 then [] else BigEndian(v / 256, n - 1) + [v % 256]
  }

  function FromBigEndian(s: ByteString): (v: nat)
    ensures v < Pow256(|s|)
  {
    if s == [] then 0 else FromBigEndian(s[..|s| - 1]) * 256 + s[|s| - 1]
  }

  lemma FromNothingBig()
    ensures FromBigEndian([]) == 0
  {
  }

  lemma FromBigEndianSnoc(s: ByteString, b: Byte)
    ensures FromBigEndian(s + [b]) == FromBigEndian(s) * 256 + b
  {
    assert (s + [b])[..|s|] == s;
  }

  lemma {:induction false} BigEndianRoundTrip(v: nat, n: nat)
    requires v < Pow256(n)
    ensures FromBigEndian(BigEndian(v, n)) == v
  {
    hide FromBigEndian;
    FromNothingBig();
    if n != 0 {
      BigEndianRoundTrip(v / 256, n - 1);
      FromBigEndianSnoc(BigEndian(v / 256, n - 1), v % 256);
    }
  }

  /** The low n bytes of v, least significant first. */
  function LittleEndian(v: nat, n: nat): (s: ByteString)
    ensures |s| == n
  {
    if n == 0 then [] else [v % 256] + LittleEndian(v / 256, n - 1)
  }

  function FromLittleEndian(s: ByteString): (v: nat)
    ensures v < Pow256(|s|)
  {
    if s == [] then 0 else s[0] + 256 * FromLittleEndian(s[1..])
  }

  lemma {:induction false} LittleEndianRoundTrip(v: nat, n: nat)
    requires v < Pow256(n)
    ensures FromLittleEndian(LittleEndian(v, n)) == v
  {
    if n != 0 {
      LittleEndianRoundTrip(v / 256, n - 1);
      assert LittleEndian(v, n)[1..] == LittleEndian(v / 256, n - 1);
    }
  }

  lemma {:induction false} LittleEndianUnique(s: ByteString)
    ensures LittleEndian(FromLittleEndian(s), |s|) == s
  {
    if s != [] {
      LittleEndianUnique(s[1..]);
      var v, w: nat := FromLittleEndian(s), FromLittleEndian(s[1..]);
      assert v / 256 == w && v % 256 == s[0];
      assert w + 1 <= Pow256(|s| - 1);
    }
  }

  lemma {:induction false} LittleEndianSnoc(s: ByteString, b: Byte)
    ensures FromLittleEndian(s + [b]) == FromLittleEndian(s) + b as int * Pow256(|s|)
  {
    if s == [] {
      assert [b][1..] == [];
      assert FromLittleEndian([b]) == b + 256 * FromLittleEndian([]);
    } else {
      LittleEndianSnoc(s[1..], b);
      assert (s + [b])[1..] == s[1..] + [b];
      Regroup(b as int, Pow256(|s| - 1));
    }
  }

  lemma Regroup(b: int, p: int)
    ensures 256 * (b * p) == b * (256 * p)
  {
  }

  /** Where the bytes of a number stand. */
  lemma {:induction false} LittleEndianByte(v: nat, n: nat, k: nat)
    requires k < n
    ensures LittleEndian(v, n)[k] == v / Pow256(k) % 256
  {
    if k > 0 {
      LittleEndianByte(v / 256, n - 1, k - 1);
      DivideTwice(v, Pow256(k - 1));
    }
  }

  lemma {:induction false} BigEndianByte(v: nat, n: nat, k: nat)
    requires k < n
    ensures BigEndian(v, n)[n - 1 - k] == v / Pow256(k) % 256
  {
    if k > 0 {
      BigEndianByte(v / 256, n - 1, k - 1);
      DivideTwice(v, Pow256(k - 1));
    }
  }

  lemma DivideTwice(v: nat, p: nat)
    requires p > 0
    ensures v / 256 / p == v / (256 * p)
  {
    var q, r: nat := v / 256 / p, v / 256 % p;
    assert v / 256 == p * q + r;
    assert v == q * (256 * p) + (256 * r + v % 256);
    DivModIs(v, q, 256 * r + v % 256, 256 * p);
  }

  /** data holds s from position pos on. */
  ghost predicate HasAt(data: ByteString, pos: nat, s: ByteString) {
    pos + |s| <= |data| && data[pos..pos + |s|] == s
  }

  lemma HasAtSplit(data: ByteString, pos: nat, s: ByteString, t: ByteString)
    requires HasAt(data, pos, s + t)
    ensures HasAt(data, pos, s) && HasAt(data, pos + |s|, t)
  {
    var st := data[pos..pos + |s + t|];
    assert data[pos..pos + |s|] == st[..|s|] == s;
    assert data[pos + |s|..pos + |s| + |t|] == st[|s|..] == t;
  }
}
