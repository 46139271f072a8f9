/** SHA-256: the streaming context computes the hash of sections 5.1.1 and 6.2.2 of FIPS 180-4,
    however the message is cut into updates. */
module Sha256 {
  import opened Common
  import opened BlockHash

  datatype State = State(a: Word, b: Word, c: Word, d: Word, e: Word, f: Word, g: Word, h: Word)

  const INITIAL: State := State(0x6a09e667, 0xbb67ae85, 0x3c6ef372, 0xa54ff53a,
                                0x510e527f, 0x9b05688c, 0x1f83d9ab, 0x5be0cd19)

  // ----- The constants, sixteen at a time -----

  const K1: seq<Word> := [
    0x428a2f98, 0x71374491, 0xb5c0fbcf, 0xe9b5dba5, 0x3956c25b, 0x59f111f1, 0x923f82a4, 0xab1c5ed5,
    0xd807aa98, 0x12835b01, 0x243185be, 0x550c7dc3, 0x72be5d74, 0x80deb1fe, 0x9bdc06a7, 0xc19bf174
  ]

  const K2: seq<Word> := [
    0xe49b69c1, 0xefbe4786, 0x0fc19dc6, 0x240ca1cc, 0x2de92c6f, 0x4a7484aa, 0x5cb0a9dc, 0x76f988da,
    0x983e5152, 0xa831c66d, 0xb00327c8, 0xbf597fc7, 0xc6e00bf3, 0xd5a79147, 0x06ca6351, 0x14292967
  ]

  const K3: seq<Word> := [
    0x27b70a85, 0x2e1b2138, 0x4d2c6dfc, 0x53380d13, 0x650a7354, 0x766a0abb, 0x81c2c92e, 0x92722c85,
    0xa2bfe8a1, 0xa81a664b, 0xc24b8b70, 0xc76c51a3, 0xd192e819, 0xd6990624, 0xf40e3585, 0x106aa070
  ]

  const K4: seq<Word> := [
    0x19a4c116, 0x1e376c08, 0x2748774c, 0x34b0bcb5, 0x391c0cb3, 0x4ed8aa4a, 0x5b9cca4f, 0x682e6ff3,
    0x748f82ee, 0x78a5636f, 0x84c87814, 0x8cc70208, 0x90befffa, 0xa4506ceb, 0xbef9a3f7, 0xc67178f2
  ]

  function K(t: nat): Word {
    if t < 16 then K1[t]
    else if t < 32 then K2[t - 16]
    else if t < 48 then K3[t - 32]
    else if t < 64 then K4[t - 48]
    else 0
  }

  function RotR(x: Word, n: bv6): Word
    requires n <= 32
  {
    (x >> n) | (x << (32 - n))
  }

  function Ch(x: Word, y: Word, z: Word): Word { (x & y) ^ (!x & z) }
  function Maj(x: Word, y: Word, z: Word): Word { (x & y) ^ (x & z) ^ (y & z) }
  function Sigma0(x: Word): Word { RotR(x, 2) ^ RotR(x, 13) ^ RotR(x, 22) }
  function Sigma1(x: Word): Word { RotR(x, 6) ^ RotR(x, 11) ^ RotR(x, 25) }
  function Gamma0(x: Word): Word { RotR(x, 7) ^ RotR(x, 18) ^ (x >> 3) }
  function Gamma1(x: Word): Word { RotR(x, 17) ^ RotR(x, 19) ^ (x >> 10) }

  // ----- The compression function of section 6.2.2 -----

  function W(block: Block, t: nat): Word {
    if t < 16 then LoadBig(block, t)
    else Add(Add(Add(Gamma1(W(block, t - 2)), W(block, t - 7)), Gamma0(W(block, t - 15))), W(block, t - 16))
  }

  function Round(s: State, k: Word, w: Word): State {
    var t1 := Add(Add(Add(Add(s.h, Sigma1(s.e)), Ch(s.e, s.f, s.g)), k), w);
    var t2 := Add(Sigma0(s.a), Maj(s.a, s.b, s.c));
    State(Add(t1, t2), s.a, s.b, s.c, Add(s.d, t1), s.e, s.f, s.g)
  }

  function Rounds(block: Block, s: State, t: nat): State
    decreases t, block
  {
    if t == 0 then s else Round(Rounds(block, s, t - 1), K(t - 1), W(block, t - 1))
  }

  function AddStates(s: State, r: State): State {
    State(Add(s.a, r.a), Add(s.b, r.b), Add(s.c, r.c), Add(s.d, r.d),
          Add(s.e, r.e), Add(s.f, r.f), Add(s.g, r.g), Add(s.h, r.h))
  }

  function Compress(s: State, block: Block): State {
    AddStates(s, Rounds(block, s, 64))
  }

  function Output(s: State): Message {
    BigBytes(s.a) + BigBytes(s.b) + BigBytes(s.c) + BigBytes(s.d) +
    BigBytes(s.e) + BigBytes(s.f) + BigBytes(s.g) + BigBytes(s.h)
  }

  /** The hash of a message: its padded form, folded block by block. The length field holds the
      number of bits modulo 2^64. */
  function Digest(m: Message): Message {
    Output(Absorb(Compress, INITIAL, Pad(m, BigEndian64(8 * |m| % TWO64))))
  }

  // ----- The streaming context -----

  class Context {
    var state: State
    var count: nat
    const buffer: array<Octet>
    ghost var msg: Message

    ghost predicate Valid()
      reads this, buffer
    {
      && buffer.Length == 64
      && count == |msg| % TWO64
      && state == Absorb(Compress, INITIAL, msg)
      && buffer[..|msg| % 64] == Tail(msg)
    }

    constructor ()
      ensures Valid() && msg == [] && fresh(buffer)
    {
      hide Absorb, Compress, Tail;
      state := INITIAL;
      count := 0;
      buffer := new Octet[64];
      msg := [];
      new;
      NothingAbsorbed();
    }

    method Transform(block: Block)
      modifies this`state
      ensures state == Compress(old(state), block)
    {
      hide W, K, Rounds, LoadBig, Add, Gamma0, Gamma1, Sigma0, Sigma1, Ch, Maj;
      var a, b, c, d := state.a, state.b, state.c, state.d;
      var e, f, g, h := state.e, state.f, state.g, state.h;
      var w := new Word[64];
      for i := 0 to 16
        modifies w
        invariant forall k :: 0 <= k < i ==> w[k] == W(block, k)
      {
        WStep(block, i);
        w[i] := LoadBig(block, i);
      }
      for i := 16 to 64
        modifies w
        invariant forall k :: 0 <= k < i ==> w[k] == W(block, k)
      {
        WStep(block, i);
        w[i] := Add(Add(Add(Gamma1(w[i - 2]), w[i - 7]), Gamma0(w[i - 15])), w[i - 16]);
      }
      RoundsStep(block, state, 0);
      assert State(a, b, c, d, e, f, g, h) == state;
      for i := 0 to 64
        modifies {}
        invariant State(a, b, c, d, e, f, g, h) == Rounds(block, state, i)
      {
        RoundsStep(block, state, i + 1);
        var t1 := Add(Add(Add(Add(h, Sigma1(e)), Ch(e, f, g)), K(i)), w[i]);
        var t2 := Add(Sigma0(a), Maj(a, b, c));
        h := g; g := f; f := e; e := Add(d, t1);
        d := c; c := b; b := a; a := Add(t1, t2);
      }
      state := State(Add(state.a, a), Add(state.b, b), Add(state.c, c), Add(state.d, d),
                     Add(state.e, e), Add(state.f, f), Add(state.g, g), Add(state.h, h));
    }

    /** The state after the pending bytes, and what the buffer must hold of them. */
    ghost predicate Pending(rest: Message, whole: Message)
      reads this
    {
      && Absorb(Compress, state, rest) == Absorb(Compress, INITIAL, whole)
      && Tail(rest) == Tail(whole)
    }

    /** The first part of Update: fills up the partial block, and compresses it when full. */
    method TopUp(at: nat, data: Message, ghost whole: Message)
        returns (index: nat, offset: nat, ghost rest: Message)
      requires buffer.Length == 64 && 0 < at < 64 && at == |Tail(msg)|
      requires buffer[..at] == Tail(msg) && Pending(Tail(msg) + data, whole)
      modifies this`state, buffer
      ensures offset <= |data| && Pending(rest, whole)
      ensures index > 0 ==> offset == |data| && |rest| < 64 && buffer[..|rest|] == rest
      ensures index == 0 ==> rest == data[offset..]
    {
      hide Absorb, Compress, Tail;
      rest := Tail(msg) + data;
      var take := if |data| < 64 - at then |data| else 64 - at;
      Memcpy(buffer, at, data[..take]);
      index, offset := at + take, take;
      assert buffer[..index] == rest[..index];
      if index == 64 {
        AbsorbStep(Compress, state, rest);
        TailStep(rest);
        assert buffer[..] == rest[..64] && rest[64..] == data[take..];
        Transform(buffer[..]);
        rest := data[take..];
        index := 0;
      }
    }

    /** Feeding more of the message keeps the context that of the whole message so far. */
    method Update(data: Message)
      requires Valid()
      modifies this, buffer
      ensures Valid() && msg == old(msg) + data
    {
      hide Absorb, Compress, Tail;
      var index := count % 64;
      CountAdd(|msg|, |data|);
      count := (count + |data|) % TWO64;
      ghost var whole, rest := msg + data, Tail(msg) + data;
      AbsorbAppend(Compress, INITIAL, msg, data);
      var offset: nat := 0;
      if index > 0 {
        index, offset, rest := TopUp(index, data, whole);
      } else {
        assert rest == data;
      }
      Bulk(index, offset, data, rest, whole);
      msg := whole;
    }

    /** The rest of Update: whole blocks straight from the input, and the remainder into the
        buffer. */
    method Bulk(index: nat, start: nat, data: Message, ghost pending: Message, ghost whole: Message)
      requires buffer.Length == 64 && start <= |data| && Pending(pending, whole)
      requires index > 0 ==> start == |data| && |pending| < 64 && buffer[..|pending|] == pending
      requires index == 0 ==> pending == data[start..]
      modifies this`state, buffer
      ensures state == Absorb(Compress, INITIAL, whole)
      ensures buffer[..|whole| % 64] == Tail(whole)
    {
      hide Absorb, Compress, Tail;
      var offset, left := start, |data| - start;
      ghost var rest := pending;
      while left >= 64
        invariant 0 <= left && left + offset == |data|
        invariant index > 0 ==> left == 0 && |rest| < 64 && buffer[..|rest|] == rest
        invariant index == 0 ==> rest == data[offset..]
        invariant Pending(rest, whole)
      {
        AbsorbStep(Compress, state, rest);
        TailStep(rest);
        assert rest[..64] == data[offset..offset + 64] && rest[64..] == data[offset + 64..];
        Transform(data[offset..offset + 64]);
        offset := offset + 64;
        left := left - 64;
        rest := data[offset..];
      }
      if left > 0 {
        Memcpy(buffer, 0, data[offset..offset + left]);
        assert buffer[..|rest|] == rest;
      }
      AbsorbStep(Compress, state, rest);
      TailStep(rest);
      TailLength(whole);
    }

    /** The padding loop of Final, one byte at a time. */
    method PadOut()
      requires Valid()
      modifies this, buffer
      ensures Valid() && msg == Padded(old(msg), ZeroCount(|old(msg)|))
    {
      hide Absorb, Compress, Tail, Padded, ZeroCount;
      ghost var m := msg;
      Update([0x80]);
      ghost var k := 0;
      PaddedStep(m, k);
      PadEnds(|m|, k);
      while count % 64 != 56
        invariant Valid() && msg == Padded(m, k) && k <= ZeroCount(|m|)
        invariant count % 64 == 56 <==> k == ZeroCount(|m|)
        decreases ZeroCount(|m|) - k
      {
        PaddedStep(m, k);
        Update([0x00]);
        k := k + 1;
        PadEnds(|m|, k);
      }
    }

    /** Pads the message with single-byte updates and writes out the hash. */
    method Final() returns (digest: Message)
      requires Valid()
      modifies this, buffer
      ensures digest == Digest(old(msg))
      ensures Valid() && |msg| % 64 == 0
    {
      hide Absorb, Compress, Tail, BigEndian64, Output, Padded, ZeroCount, Digest;
      var totalBits := count * 8 % TWO64;
      BitCount(|msg|);
      PadOut();
      Update(BigEndian64(totalBits));
      Finished(old(msg), msg);
      digest := Output(state);
    }
  }

  lemma Finished(m: Message, padded: Message)
    requires padded == Padded(m, ZeroCount(|m|)) + BigEndian64(8 * |m| % TWO64)
    ensures Output(Absorb(Compress, INITIAL, padded)) == Digest(m)
    ensures |padded| % 64 == 0
  {
    hide Absorb, Compress, Output, Padded;
  }

  lemma NothingAbsorbed()
    ensures Absorb(Compress, INITIAL, []) == INITIAL && Tail([]) == []
  {
    hide Compress;
  }

  lemma CountAdd(bytes: nat, len: nat)
    ensures bytes % TWO64 % 64 == bytes % 64
    ensures (bytes % TWO64 + len) % TWO64 == (bytes + len) % TWO64
  {
    var q := bytes / TWO64;
    ModSame(bytes % TWO64, q * 0x400_0000_0000_0000, 64);
    ModSame(bytes % TWO64 + len, q, TWO64);
  }

  lemma ModSame(n: nat, q: nat, d: nat)
    requires d > 0
    ensures (q * d + n) % d == n % d
  {
    assert q * d + n == (q + n / d) * d + n % d;
    DivModIs(q * d + n, q + n / d, n % d, d);
  }

  lemma BitCount(bytes: nat)
    ensures bytes % TWO64 * 8 % TWO64 == 8 * bytes % TWO64
  {
    ModSame(bytes % TWO64 * 8, 8 * (bytes / TWO64), TWO64);
  }

  lemma PadEnds(n: nat, k: nat)
    requires k <= ZeroCount(n)
    ensures (n + 1 + k) % TWO64 % 64 == 56 <==> k == ZeroCount(n)
  {
    hide ZeroCount;
    CountAdd(n + 1 + k, 0);
    if (n + 1 + k) % 64 == 56 {
      PadDone(n, k);
    } else if k == ZeroCount(n) {
      assert false;
    }
  }

  lemma WStep(block: Block, t: nat)
    ensures W(block, t) == if t < 16 then LoadBig(block, t)
      else Add(Add(Add(Gamma1(W(block, t - 2)), W(block, t - 7)), Gamma0(W(block, t - 15))), W(block, t - 16))
  {
    hide LoadBig, Add, Gamma0, Gamma1;
  }

  lemma RoundsStep(block: Block, s: State, t: nat)
    ensures Rounds(block, s, t) ==
      if t == 0 then s else Round(Rounds(block, s, t - 1), K(t - 1), W(block, t - 1))
  {
    hide Round, K, W;
  }

  method Sha256(data: Message) returns (digest: Message)
    ensures digest == Digest(data)
  {
    var ctx := new Context();
    if |data| > 0 {
      ctx.Update(data);
      assert [] + data == data;
    }
    digest := ctx.Final();
  }
}
