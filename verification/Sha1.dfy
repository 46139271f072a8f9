/** SHA-1: the streaming context computes the hash of sections 5.1.1 and 6.1.2 of FIPS 180-4,
    however the message is cut into updates. */
module Sha1 {
  import opened Common
  import opened BlockHash

  datatype State = State(a: Word, b: Word, c: Word, d: Word, e: Word)

  const INITIAL: State := State(0x67452301, 0xEFCDAB89, 0x98BADCFE, 0x10325476, 0xC3D2E1F0)

  // ----- The compression function of section 6.1.2 -----

  function Ch(x: Word, y: Word, z: Word): Word { (x & y) ^ (!x & z) }
  function Parity(x: Word, y: Word, z: Word): Word { x ^ y ^ z }
  function Maj(x: Word, y: Word, z: Word): Word { (x & y) ^ (x & z) ^ (y & z) }

  function F(t: nat, x: Word, y: Word, z: Word): Word {
    if t < 20 then Ch(x, y, z)
    else if 40 <= t < 60 then Maj(x, y, z)
    else Parity(x, y, z)
  }

  function K(t: nat): Word {
    if t < 20 then 0x5A827999 else if t < 40 then 0x6ED9EBA1 else if t < 60 then 0x8F1BBCDC else 0xCA62C1D6
  }

  function W(block: Block, t: nat): Word {
    if t < 16 then LoadBig(block, t)
    else RotL(W(block, t - 3) ^ W(block, t - 8) ^ W(block, t - 14) ^ W(block, t - 16), 1)
  }

  function Round(s: State, f: Word, k: Word, w: Word): State {
    var temp := Add(Add(Add(Add(RotL(s.a, 5), f), s.e), w), k);
    State(temp, s.a, RotL(s.b, 30), s.c, s.d)
  }

  function Rounds(block: Block, s: State, t: nat): State
    decreases t, block
  {
    if t == 0 then s
    else
      var r := Rounds(block, s, t - 1);
      Round(r, F(t - 1, r.b, r.c, r.d), K(t - 1), W(block, t - 1))
  }

  function AddStates(s: State, r: State): State {
    State(Add(s.a, r.a), Add(s.b, r.b), Add(s.c, r.c), Add(s.d, r.d), Add(s.e, r.e))
  }

  function Compress(s: State, block: Block): State {
    AddStates(s, Rounds(block, s, 80))
  }

  lemma KValues()
    ensures K(0) == 0x5A827999 && K(20) == 0x6ED9EBA1 && K(40) == 0x8F1BBCDC && K(60) == 0xCA62C1D6
  {
  }

  lemma WStep(block: Block, t: nat)
    ensures W(block, t) == if t < 16 then LoadBig(block, t)
      else RotL(W(block, t - 3) ^ W(block, t - 8) ^ W(block, t - 14) ^ W(block, t - 16), 1)
  {
    hide LoadBig, RotL;
  }

  lemma RoundsStep(block: Block, s: State, t: nat)
    ensures t == 0 ==> Rounds(block, s, t) == s
    ensures t > 0 ==>
      var r := Rounds(block, s, t - 1);
      Rounds(block, s, t) == Round(r, F(t - 1, r.b, r.c, r.d), K(t - 1), W(block, t - 1))
  {
    hide Round, F, K, W;
  }

  // ----- The forms the code computes -----

  function ChOr(x: Word, y: Word, z: Word): Word { (x & y) | (!x & z) }
  function MajOr(x: Word, y: Word, z: Word): Word { (x & y) | (x & z) | (y & z) }

  lemma OrForms(x: Word, y: Word, z: Word)
    ensures ChOr(x, y, z) == Ch(x, y, z)
    ensures MajOr(x, y, z) == Maj(x, y, z)
  {
    OrFormsRaw(x, y, z);
  }

  lemma OrFormsRaw(x: bv32, y: bv32, z: bv32)
    ensures (x & y) | (!x & z) == (x & y) ^ (!x & z)
    ensures (x & y) | (x & z) | (y & z) == (x & y) ^ (x & z) ^ (y & z)
  {
  }

  function Output(s: State): Message {
    BigBytes(s.a) + BigBytes(s.b) + BigBytes(s.c) + BigBytes(s.d) + BigBytes(s.e)
  }

  /** The hash of a message: its padded form, folded block by block. The length field holds the
      number of bits modulo 2^64. */
  function Digest(m: Message): Message {
    Output(Absorb(Compress, INITIAL, Pad(m, BigEndian64(8 * |m| % TWO64))))
  }

  // ----- The streaming context -----

  class Context {
    var state: State
    var count0: nat
    var count1: nat
    const buffer: array<Octet>
    ghost var msg: Message

    ghost predicate Valid()
      reads this, buffer
    {
      && buffer.Length == 64
      && Counts(count0, count1, |msg|)
      && state == Absorb(Compress, INITIAL, msg)
      && buffer[..|msg| % 64] == Tail(msg)
    }

    constructor ()
      ensures Valid() && msg == [] && fresh(buffer)
    {
      hide Absorb, Compress, Tail;
      state := INITIAL;
      count0, count1 := 0, 0;
      buffer := new Octet[64];
      msg := [];
      new;
      NothingAbsorbed();
    }

    method Transform(block: Block)
      modifies this`state
      ensures state == Compress(old(state), block)
    {
      hide W, K, F, Rounds, Round, LoadBig, Add, RotL, ChOr, MajOr, Ch, Maj, Parity;
      var w := new Word[80];
      for t := 0 to 16
        modifies w
        invariant forall k :: 0 <= k < t ==> w[k] == W(block, k)
      {
        WStep(block, t);
        w[t] := LoadBig(block, t);
      }
      for t := 16 to 80
        modifies w
        invariant forall k :: 0 <= k < t ==> w[k] == W(block, k)
      {
        WStep(block, t);
        w[t] := RotL(w[t - 3] ^ w[t - 8] ^ w[t - 14] ^ w[t - 16], 1);
      }
      RoundsStep(block, state, 0);
      KValues();
      var r := Run(block, w, state, 0, 20, 0x5A827999);
      r := Run(block, w, r, 20, 40, 0x6ED9EBA1);
      r := Run(block, w, r, 40, 60, 0x8F1BBCDC);
      r := Run(block, w, r, 60, 80, 0xCA62C1D6);
      state := State(Add(state.a, r.a), Add(state.b, r.b), Add(state.c, r.c), Add(state.d, r.d), Add(state.e, r.e));
    }

    /** One of the four loops of twenty rounds. */
    method Run(block: Block, w: array<Word>, s: State, from: nat, to: nat, k: Word) returns (r: State)
      requires from % 20 == 0 && to == from + 20 <= 80 && w.Length == 80 && k == K(from)
      requires forall i :: 0 <= i < 80 ==> w[i] == W(block, i)
      requires s == Rounds(block, state, from)
      ensures r == Rounds(block, state, to)
    {
      hide W, Rounds, Add, RotL, ChOr, MajOr, Ch, Maj, Parity;
      var a, b, c, d, e := s.a, s.b, s.c, s.d, s.e;
      for t := from to to
        invariant State(a, b, c, d, e) == Rounds(block, state, t)
      {
        RoundsStep(block, state, t + 1);
        OrForms(b, c, d);
        var f := if t < 20 then ChOr(b, c, d) else if 40 <= t < 60 then MajOr(b, c, d) else Parity(b, c, d);
        var temp := Add(Add(Add(Add(RotL(a, 5), f), e), w[t]), k);
        e := d; d := c; c := RotL(b, 30); b := a; a := temp;
      }
      return State(a, b, c, d, e);
    }

    /** Feeding more of the message keeps the context that of the whole message so far. */
    method Update(data: Message)
      requires Valid()
      modifies this, buffer
      ensures Valid() && msg == old(msg) + data
    {
      hide Absorb, Compress, Tail, Counts;
      ghost var whole, rest := msg + data, Tail(msg) + data;
      AbsorbAppend(Compress, INITIAL, msg, data);
      CountsIndex(count0, count1, |msg|);
      TailLength(msg);
      var j, len := count0 / 8 % 64, |data|;
      LowBits(len);
      count0, count1 := AddLength(count0, count1, len, len % TWO32 * 8 % TWO32, |msg|);
      var i: nat := 0;
      ghost var front := Tail(msg);
      if j + len > 63 {
        i := FillBlock(j, data, whole);
        i := Blocks(i, data, whole);
        j, front := 0, [];
        rest := data[i..];
      }
      Memcpy(buffer, j, data[i..]);
      CopiedBehind(buffer, j, front, data[i..]);
      AbsorbStep(Compress, state, rest);
      TailStep(rest);
      TailLength(whole);
      msg := whole;
    }

    ghost predicate Pending(rest: Message, whole: Message)
      reads this
    {
      && Absorb(Compress, state, rest) == Absorb(Compress, INITIAL, whole)
      && Tail(rest) == Tail(whole)
    }

    /** Completes the partial block from the input and compresses it. */
    method FillBlock(j: nat, data: Message, ghost whole: Message) returns (i: nat)
      requires buffer.Length == 64 && j == |Tail(msg)| && 64 <= j + |data|
      requires buffer[..j] == Tail(msg) && Pending(Tail(msg) + data, whole)
      modifies this`state, buffer
      ensures i <= |data| && Pending(data[i..], whole)
    {
      hide Absorb, Compress, Tail;
      ghost var rest := Tail(msg) + data;
      TailLength(msg);
      i := 64 - j;
      Memcpy(buffer, j, data[..i]);
      assert buffer[..] == buffer[..j] + buffer[j..j + |data[..i]|] == rest[..64];
      assert rest[64..] == data[i..];
      AbsorbStep(Compress, state, rest);
      TailStep(rest);
      Transform(buffer[..]);
    }

    /** The loop of Update over the complete blocks of the input. */
    method Blocks(start: nat, data: Message, ghost whole: Message) returns (i: nat)
      requires start <= |data| && Pending(data[start..], whole)
      modifies this`state
      ensures i <= |data| < i + 64 && Pending(data[i..], whole)
    {
      hide Absorb, Compress, Tail;
      i := start;
      while i + 63 < |data|
        invariant i <= |data| && Pending(data[i..], whole)
      {
        AbsorbStep(Compress, state, data[i..]);
        TailStep(data[i..]);
        assert data[i..][..64] == data[i..i + 64] && data[i..][64..] == data[i + 64..];
        Transform(data[i..i + 64]);
        i := i + 64;
      }
    }

    /** The padding loop of Final, one byte at a time. */
    method PadOut()
      requires Valid()
      modifies this, buffer
      ensures Valid() && msg == Padded(old(msg), ZeroCount(|old(msg)|))
    {
      hide Absorb, Compress, Tail, Padded, ZeroCount, Counts;
      ghost var m := msg;
      Update([0x80]);
      ghost var k := 0;
      PaddedStep(m, k);
      CountsIndex(count0, count1, |msg|);
      while count0 / 8 % 64 != 56
        invariant Valid() && msg == Padded(m, k) && k <= ZeroCount(|m|)
        invariant count0 / 8 % 64 == |msg| % 64
        decreases ZeroCount(|m|) - k
      {
        PadNotYet(|m|, k);
        PaddedStep(m, k);
        Update([0x00]);
        k := k + 1;
        CountsIndex(count0, count1, |msg|);
      }
      PadDone(|m|, k);
    }

    /** Pads the message with single-byte updates and writes out the hash. */
    method Final() returns (digest: Message)
      requires Valid()
      modifies this, buffer
      ensures digest == Digest(old(msg))
      ensures Valid() && |msg| % 64 == 0
    {
      hide Absorb, Compress, Tail, BigEndian64, Output, Padded, ZeroCount, Digest, Counts;
      CountsAreBits(count0, count1, |msg|);
      var finalcount := BigEndian64(count1 * TWO32 + count0);
      PadOut();
      Update(finalcount);
      Finished(old(msg), msg);
      digest := Output(state);
    }
  }

  lemma NothingAbsorbed()
    ensures Absorb(Compress, INITIAL, []) == INITIAL && Tail([]) == []
  {
    hide Compress;
  }

  lemma Finished(m: Message, padded: Message)
    requires padded == Padded(m, ZeroCount(|m|)) + BigEndian64(8 * |m| % TWO64)
    ensures Output(Absorb(Compress, INITIAL, padded)) == Digest(m)
    ensures |padded| % 64 == 0
  {
    hide Absorb, Compress, Output, Padded;
  }

  method Sha1(data: Message) returns (digest: Message)
    ensures digest == Digest(data)
  {
    var ctx := new Context();
    if |data| > 0 {
      ctx.Update(data);
      assert [] + data == data;
    }
    digest := ctx.Final();
  }
}
