/** Known answers: the digests of "abc" that the standards print, computed from the definitions.
    Every constant, every bit function and the order of bytes take part in them. */
module KnownAnswers {
  import opened Common
  import opened BlockHash

  const ABC: Message := [0x61, 0x62, 0x63]

  /** The one padded block of the message; its length of 24 bits stands at the given byte. */
  ghost predicate AbcBlock(b: Message, at: nat) {
    && |b| == 64 && b[0] == 0x61 && b[1] == 0x62 && b[2] == 0x63 && b[3] == 0x80
    && forall k :: 4 <= k < 64 ==> b[k] == if k == at then 24 else 0
  }

  lemma ByteOfSmall(k: nat)
    ensures ByteOf(0, k) == 0 && ByteOf(24, k) == if k == 0 then 24 else 0
    decreases k
  {
    if k > 0 { ByteOfSmall(k - 1); }
  }

  lemma PaddedBig()
    ensures AbcBlock(Pad(ABC, BigEndian64(24)), 63)
  {
    hide ByteOf;
    var b := Pad(ABC, BigEndian64(24));
    forall k | 56 <= k < 64 ensures b[k] == if k == 63 then 24 else 0 {
      ByteOfSmall(63 - k);
      assert b[k] == BigEndian64(24)[k - 56];
    }
  }

  lemma PaddedLittle()
    ensures AbcBlock(Pad(ABC, LittleEndian64(24)), 56)
  {
    hide ByteOf;
    var b := Pad(ABC, LittleEndian64(24));
    forall k | 56 <= k < 64 ensures b[k] == if k == 56 then 24 else 0 {
      ByteOfSmall(k - 56);
      assert b[k] == LittleEndian64(24)[k - 56];
    }
  }

  lemma OneBlock<S>(compress: (S, Block) -> S, s: S, b: Block)
    ensures Absorb(compress, s, b) == compress(s, b)
  {
    AbsorbStep(compress, s, b);
    AbsorbStep(compress, compress(s, b), b[64..]);
    assert b[..64] == b;
  }
}
