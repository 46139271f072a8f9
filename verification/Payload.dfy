/** Payloads appended to an executable: each is followed by a trailer of an eight-byte magic and its
    size, and the newest is at the end of the file. */
module Payload {
  import opened Common
  import opened Bytes

  const TRAILER_SIZE: nat := 16

  /** From this size on, adding the trailer's size wraps the 64-bit sum. */
  const WRAPPING: nat := TWO64 - TRAILER_SIZE

  datatype Error = TooSmall | MagicNotFound

  /** What a call comes to: besides the two regular ends, allocating a buffer of an impossible size
      throws, and a loop that stands still never returns. */
  datatype Outcome = Found(data: ByteString) | Failed(error: Error) | Throws | NeverReturns

  // ----- The files -----

  datatype Attached = Attached(magic: ByteString, data: ByteString)

  predicate WellFormed(a: Attached) {
    |a.magic| == 8 && 0 < |a.data| < WRAPPING
  }

  function Encoded(a: Attached): ByteString {
    a.data + a.magic + LittleEndian(|a.data|, 8)
  }

  /** The executable with the payloads appended, oldest first. */
  function Appended(base: ByteString, all: seq<Attached>): ByteString {
    if all == [] then base else Appended(base, all[..|all| - 1]) + Encoded(all[|all| - 1])
  }

  predicate AllWellFormed(all: seq<Attached>) {
    forall k :: 0 <= k < |all| ==> WellFormed(all[k])
  }

  /** The payload with this magic that was appended last. */
  function Newest(all: seq<Attached>, magic: ByteString): Option<ByteString> {
    if all == [] then None
    else if all[|all| - 1].magic == magic then Some(all[|all| - 1].data)
    else Newest(all[..|all| - 1], magic)
  }

  // ----- The walk -----

  lemma EightBytes()
    ensures Pow256(8) == TWO64
  {
    Pow256Values();
  }

  /** What the trailer at the end of the file says: its magic and the size before it. */
  datatype Trailer = Trailer(magic: ByteString, size: nat)

  function TrailerOf(file: ByteString): (t: Trailer)
    requires TRAILER_SIZE <= |file|
    ensures |t.magic| == 8 && t.size < TWO64
  {
    EightBytes();
    var n := |file|;
    Trailer(file[n - 16..n - 8], FromLittleEndian(file[n - 8..]))
  }

  /** One round of the loop over the file up to the current end: it stops without a result, has found a
      payload, throws, or goes on with an earlier end. */
  datatype Round = Stop | Take(data: ByteString) | Throw | Back(to: nat)

  /** The sum is one of 64 bits and the size is subtracted as a signed number, so a size that wraps the
      sum always passes the test, and moves the end by less than a trailer. */
  function RoundOf(file: ByteString, magic: ByteString): (r: Round)
    ensures r.Back? ==> r.to <= |file|
  {
    if |file| < TRAILER_SIZE then Stop
    else
      var t := TrailerOf(file);
      if t.size == 0 || (t.size + TRAILER_SIZE) % TWO64 > |file| then Stop
      else if t.size >= WRAPPING then
        if t.magic == magic then Throw else Back(|file| - TRAILER_SIZE + (TWO64 - t.size))
      else
        var at := |file| - TRAILER_SIZE - t.size;
        if t.magic == magic then Take(file[at..at + t.size]) else Back(at)
  }

  function Walk(file: ByteString, magic: ByteString): Outcome
    decreases |file|
  {
    var r := RoundOf(file, magic);
    if r.Stop? then Failed(MagicNotFound)
    else if r.Take? then Found(r.data)
    else if r.Throw? then Throws
    else if r.to == |file| then NeverReturns
    else Walk(file[..r.to], magic)
  }

  lemma WalkStep(file: ByteString, magic: ByteString)
    ensures var r := RoundOf(file, magic);
      Walk(file, magic) ==
        if r.Stop? then Failed(MagicNotFound)
        else if r.Take? then Found(r.data)
        else if r.Throw? then Throws
        else if r.to == |file| then NeverReturns
        else Walk(file[..r.to], magic)
  {
    hide RoundOf;
  }

  function Extracted(file: ByteString, magic: ByteString): Outcome {
    if |file| <= TRAILER_SIZE then Failed(TooSmall) else Walk(file, magic)
  }

  /** The outcome NeverReturns stands for going round for ever with the same end. */
  method ExtractEmbeddedPayload(file: ByteString, magic: ByteString) returns (r: Outcome)
    requires |magic| == 8
    ensures r == Extracted(file, magic)
  {
    hide Walk, TrailerOf, FromLittleEndian;
    if |file| <= TRAILER_SIZE { return Failed(TooSmall); }
    var currentEnd: nat := |file|;
    assert file[..currentEnd] == file;
    while currentEnd >= TRAILER_SIZE
      invariant currentEnd <= |file|
      invariant Walk(file[..currentEnd], magic) == Walk(file, magic)
    {
      WalkStep(file[..currentEnd], magic);
      var trailer := file[currentEnd - TRAILER_SIZE..currentEnd];
      var size := ReadSize(trailer);
      TrailerSlices(file, currentEnd);
      if size == 0 || (size + TRAILER_SIZE) % TWO64 > currentEnd { break; }
      if size >= WRAPPING {
        if trailer[..8] == magic { return Throws; }
        var payloadOff := currentEnd - TRAILER_SIZE + (TWO64 - size);
        if payloadOff == currentEnd { return NeverReturns; }
        PayloadSlices(file, currentEnd, payloadOff, 0);
        currentEnd := payloadOff;
      } else {
        var payloadOff := currentEnd - TRAILER_SIZE - size;
        PayloadSlices(file, currentEnd, payloadOff, size);
        if trailer[..8] == magic {
          return Found(file[payloadOff..payloadOff + size]);
        }
        currentEnd := payloadOff;
      }
    }
    WalkStep(file[..currentEnd], magic);
    return Failed(MagicNotFound);
  }

  lemma PayloadSlices(file: ByteString, end: nat, at: nat, size: nat)
    requires at + size <= end <= |file|
    ensures file[..end][at..at + size] == file[at..at + size] && file[..end][..at] == file[..at]
  {
  }

  lemma TrailerSlices(file: ByteString, end: nat)
    requires TRAILER_SIZE <= end <= |file|
    ensures var t := file[end - TRAILER_SIZE..end];
      TrailerOf(file[..end]) == Trailer(t[..8], FromLittleEndian(t[8..]))
  {
    var t, f := file[end - TRAILER_SIZE..end], file[..end];
    assert f[end - 16..end - 8] == t[..8];
    assert f[end - 8..] == t[8..];
  }

  /** The loop that puts the size together; the shifted bytes do not overlap, so or-ing adds them. */
  method ReadSize(trailer: ByteString) returns (size: nat)
    requires |trailer| == TRAILER_SIZE
    ensures size == FromLittleEndian(trailer[8..]) < TWO64
  {
    hide FromLittleEndian, Pow256;
    size := 0;
    FromNothing();
    assert trailer[8..8] == [];
    for i := 0 to 8
      invariant size == FromLittleEndian(trailer[8..8 + i])
    {
      assert trailer[8..8 + i + 1] == trailer[8..8 + i] + [trailer[8 + i]];
      LittleEndianSnoc(trailer[8..8 + i], trailer[8 + i]);
      size := size + trailer[8 + i] * Pow256(i);
    }
    assert trailer[8..16] == trailer[8..];
    EightBytes();
  }

  lemma FromNothing()
    ensures FromLittleEndian([]) == 0
  {
  }

  // ----- Appending and finding -----

  lemma RoundOfEncoded(file: ByteString, a: Attached, magic: ByteString)
    requires WellFormed(a)
    ensures RoundOf(file + Encoded(a), magic) == if a.magic == magic then Take(a.data) else Back(|file|)
    ensures (file + Encoded(a))[..|file|] == file
    ensures |file + Encoded(a)| >= TRAILER_SIZE && TrailerOf(file + Encoded(a)).size == |a.data|
  {
    hide LittleEndian, FromLittleEndian, Pow256;
    var whole, n := file + Encoded(a), |file| + |a.data|;
    EightBytes();
    LittleEndianRoundTrip(|a.data|, 8);
    assert whole[n..n + 8] == a.magic;
    assert whole[n + 8..] == LittleEndian(|a.data|, 8);
    assert whole[|file|..n] == a.data;
  }

  /** The walk finds the newest payload with the magic, and passes all others down to the base. */
  lemma {:induction false} WalkFindsNewest(base: ByteString, all: seq<Attached>, magic: ByteString)
    requires AllWellFormed(all)
    ensures Walk(Appended(base, all), magic)
         == if Newest(all, magic).Some? then Found(Newest(all, magic).value) else Walk(base, magic)
  {
    hide Walk, Encoded, RoundOf;
    if all != [] {
      var rest := all[..|all| - 1];
      WalkFindsNewest(base, rest, magic);
      RoundOfEncoded(Appended(base, rest), all[|all| - 1], magic);
      WalkStep(Appended(base, all), magic);
      EncodedLength(all[|all| - 1]);
    }
  }

  lemma EncodedLength(a: Attached)
    requires WellFormed(a)
    ensures |Encoded(a)| == |a.data| + TRAILER_SIZE
  {
  }

  /** The same for the whole function with its errors. */
  lemma ExtractFindsNewest(base: ByteString, all: seq<Attached>, magic: ByteString)
    requires AllWellFormed(all) && all != []
    ensures Extracted(Appended(base, all), magic) ==
      match Newest(all, magic)
      case Some(data) => Found(data)
      case None => Walk(base, magic)
  {
    hide Walk, Encoded;
    WalkFindsNewest(base, all, magic);
    EncodedLength(all[|all| - 1]);
  }

  // ----- The trailers that the walk meets -----

  function Met(file: ByteString, magic: ByteString): seq<Trailer>
    decreases |file|
  {
    if |file| < TRAILER_SIZE then []
    else
      var r := RoundOf(file, magic);
      [TrailerOf(file)] + if r.Back? && r.to < |file| then Met(file[..r.to], magic) else []
  }

  lemma MetStep(file: ByteString, magic: ByteString)
    ensures |file| < TRAILER_SIZE ==> Met(file, magic) == []
    ensures TRAILER_SIZE <= |file| ==>
      var r := RoundOf(file, magic);
      Met(file, magic) == [TrailerOf(file)] + if r.Back? && r.to < |file| then Met(file[..r.to], magic) else []
  {
    hide RoundOf, TrailerOf;
  }

  /** No trailer met has a size that wraps the sum. */
  predicate Straight(file: ByteString, magic: ByteString) {
    forall t :: t in Met(file, magic) ==> t.size < WRAPPING
  }

  lemma StraightStep(file: ByteString, magic: ByteString)
    requires TRAILER_SIZE <= |file|
    ensures var r := RoundOf(file, magic);
      Straight(file, magic) <==>
        TrailerOf(file).size < WRAPPING && (r.Back? && r.to < |file| ==> Straight(file[..r.to], magic))
  {
    hide RoundOf, TrailerOf, Met;
    MetStep(file, magic);
    var r := RoundOf(file, magic);
    assert TrailerOf(file) in Met(file, magic);
    if Straight(file, magic) && r.Back? && r.to < |file| {
      assert forall t :: t in Met(file[..r.to], magic) ==> t in Met(file, magic);
    }
  }

  /** What the walk answers without a wrapped sum is nothing but a payload: the file ends in it and in
      well-formed payloads with other magics behind it. */
  lemma {:induction false} FoundIsAttached(file: ByteString, magic: ByteString) returns (base: ByteString, later: seq<Attached>)
    requires |magic| == 8 && Walk(file, magic).Found? && Straight(file, magic)
    ensures EndsIn(file, base, Attached(magic, Walk(file, magic).data), later)
    decreases |file|
  {
    hide Walk, Encoded, Straight, RoundOf, TrailerOf, Appended, AllWellFormed;
    WalkStep(file, magic);
    ShortStops(file, magic);
    StraightStep(file, magic);
    RoundIsEncoded(file, magic);
    var last := LastOf(file);
    var at := |file| - TRAILER_SIZE - |last.data|;
    if last.magic == magic {
      base, later := file[..at], [];
      OneAttached(base, last);
    } else {
      base, later := FoundIsAttached(file[..at], magic);
      OneMoreAttached(file[..at], base, Attached(magic, Walk(file, magic).data), later, last);
      later := later + [last];
    }
  }

  /** The file is base, then the payload found, then later ones with other magics. */
  predicate EndsIn(file: ByteString, base: ByteString, found: Attached, later: seq<Attached>) {
    && WellFormed(found) && AllWellFormed(later) && Newest(later, found.magic) == None
    && file == Appended(base, [found] + later)
  }

  function LastOf(file: ByteString): Attached
    requires TRAILER_SIZE <= |file| && TrailerOf(file).size + TRAILER_SIZE <= |file|
  {
    var t := TrailerOf(file);
    var at := |file| - TRAILER_SIZE - t.size;
    Attached(t.magic, file[at..at + t.size])
  }

  lemma ShortStops(file: ByteString, magic: ByteString)
    ensures |file| < TRAILER_SIZE ==> RoundOf(file, magic) == Stop
  {
  }

  lemma RoundIsEncoded(file: ByteString, magic: ByteString)
    requires TRAILER_SIZE <= |file| && TrailerOf(file).size < WRAPPING && RoundOf(file, magic) != Stop
    ensures TrailerOf(file).size + TRAILER_SIZE <= |file|
    ensures var last := LastOf(file); var at := |file| - TRAILER_SIZE - |last.data|;
      && WellFormed(last) && file == file[..at] + Encoded(last) && at < |file|
      && RoundOf(file, magic) == if last.magic == magic then Take(last.data) else Back(at)
  {
    hide TrailerOf, Encoded;
    EndsInEncoded(file);
  }

  lemma EndsInEncoded(file: ByteString)
    requires TRAILER_SIZE <= |file| && TrailerOf(file).size + TRAILER_SIZE <= |file|
    ensures file == file[..|file| - TRAILER_SIZE - |LastOf(file).data|] + Encoded(LastOf(file))
  {
    hide Pow256, LittleEndian, FromLittleEndian;
    var t, n := TrailerOf(file), |file|;
    var at := n - TRAILER_SIZE - t.size;
    LittleEndianUnique(file[n - 8..]);
    assert file == file[..at] + (file[at..n - 16] + file[n - 16..n - 8] + file[n - 8..]);
  }

  lemma OneAttached(base: ByteString, a: Attached)
    requires WellFormed(a)
    ensures EndsIn(base + Encoded(a), base, a, [])
  {
    hide Encoded;
    assert [a] + [] == [a] && [a][..0] == [];
    assert Appended(base, []) == base;
  }

  lemma OneMoreAttached(file: ByteString, base: ByteString, found: Attached, later: seq<Attached>, a: Attached)
    requires EndsIn(file, base, found, later) && WellFormed(a) && a.magic != found.magic
    ensures EndsIn(file + Encoded(a), base, found, later + [a])
  {
    hide Encoded, Appended, Newest, WellFormed;
    assert [found] + (later + [a]) == ([found] + later) + [a];
    AppendLast(base, [found] + later, a);
    NewestSkips(later, a, found.magic);
  }

  lemma AppendLast(base: ByteString, all: seq<Attached>, a: Attached)
    ensures Appended(base, all + [a]) == Appended(base, all) + Encoded(a)
  {
    hide Encoded;
    assert (all + [a])[..|all|] == all;
  }

  lemma NewestSkips(all: seq<Attached>, a: Attached, magic: ByteString)
    requires a.magic != magic
    ensures Newest(all + [a], magic) == Newest(all, magic)
  {
    assert (all + [a])[..|all|] == all;
  }

  /** And a file of that form is walked without a wrapped sum, so the condition is exact. */
  lemma {:induction false} AttachedIsStraight(file: ByteString, base: ByteString, found: Attached, later: seq<Attached>)
    requires EndsIn(file, base, found, later)
    ensures Straight(file, found.magic) && Walk(file, found.magic) == Found(found.data)
    decreases |later|
  {
    hide Walk, Encoded, Straight, RoundOf, TrailerOf;
    var n := |later|;
    if n == 0 {
      assert [found] + later == [found];
      AppendOne(base, found);
      RoundOfEncoded(base, found, found.magic);
    } else {
      var a, rest := later[n - 1], later[..n - 1];
      assert [found] + later == ([found] + rest) + [a];
      AppendLast(base, [found] + rest, a);
      var front := Appended(base, [found] + rest);
      AttachedIsStraight(front, base, found, rest);
      RoundOfEncoded(front, a, found.magic);
      EncodedLength(a);
    }
    StraightStep(file, found.magic);
    WalkStep(file, found.magic);
  }

  lemma AppendOne(base: ByteString, a: Attached)
    ensures Appended(base, [a]) == base + Encoded(a)
  {
    hide Encoded;
    assert [a][..0] == [];
    assert Appended(base, []) == base;
  }

  /** Something found is an attached payload if and only if no sum wrapped on the way to it. */
  lemma FoundIsAttachedExactly(file: ByteString, magic: ByteString)
    requires |magic| == 8 && Walk(file, magic).Found?
    ensures Straight(file, magic) <==>
      exists base, later :: EndsIn(file, base, Attached(magic, Walk(file, magic).data), later)
  {
    hide Walk, Straight, EndsIn;
    if Straight(file, magic) {
      var base, later := FoundIsAttached(file, magic);
    }
    if base, later :| EndsIn(file, base, Attached(magic, Walk(file, magic).data), later) {
      AttachedIsStraight(file, base, Attached(magic, Walk(file, magic).data), later);
    }
  }

  // ----- When the loop does not end -----

  /** The loop has n rounds behind it and goes on. */
  predicate StillWalking(file: ByteString, magic: ByteString, n: nat)
    decreases n
  {
    n == 0 || (var r := RoundOf(file, magic); r.Back? && StillWalking(file[..r.to], magic, n - 1))
  }

  lemma {:induction false} StandsStill(file: ByteString, magic: ByteString, n: nat)
    requires RoundOf(file, magic) == Back(|file|)
    ensures StillWalking(file, magic, n)
    decreases n
  {
    hide RoundOf;
    if n > 0 {
      assert file[..|file|] == file;
      StandsStill(file, magic, n - 1);
    }
  }

  lemma {:induction false} FewerRounds(file: ByteString, magic: ByteString, m: nat, n: nat)
    requires m <= n && StillWalking(file, magic, n)
    ensures StillWalking(file, magic, m)
    decreases m
  {
    hide RoundOf;
    if m > 0 { FewerRounds(file[..RoundOf(file, magic).to], magic, m - 1, n - 1); }
  }

  lemma {:induction false} WalksOn(file: ByteString, magic: ByteString, n: nat)
    requires Walk(file, magic) == NeverReturns
    ensures StillWalking(file, magic, n)
    decreases |file|, n
  {
    hide Walk, RoundOf;
    WalkStep(file, magic);
    var to := RoundOf(file, magic).to;
    if to == |file| {
      StandsStill(file, magic, n);
    } else if n > 0 {
      WalksOn(file[..to], magic, n - 1);
    }
  }

  lemma {:induction false} WalkStops(file: ByteString, magic: ByteString)
    requires Walk(file, magic) != NeverReturns
    ensures !StillWalking(file, magic, |file| + 1)
    decreases |file|
  {
    hide Walk, RoundOf;
    WalkStep(file, magic);
    var r := RoundOf(file, magic);
    if r.Back? {
      WalkStops(file[..r.to], magic);
      if StillWalking(file[..r.to], magic, |file|) { FewerRounds(file[..r.to], magic, r.to + 1, |file|); }
    }
  }

  /** NeverReturns is what it says: every number of rounds leaves another one to go. */
  lemma NeverReturnsExactly(file: ByteString, magic: ByteString)
    ensures Walk(file, magic) == NeverReturns <==> forall n: nat :: StillWalking(file, magic, n)
  {
    hide Walk, StillWalking;
    if Walk(file, magic) == NeverReturns {
      forall n: nat ensures StillWalking(file, magic, n) { WalksOn(file, magic, n); }
    } else {
      WalkStops(file, magic);
    }
  }

  /** The loop never ends exactly when it meets a trailer with another magic whose size, added to that
      of a trailer, wraps to 0. */
  lemma {:induction false} LoopsExactly(file: ByteString, magic: ByteString)
    ensures Walk(file, magic) == NeverReturns <==>
      exists t :: t in Met(file, magic) && t.size == WRAPPING && t.magic != magic
    decreases |file|
  {
    hide Walk, Met, RoundOf, TrailerOf;
    WalkStep(file, magic);
    MetStep(file, magic);
    ShortStops(file, magic);
    if TRAILER_SIZE <= |file| {
      var r, t := RoundOf(file, magic), TrailerOf(file);
      StandsStillAt(file, magic);
      if r.Back? && r.to < |file| { LoopsExactly(file[..r.to], magic); }
    }
  }

  lemma StandsStillAt(file: ByteString, magic: ByteString)
    requires TRAILER_SIZE <= |file|
    ensures RoundOf(file, magic) == Back(|file|) <==>
      TrailerOf(file).size == WRAPPING && TrailerOf(file).magic != magic
  {
  }

  /** Such files: any front, another magic, and the size 2^64 - 16. */
  lemma LoopsOn(front: ByteString, other: ByteString, magic: ByteString)
    requires |other| == 8 && other != magic && |front| > 0
    ensures Extracted(front + other + LittleEndian(WRAPPING, 8), magic) == NeverReturns
  {
    hide Pow256, LittleEndian, FromLittleEndian;
    var file, n := front + other + LittleEndian(WRAPPING, 8), |front|;
    EightBytes();
    LittleEndianRoundTrip(WRAPPING, 8);
    assert file[n..n + 8] == other && file[n + 8..] == LittleEndian(WRAPPING, 8);
  }

  // ----- When nothing is found, and when the call throws -----

  lemma StopsAt(file: ByteString, magic: ByteString)
    requires TRAILER_SIZE <= |file|
    ensures var t := TrailerOf(file);
      && (RoundOf(file, magic) == Throw <==> t.size >= WRAPPING && t.magic == magic)
      && (t.size < WRAPPING ==> (RoundOf(file, magic) == Stop <==> t.size == 0 || t.size + TRAILER_SIZE > |file|))
  {
  }

  /** The call throws exactly when it meets a trailer with the magic whose size wraps the sum. */
  lemma {:induction false} ThrowsExactly(file: ByteString, magic: ByteString)
    ensures Walk(file, magic) == Throws <==> exists t :: t in Met(file, magic) && t.size >= WRAPPING && t.magic == magic
    decreases |file|
  {
    hide Walk, Met, RoundOf, TrailerOf;
    WalkStep(file, magic);
    MetStep(file, magic);
    ShortStops(file, magic);
    if TRAILER_SIZE <= |file| {
      var r, t := RoundOf(file, magic), TrailerOf(file);
      StopsAt(file, magic);
      if r.Back? && r.to < |file| { ThrowsExactly(file[..r.to], magic); }
    }
  }

  /** No trailer of a payload stands at the end: the file is too short for one, or its size is zero or
      more than the file holds. */
  predicate Bare(file: ByteString) {
    |file| < TRAILER_SIZE ||
    var size := TrailerOf(file).size;
    size == 0 || |file| - TRAILER_SIZE < size < WRAPPING
  }

  /** The file is a bare one with well-formed payloads behind it, none with the magic. */
  predicate HasOthers(file: ByteString, base: ByteString, all: seq<Attached>, magic: ByteString) {
    AllWellFormed(all) && Newest(all, magic) == None && Bare(base) && file == Appended(base, all)
  }

  lemma {:induction false} NotFoundHasOthers(file: ByteString, magic: ByteString) returns (base: ByteString, all: seq<Attached>)
    requires |magic| == 8 && Walk(file, magic) == Failed(MagicNotFound) && Straight(file, magic)
    ensures HasOthers(file, base, all, magic)
    decreases |file|
  {
    hide Walk, Encoded, Straight, RoundOf, TrailerOf, Appended, AllWellFormed, Bare;
    WalkStep(file, magic);
    if RoundOf(file, magic) == Stop {
      base, all := file, [];
      StopIsBare(file, magic);
      NothingAppended(file, magic);
    } else {
      ShortStops(file, magic);
      StraightStep(file, magic);
      RoundIsEncoded(file, magic);
      var last := LastOf(file);
      var at := |file| - TRAILER_SIZE - |last.data|;
      base, all := NotFoundHasOthers(file[..at], magic);
      AppendLast(base, all, last);
      NewestSkips(all, last, magic);
      OneMoreWellFormed(all, last);
      all := all + [last];
    }
  }

  lemma OneMoreWellFormed(all: seq<Attached>, a: Attached)
    requires AllWellFormed(all) && WellFormed(a)
    ensures AllWellFormed(all + [a])
  {
    hide WellFormed;
  }

  lemma NothingAppended(file: ByteString, magic: ByteString)
    ensures AllWellFormed([]) && Newest([], magic) == None && Appended(file, []) == file
  {
  }

  lemma StopIsBare(file: ByteString, magic: ByteString)
    requires RoundOf(file, magic) == Stop && Straight(file, magic)
    ensures Bare(file)
  {
    hide Straight, TrailerOf, RoundOf;
    if TRAILER_SIZE <= |file| {
      StraightStep(file, magic);
      StopsAt(file, magic);
    }
  }

  lemma BareStops(file: ByteString, magic: ByteString)
    requires Bare(file)
    ensures RoundOf(file, magic) == Stop && Straight(file, magic)
  {
    hide Straight, TrailerOf, RoundOf;
    ShortStops(file, magic);
    if TRAILER_SIZE <= |file| {
      StopsAt(file, magic);
      StraightStep(file, magic);
    } else {
      ShortIsStraight(file, magic);
    }
  }

  lemma ShortIsStraight(file: ByteString, magic: ByteString)
    requires |file| < TRAILER_SIZE
    ensures Straight(file, magic)
  {
    hide RoundOf, TrailerOf;
  }

  lemma {:induction false} OthersAreStraight(file: ByteString, base: ByteString, all: seq<Attached>, magic: ByteString)
    requires HasOthers(file, base, all, magic)
    ensures Straight(file, magic) && Walk(file, magic) == Failed(MagicNotFound)
    decreases |all|
  {
    hide Walk, Encoded, Straight, RoundOf, TrailerOf, Bare;
    if all == [] {
      BareStops(file, magic);
    } else {
      var a, rest := all[|all| - 1], all[..|all| - 1];
      var front := Appended(base, rest);
      OthersAreStraight(front, base, rest, magic);
      RoundOfEncoded(front, a, magic);
      EncodedLength(a);
      StraightStep(file, magic);
    }
    WalkStep(file, magic);
  }

  /** Without a wrapped sum, the magic is not found exactly when the file is a bare one with payloads of
      other magics behind it. */
  lemma NotFoundExactly(file: ByteString, magic: ByteString)
    requires |magic| == 8
    ensures Straight(file, magic) && Walk(file, magic) == Failed(MagicNotFound) <==>
      exists base, all :: HasOthers(file, base, all, magic)
  {
    hide Walk, Straight, HasOthers;
    if Straight(file, magic) && Walk(file, magic) == Failed(MagicNotFound) {
      var base, all := NotFoundHasOthers(file, magic);
    }
    if base, all :| HasOthers(file, base, all, magic) {
      OthersAreStraight(file, base, all, magic);
    }
  }
}
