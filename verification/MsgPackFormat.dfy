/** The bytes themselves: which heads the reader knows, byte by byte as the MessagePack specification
    lists them, and in which order the parts of a value are written. */
module MsgPackFormat {
  import opened Common
  import opened Bytes
  import opened MsgPack
  import opened MsgPackRoundTrip
  import opened MsgPackCodec

  /** What a head says: a whole value, or that so many bytes, items or entries follow. */
  datatype Meaning = Whole(v: Value) | Text(len: nat) | List(count: nat) | Table(count: nat)

  function Two(b: ByteString, i: nat): nat
    requires i + 2 <= |b|
  {
    b[i] as int * 0x100 + b[i + 1]
  }

  function Four(b: ByteString, i: nat): nat
    requires i + 4 <= |b|
  {
    b[i] as int * 0x100_0000 + b[i + 1] as int * 0x1_0000 + b[i + 2] as int * 0x100 + b[i + 3]
  }

  function Eight(b: ByteString, i: nat): (n: nat)
    requires i + 8 <= |b|
    ensures n < TWO64
  {
    Four(b, i) * 0x1_0000_0000 + Four(b, i + 4)
  }

  function TwosComplement(n: nat, half: nat): int {
    if n < half then n else n - 2 * half
  }

  /** How many bytes a head with this first byte has; 0 for one the reader does not know. */
  function HeadLength(tag: Byte): nat {
    if tag < 0xc0 || tag >= 0xe0 then 1
    else if tag == 0xc0 || tag == 0xc2 || tag == 0xc3 then 1
    else if tag == 0xcc || tag == 0xd0 || tag == 0xd9 then 2
    else if tag == 0xcd || tag == 0xd1 || tag == 0xda || tag == 0xdc || tag == 0xde then 3
    else if tag == 0xce || tag == 0xd2 || tag == 0xdb || tag == 0xdd || tag == 0xdf then 5
    else if tag == 0xcb || tag == 0xcf || tag == 0xd3 then 9
    else 0
  }

  predicate IsHead(b: ByteString) {
    b != [] && |b| == HeadLength(b[0])
  }

  function MeaningOf(b: ByteString): Meaning
    requires IsHead(b)
  {
    var tag: int := b[0];
    if tag < 0x80 then Whole(Int(tag))
    else if tag < 0x90 then Table(tag - 0x80)
    else if tag < 0xa0 then List(tag - 0x90)
    else if tag < 0xc0 then Text(tag - 0xa0)
    else if tag >= 0xe0 then Whole(Int(tag - 0x100))
    else if tag == 0xc0 then Whole(Nil)
    else if tag == 0xc2 then Whole(Bool(false))
    else if tag == 0xc3 then Whole(Bool(true))
    else if tag == 0xcb then Whole(Double(Eight(b, 1)))
    else if tag == 0xcc then Whole(UInt(b[1]))
    else if tag == 0xcd then Whole(UInt(Two(b, 1)))
    else if tag == 0xce then Whole(UInt(Four(b, 1)))
    else if tag == 0xcf then Whole(UInt(Eight(b, 1)))
    else if tag == 0xd0 then Whole(Int(TwosComplement(b[1], 0x80)))
    else if tag == 0xd1 then Whole(Int(TwosComplement(Two(b, 1), 0x8000)))
    else if tag == 0xd2 then Whole(Int(TwosComplement(Four(b, 1), 0x8000_0000)))
    else if tag == 0xd3 then Whole(Int(TwosComplement(Eight(b, 1), 0x8000_0000_0000_0000)))
    else if tag == 0xd9 then Text(b[1])
    else if tag == 0xda then Text(Two(b, 1))
    else if tag == 0xdb then Text(Four(b, 1))
    else if tag == 0xdc then List(Two(b, 1))
    else if tag == 0xdd then List(Four(b, 1))
    else if tag == 0xde then Table(Two(b, 1))
    else Table(Four(b, 1))
  }

  predicate Says(h: Head, m: Meaning) {
    match h
    case Bad => false
    case Scalar(v, _) => m == Whole(v)
    case StrOf(len, _) => m == Text(len)
    case ArrOf(count, _) => m == List(count)
    case MapOf(count, _) => m == Table(count)
  }

  lemma NumberIs(data: ByteString, pos: nat, n: nat)
    requires n in {1, 2, 4, 8} && pos + 1 + n <= |data|
    ensures var b := data[pos..pos + 1 + n];
      FromBigEndian(data[pos + 1..pos + 1 + n]) ==
        if n == 1 then b[1] else if n == 2 then Two(b, 1) else if n == 4 then Four(b, 1) else Eight(b, 1)
  {
    hide FromBigEndian;
    var f := data[pos + 1..pos + 1 + n];
    if n == 1 {
      FromBigEndian1(f);
    } else if n == 2 {
      FromBigEndian2(f);
    } else if n == 4 {
      FromBigEndian4(f);
    } else {
      FromBigEndian8(f);
    }
  }

  lemma FourShifted(b: ByteString)
    requires 4 <= |b|
    ensures Four(([0] + b)[0..5], 1) == Four(b, 0)
  {
  }

  lemma FromBigEndian8(s: ByteString)
    requires |s| == 8
    ensures FromBigEndian(s) == FromBigEndian(s[..4]) * TWO32 + FromBigEndian(s[4..])
    ensures FromBigEndian(s) == Eight(s, 0)
  {
    hide FromBigEndian;
    FromBigEndian4(s[..4]);
    FromBigEndian4(s[4..]);
    FromBigEndianJoin(s[..4], s[4..]);
    assert s[..4] + s[4..] == s;
    Pow256Values();
  }

  lemma {:induction false} FromBigEndianJoin(a: ByteString, b: ByteString)
    ensures FromBigEndian(a + b) == FromBigEndian(a) * Pow256(|b|) + FromBigEndian(b)
    decreases |b|
  {
    hide FromBigEndian;
    if b == [] {
      assert a + b == a;
      FromNothingBig();
    } else {
      var front, last := b[..|b| - 1], b[|b| - 1];
      FromBigEndianJoin(a, front);
      FromBigEndianSnoc(a + front, last);
      FromBigEndianSnoc(front, last);
      assert a + b == (a + front) + [last] && b == front + [last];
      assert FromBigEndian(a) * Pow256(|front|) * 256 == FromBigEndian(a) * Pow256(|b|);
    }
  }

  // ----- The reader's heads -----

  lemma WidthIs(tag: Byte)
    requires 0xc0 <= tag < 0xe0
    ensures FieldWidth(tag) == if HeadLength(tag) == 0 then Unknown else Field(HeadLength(tag) - 1)
  {
  }

  /** The head made of a tag and its number says what the table says of the bytes. */
  lemma FieldMeans(b: ByteString, next: nat)
    requires IsHead(b) && 0xc0 <= b[0] < 0xe0 && FieldWidth(b[0]) == Field(|b| - 1)
    requires FromBigEndian(b[1..]) < Pow256(|b| - 1)
    ensures Says(FieldHead(b[0], FromBigEndian(b[1..]), next), MeaningOf(b))
  {
    hide FromBigEndian, Pow256, Eight, Four, Two;
    Pow256Values();
    if |b| > 1 {
      NumberIs(b, 0, |b| - 1);
      assert b[0..|b|] == b && b[1..|b|] == b[1..];
    }
  }

  /** Every head is read as the table says, and everything else is refused: an unknown tag, and a head
      that the data do not hold in full. */
  lemma HeadIs(data: ByteString, pos: nat)
    ensures var h := HeadAt(data, pos);
      if pos < |data| && HeadLength(data[pos]) > 0 && pos + HeadLength(data[pos]) <= |data| then
        !h.Bad? && h.next == pos + HeadLength(data[pos]) && Says(h, MeaningOf(data[pos..h.next]))
      else h.Bad?
  {
    hide FromBigEndian, Pow256, FieldHead, FieldWidth;
    if pos < |data| {
      var tag := data[pos];
      if 0xc0 <= tag < 0xe0 {
        WidthIs(tag);
        var n := HeadLength(tag);
        if n > 0 && pos + n <= |data| {
          var b := data[pos..pos + n];
          assert b[0] == tag && b[1..] == data[pos + 1..pos + 1 + (n - 1)];
          FieldMeans(b, pos + n);
          FieldKeepsNext(tag, FromBigEndian(b[1..]), pos + n);
        }
      } else {
        assert data[pos..pos + 1] == [tag];
      }
    }
  }

  lemma FieldKeepsNext(tag: Byte, u: nat, next: nat)
    requires FieldWidth(tag).Field? && u < Pow256(FieldWidth(tag).n)
    ensures var h := FieldHead(tag, u, next); !h.Bad? && h.next == next
  {
  }

  // ----- What is written -----

  /** The bytes b are a head with this meaning, and no shorter head has it. */
  ghost predicate ShortestHead(b: ByteString, m: Meaning) {
    && IsHead(b) && MeaningOf(b) == m
    && forall c :: IsHead(c) && MeaningOf(c) == m ==> |b| <= |c|
  }

  lemma HeadAtStart(c: ByteString)
    requires IsHead(c)
    ensures Says(HeadAt(c, 0), MeaningOf(c)) && !HeadAt(c, 0).Bad? && HeadAt(c, 0).next == |c|
  {
    hide HeadAt, MeaningOf;
    HeadIs(c, 0);
    assert c[0..|c|] == c;
  }

  /** What HeadAt finds in exactly the bytes b is what b means. */
  lemma HeadOfWhole(b: ByteString)
    requires !HeadAt(b, 0).Bad? && HeadAt(b, 0).next == |b|
    ensures IsHead(b) && Says(HeadAt(b, 0), MeaningOf(b))
  {
    hide HeadAt, MeaningOf;
    HeadIs(b, 0);
    assert b[0..|b|] == b;
  }

  lemma HasAtStart(b: ByteString)
    ensures HasAt(b, 0, b)
  {
    assert b[0..|b|] == b;
  }

  /** Numbers are written as the shortest head that means them; an unsigned one up to 127 is the same head
      as the signed one. */
  lemma NumbersWritten(i: Int64, u: UInt64)
    ensures ShortestHead(EncodeInt(i), Whole(Int(i)))
    ensures ShortestHead(EncodeUInt(u), Whole(if u <= 127 then Int(u) else UInt(u)))
  {
    hide HeadAt, MeaningOf, EncodeInt, EncodeUInt, HasAt;
    var b, c := EncodeInt(i), EncodeUInt(u);
    HasAtStart(b);
    HasAtStart(c);
    IntHeadAt(b, 0, i);
    UIntHeadAt(c, 0, u);
    HeadOfWhole(b);
    HeadOfWhole(c);
    forall d | IsHead(d) ensures MeaningOf(d) == Whole(Int(i)) ==> |b| <= |d| {
      HeadAtStart(d);
      HeadShrinks(d, 0);
    }
    forall d | IsHead(d) ensures MeaningOf(d) == Whole(if u <= 127 then Int(u) else UInt(u)) ==> |c| <= |d| {
      HeadAtStart(d);
      HeadShrinks(d, 0);
      SmallUnsigned(u);
    }
  }

  lemma SmallUnsigned(u: UInt64)
    ensures u <= 127 ==> EncodeUInt(u) == EncodeInt(u)
  {
  }

  /** So are the heads of strings, arrays and maps whose length fits 32 bits. */
  lemma LengthsWritten(n: nat)
    requires n < TWO32
    ensures ShortestHead(StrHead(n), Text(n)) && ShortestHead(ArrHead(n), List(n)) && ShortestHead(MapHead(n), Table(n))
  {
    hide HeadAt, MeaningOf, StrHead, ArrHead, MapHead, HasAt;
    HasAtStart(StrHead(n));
    HasAtStart(ArrHead(n));
    HasAtStart(MapHead(n));
    StrHeadAt(StrHead(n), 0, n);
    ArrHeadAt(ArrHead(n), 0, n);
    MapHeadAt(MapHead(n), 0, n);
    HeadOfWhole(StrHead(n));
    HeadOfWhole(ArrHead(n));
    HeadOfWhole(MapHead(n));
    forall d | IsHead(d)
      ensures MeaningOf(d) == Text(n) ==> |StrHead(n)| <= |d|
      ensures MeaningOf(d) == List(n) ==> |ArrHead(n)| <= |d|
      ensures MeaningOf(d) == Table(n) ==> |MapHead(n)| <= |d|
    {
      HeadAtStart(d);
      HeadShrinks(d, 0);
    }
  }

  /** The rest, byte by byte. A BIN head has the tag 0xc4, 0xc5 or 0xc6 and the length behind it. */
  lemma OthersWritten(bits: UInt64, len: nat)
    ensures Encode(Nil) == [0xc0] && Encode(Bool(false)) == [0xc2] && Encode(Bool(true)) == [0xc3]
    ensures Encode(Float(bits)) == Encode(Double(bits))
    ensures var b := Encode(Double(bits)); |b| == 9 && b[0] == 0xcb && Eight(b, 1) == bits
    ensures var b := BinHead(len);
      if len <= 0xff then b == [0xc4, len]
      else if len <= 0xffff then |b| == 3 && b[0] == 0xc5 && Two(b, 1) == len
      else |b| == 5 && b[0] == 0xc6 && Four(b, 1) == len % TWO32
  {
    hide FromBigEndian, BigEndian, Eight, Four, Two;
    Pow256Values();
    NumberWritten([0xcb], bits, 8);
    if len <= 0xff {
      NumberWritten([0xc4], len, 1);
    } else if len <= 0xffff {
      NumberWritten([0xc5], len, 2);
    } else {
      NumberWritten([0xc6], len % TWO32, 4);
    }
  }

  lemma NumberWritten(tag: ByteString, u: nat, n: nat)
    requires |tag| == 1 && n in {1, 2, 4, 8} && u < Pow256(n)
    ensures var b := tag + BigEndian(u, n);
      u == if n == 1 then b[1] else if n == 2 then Two(b, 1) else if n == 4 then Four(b, 1) else Eight(b, 1)
  {
    hide FromBigEndian, BigEndian, Eight, Four, Two, Pow256;
    var b := tag + BigEndian(u, n);
    NumberIs(b, 0, n);
    assert b[0..1 + n] == b && b[1..1 + n] == BigEndian(u, n);
    BigEndianRoundTrip(u, n);
  }

  // ----- In which order -----

  /** Head before contents, the items in order, and each key before its value. */
  lemma PartsInOrder(s: ByteString, items: seq<Value>, entries: seq<Entry>)
    ensures Encode(Str(s)) == StrHead(|s|) + s && Encode(Bin(s)) == BinHead(|s|) + s
    ensures Encode(Arr(items)) == ArrHead(|items|) + EncodeItems(items)
    ensures Encode(Map(entries)) == MapHead(|entries|) + EncodeEntries(entries)
    ensures |items| == 1 ==> EncodeItems(items) == Encode(items[0])
    ensures |entries| == 1 ==> EncodeEntries(entries) == Encode(Str(entries[0].key)) + Encode(entries[0].value)
  {
    hide StrHead, BinHead, ArrHead, MapHead;
    AddNothing(if |items| == 1 then Encode(items[0]) else []);
    AddNothing(if |entries| == 1 then Encode(entries[0].value) else []);
  }

  lemma {:induction false} ItemsInOrder(a: seq<Value>, b: seq<Value>)
    ensures EncodeItems(a + b) == EncodeItems(a) + EncodeItems(b)
    decreases |a|
  {
    hide Encode;
    if a == [] {
      assert a + b == b;
    } else {
      assert (a + b)[1..] == a[1..] + b;
      ItemsInOrder(a[1..], b);
      Glue(Encode(a[0]), EncodeItems(a[1..]), EncodeItems(b));
    }
  }

  lemma {:induction false} EntriesInOrder(a: seq<Entry>, b: seq<Entry>)
    ensures EncodeEntries(a + b) == EncodeEntries(a) + EncodeEntries(b)
    decreases |a|
  {
    hide Encode, EncodeStr;
    if a == [] {
      assert a + b == b;
    } else {
      assert (a + b)[1..] == a[1..] + b;
      EntriesInOrder(a[1..], b);
      var k, v := EncodeStr(a[0].key), Encode(a[0].value);
      Glue(k, v + EncodeEntries(a[1..]), EncodeEntries(b));
      Glue(v, EncodeEntries(a[1..]), EncodeEntries(b));
    }
  }

  // ----- The lookup of an integer -----

  /** getInt reads the first entry with the key: a signed number as it is, an unsigned one as the signed
      number of the same 64 bits, and anything else as the default. */
  lemma GetIntIs(entries: seq<Entry>, key: ByteString, def: Int64, i: nat)
    requires i < |entries| && entries[i].key == key && forall j :: 0 <= j < i ==> entries[j].key != key
    ensures GetInt(Map(entries), key, def) ==
      match entries[i].value
      case Int(n) => n
      case UInt(n) => if n < 0x8000_0000_0000_0000 then n else n - 0x1_0000_0000_0000_0000
      case _ => def
  {
    LookupIs(entries, key, i);
  }

  lemma {:induction false} LookupIs(entries: seq<Entry>, key: ByteString, i: nat)
    requires i < |entries| && entries[i].key == key && forall j :: 0 <= j < i ==> entries[j].key != key
    ensures Lookup(entries, key).Ok? && Lookup(entries, key).v == entries[i].value
    decreases i
  {
    if i > 0 {
      assert entries[0].key != key;
      LookupIs(entries[1..], key, i - 1);
    }
  }

  /** Without the key, or in what is no map, it is the default. */
  lemma GetIntDefault(v: Value, key: ByteString, def: Int64)
    requires v.Map? ==> forall i :: 0 <= i < |v.entries| ==> v.entries[i].key != key
    ensures GetInt(v, key, def) == def
  {
    if v.Map? { LookupNone(v.entries, key); }
  }

  lemma {:induction false} LookupNone(entries: seq<Entry>, key: ByteString)
    requires forall i :: 0 <= i < |entries| ==> entries[i].key != key
    ensures Lookup(entries, key).Fail?
  {
    if entries != [] { LookupNone(entries[1..], key); }
  }
}
