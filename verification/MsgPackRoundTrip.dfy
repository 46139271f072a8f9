/** Decoding undoes encoding exactly on the readable values, and never lengthens its input. */
module MsgPackRoundTrip {
  import opened Common
  import opened Bytes
  import opened MsgPack

  // ----- Heads -----

  /** A tag outside the fix ranges followed by its n-byte number. */
  lemma FieldAt(data: ByteString, pos: nat, tag: Byte, u: nat, n: nat)
    requires HasAt(data, pos, [tag] + BigEndian(u, n))
    requires 0xc0 <= tag < 0xe0 && FieldWidth(tag) == Field(n) && u < Pow256(n)
    ensures HeadAt(data, pos) == FieldHead(tag, u, pos + 1 + n)
  {
    hide BigEndian, FromBigEndian, FieldHead, Pow256, HasAt;
    FixAt(data, pos, tag, BigEndian(u, n));
    FieldStands(data, pos, tag, u, n);
  }

  lemma FieldStands(data: ByteString, pos: nat, tag: Byte, u: nat, n: nat)
    requires HasAt(data, pos, [tag] + BigEndian(u, n)) && u < Pow256(n)
    ensures pos + 1 + n <= |data| && FromBigEndian(data[pos + 1..pos + 1 + n]) == u
  {
    hide BigEndian, FromBigEndian, Pow256;
    HasAtSplit(data, pos, [tag], BigEndian(u, n));
    BigEndianRoundTrip(u, n);
  }

  lemma FixAt(data: ByteString, pos: nat, tag: Byte, rest: ByteString)
    requires HasAt(data, pos, [tag] + rest)
    ensures pos < |data| && data[pos] == tag
  {
    assert data[pos..pos + |[tag] + rest|][0] == tag;
  }

  lemma IntHeadAt(data: ByteString, pos: nat, v: Int64)
    requires HasAt(data, pos, EncodeInt(v))
    ensures HeadAt(data, pos) == Scalar(Int(v), pos + |EncodeInt(v)|)
  {
    hide HeadAt, BigEndian, FromBigEndian, HasAt, Pow256;
    Pow256Values();
    if -32 <= v <= 127 {
      FixIntHeadAt(data, pos, v);
    } else if -128 <= v <= 127 {
      FieldAt(data, pos, 0xd0, v % 0x100, 1);
    } else if -0x8000 <= v <= 0x7fff {
      FieldAt(data, pos, 0xd1, v % 0x1_0000, 2);
    } else if -0x8000_0000 <= v <= 0x7fff_ffff {
      FieldAt(data, pos, 0xd2, v % TWO32, 4);
    } else {
      FieldAt(data, pos, 0xd3, v % TWO64, 8);
    }
  }

  lemma FixIntHeadAt(data: ByteString, pos: nat, v: Int64)
    requires -32 <= v <= 127 && HasAt(data, pos, [v % 256])
    ensures HeadAt(data, pos) == Scalar(Int(v), pos + 1)
  {
    hide FieldHead, FieldWidth, FromBigEndian, Pow256;
    var tag := v % 256;
    assert [tag] + [] == [tag];
    FixAt(data, pos, tag, []);
    assert v < 0 ==> tag == v + 256;
  }

  lemma UIntHeadAt(data: ByteString, pos: nat, v: UInt64)
    requires HasAt(data, pos, EncodeUInt(v))
    ensures HeadAt(data, pos) == Scalar(Norm(UInt(v)), pos + |EncodeUInt(v)|)
  {
    hide HeadAt, BigEndian, FromBigEndian, HasAt, Pow256;
    Pow256Values();
    if v <= 127 {
      FixIntHeadAt(data, pos, v);
    } else if v <= 0xff {
      FieldAt(data, pos, 0xcc, v, 1);
    } else if v <= 0xffff {
      FieldAt(data, pos, 0xcd, v, 2);
    } else if v <= 0xffff_ffff {
      FieldAt(data, pos, 0xce, v, 4);
    } else {
      FieldAt(data, pos, 0xcf, v, 8);
    }
  }

  lemma FixStrHeadAt(data: ByteString, pos: nat, len: nat)
    requires len <= 31 && HasAt(data, pos, [0xa0 + len])
    ensures HeadAt(data, pos) == StrOf(len, pos + 1)
  {
    hide FieldHead, FieldWidth, FromBigEndian, Pow256;
    assert [0xa0 + len] + [] == [0xa0 + len];
    FixAt(data, pos, 0xa0 + len, []);
  }

  lemma StrHeadAt(data: ByteString, pos: nat, len: nat)
    requires HasAt(data, pos, StrHead(len))
    ensures HeadAt(data, pos) == StrOf(len % TWO32, pos + |StrHead(len)|)
  {
    hide HeadAt, HasAt, BigEndian, FromBigEndian, Pow256;
    Pow256Values();
    if len <= 31 {
      FixStrHeadAt(data, pos, len);
    } else if len <= 0xff {
      FieldAt(data, pos, 0xd9, len, 1);
    } else if len <= 0xffff {
      FieldAt(data, pos, 0xda, len, 2);
    } else {
      FieldAt(data, pos, 0xdb, len % TWO32, 4);
    }
  }

  lemma FixArrHeadAt(data: ByteString, pos: nat, count: nat)
    requires count <= 15 && HasAt(data, pos, [0x90 + count])
    ensures HeadAt(data, pos) == ArrOf(count, pos + 1)
  {
    hide FieldHead, FieldWidth, FromBigEndian, Pow256;
    assert [0x90 + count] + [] == [0x90 + count];
    FixAt(data, pos, 0x90 + count, []);
  }

  lemma ArrHeadAt(data: ByteString, pos: nat, count: nat)
    requires HasAt(data, pos, ArrHead(count))
    ensures HeadAt(data, pos) == ArrOf(count % TWO32, pos + |ArrHead(count)|)
  {
    hide HeadAt, HasAt, BigEndian, FromBigEndian, Pow256;
    Pow256Values();
    if count <= 15 {
      FixArrHeadAt(data, pos, count);
    } else if count <= 0xffff {
      FieldAt(data, pos, 0xdc, count, 2);
    } else {
      FieldAt(data, pos, 0xdd, count % TWO32, 4);
    }
  }

  lemma FixMapHeadAt(data: ByteString, pos: nat, count: nat)
    requires count <= 15 && HasAt(data, pos, [0x80 + count])
    ensures HeadAt(data, pos) == MapOf(count, pos + 1)
  {
    hide FieldHead, FieldWidth, FromBigEndian, Pow256;
    assert [0x80 + count] + [] == [0x80 + count];
    FixAt(data, pos, 0x80 + count, []);
  }

  lemma MapHeadAt(data: ByteString, pos: nat, count: nat)
    requires HasAt(data, pos, MapHead(count))
    ensures HeadAt(data, pos) == MapOf(count % TWO32, pos + |MapHead(count)|)
  {
    hide HeadAt, HasAt, BigEndian, FromBigEndian, Pow256;
    Pow256Values();
    if count <= 15 {
      FixMapHeadAt(data, pos, count);
    } else if count <= 0xffff {
      FieldAt(data, pos, 0xde, count, 2);
    } else {
      FieldAt(data, pos, 0xdf, count % TWO32, 4);
    }
  }

  /** The reader knows no tag for BIN. */
  lemma BinHeadAt(data: ByteString, pos: nat, len: nat)
    requires HasAt(data, pos, BinHead(len))
    ensures HeadAt(data, pos) == Bad
  {
    var head := BinHead(len);
    assert head == [head[0]] + head[1..];
    FixAt(data, pos, head[0], head[1..]);
  }

  lemma DoubleHeadAt(data: ByteString, pos: nat, bits: UInt64)
    requires HasAt(data, pos, [0xcb] + BigEndian(bits, 8))
    ensures HeadAt(data, pos) == Scalar(Double(bits), pos + 9)
  {
    Pow256Values();
    FieldAt(data, pos, 0xcb, bits, 8);
  }

  lemma NilBoolHeadAt(data: ByteString, pos: nat, v: Value)
    requires (v.Nil? || v.Bool?) && HasAt(data, pos, Encode(v))
    ensures HeadAt(data, pos) == Scalar(v, pos + 1)
  {
    var tag: Byte := if v.Nil? then 0xc0 else if v.b then 0xc3 else 0xc2;
    assert Encode(v) == [tag] + BigEndian(0, 0);
    FieldAt(data, pos, tag, 0, 0);
  }

  // ----- Values -----

  /** Wherever the bytes Encode(v) stand, the reader returns Norm(v) and stops right behind
      them exactly when v is readable; otherwise it fails or returns something else. */
  ghost predicate Faithful(v: Value, r: Parsed<Value>, end: nat) {
    if Readable(v) then r == Ok(Norm(v), end) else r.Ok? ==> r.v != Norm(v)
  }

  ghost predicate FaithfulItems(items: seq<Value>, r: Parsed<seq<Value>>, end: nat) {
    if ReadableItems(items) then r == Ok(NormItems(items), end) else r.Ok? ==> r.v != NormItems(items)
  }

  ghost predicate FaithfulEntries(entries: seq<Entry>, r: Parsed<seq<Entry>>, end: nat) {
    if ReadableEntries(entries) then r == Ok(NormEntries(entries), end)
    else r.Ok? ==> r.v != NormEntries(entries)
  }

  lemma {:induction false} ParseEncoded(data: ByteString, pos: nat, v: Value)
    requires HasAt(data, pos, Encode(v))
    ensures Faithful(v, Parse(data, pos), pos + |Encode(v)|)
    decreases v, 1
  {
    hide *;
    EncodeContainer(v);
    match v
    case Str(s) => ParseEncodedStr(data, pos, s);
    case Bin(d) => ParseEncodedBin(data, pos, d);
    case Arr(items) =>
      HasAtSplit(data, pos, ArrHead(|items|), EncodeItems(items));
      ParseEncodedItems(data, pos + |ArrHead(|items|)|, items);
      ParseEncodedArr(data, pos, items);
    case Map(entries) =>
      HasAtSplit(data, pos, MapHead(|entries|), EncodeEntries(entries));
      ParseEncodedEntries(data, pos + |MapHead(|entries|)|, entries);
      ParseEncodedMap(data, pos, entries);
    case _ => ParseEncodedScalar(data, pos, v);
  }

  /** Parse in terms of the head alone. */
  lemma ParseStep(data: ByteString, pos: nat)
    ensures match HeadAt(data, pos)
      case Bad => Parse(data, pos) == Fail
      case Scalar(v, next) => Parse(data, pos) == Ok(v, next)
      case StrOf(len, next) =>
        Parse(data, pos) == if next + len > |data| then Fail else Ok(Str(data[next..next + len]), next + len)
      case ArrOf(count, next) =>
        var r := ParseItems(data, next, count);
        Parse(data, pos) == if r.Fail? then Fail else Ok(Arr(r.v), r.next)
      case MapOf(count, next) =>
        var r := ParseEntries(data, next, count);
        Parse(data, pos) == if r.Fail? then Fail else Ok(Map(r.v), r.next)
    ensures pos >= |data| ==> Parse(data, pos) == Fail
  {
    hide ParseItems, ParseEntries, FieldHead, FieldWidth, FromBigEndian;
  }

  lemma ContainerParts(items: seq<Value>, entries: seq<Entry>)
    ensures Norm(Arr(items)) == Arr(NormItems(items)) && |NormItems(items)| == |items|
    ensures Readable(Arr(items)) == (|items| < TWO32 && ReadableItems(items))
    ensures Norm(Map(entries)) == Map(NormEntries(entries)) && |NormEntries(entries)| == |entries|
    ensures Readable(Map(entries)) == (|entries| < TWO32 && ReadableEntries(entries))
  {
  }

  lemma EncodeContainer(v: Value)
    ensures v.Str? ==> Encode(v) == EncodeStr(v.s)
    ensures v.Arr? ==> Encode(v) == ArrHead(|v.items|) + EncodeItems(v.items)
    ensures v.Map? ==> Encode(v) == MapHead(|v.entries|) + EncodeEntries(v.entries)
  {
  }

  lemma ParseEncodedScalar(data: ByteString, pos: nat, v: Value)
    requires HasAt(data, pos, Encode(v))
    requires !v.Str? && !v.Bin? && !v.Arr? && !v.Map?
    ensures Faithful(v, Parse(data, pos), pos + |Encode(v)|)
  {
    hide HeadAt, EncodeInt, EncodeUInt;
    match v
    case Nil => NilBoolHeadAt(data, pos, v);
    case Bool(_) => NilBoolHeadAt(data, pos, v);
    case Int(i) => IntHeadAt(data, pos, i);
    case UInt(u) => UIntHeadAt(data, pos, u);
    case Float(bits) => DoubleHeadAt(data, pos, bits);
    case Double(bits) => DoubleHeadAt(data, pos, bits);
  }

  lemma ParseEncodedStr(data: ByteString, pos: nat, s: ByteString)
    requires HasAt(data, pos, EncodeStr(s))
    ensures Faithful(Str(s), Parse(data, pos), pos + |EncodeStr(s)|)
  {
    hide HeadAt, StrHead;
    HasAtSplit(data, pos, StrHead(|s|), s);
    StrHeadAt(data, pos, |s|);
  }

  lemma ParseEncodedBin(data: ByteString, pos: nat, d: ByteString)
    requires HasAt(data, pos, Encode(Bin(d)))
    ensures Faithful(Bin(d), Parse(data, pos), pos + |Encode(Bin(d))|)
  {
    hide HeadAt, BinHead;
    HasAtSplit(data, pos, BinHead(|d|), d);
    BinHeadAt(data, pos, |d|);
  }

  lemma ParseEncodedArr(data: ByteString, pos: nat, items: seq<Value>)
    requires HasAt(data, pos, ArrHead(|items|))
    requires var next := pos + |ArrHead(|items|)|;
      FaithfulItems(items, ParseItems(data, next, |items|), next + |EncodeItems(items)|)
    ensures Faithful(Arr(items), Parse(data, pos), pos + |Encode(Arr(items))|)
  {
    hide HeadAt, HasAt, ArrHead, Parse, ParseItems, Encode, EncodeItems, Norm, NormItems, Readable, ReadableItems;
    ArrHeadAt(data, pos, |items|);
    ParseStep(data, pos);
    EncodeContainer(Arr(items));
    ContainerParts(items, []);
  }

  lemma ParseEncodedMap(data: ByteString, pos: nat, entries: seq<Entry>)
    requires HasAt(data, pos, MapHead(|entries|))
    requires var next := pos + |MapHead(|entries|)|;
      FaithfulEntries(entries, ParseEntries(data, next, |entries|), next + |EncodeEntries(entries)|)
    ensures Faithful(Map(entries), Parse(data, pos), pos + |Encode(Map(entries))|)
  {
    hide HeadAt, HasAt, MapHead, Parse, ParseEntries, Encode, EncodeEntries, Norm, NormEntries, Readable, ReadableEntries;
    MapHeadAt(data, pos, |entries|);
    ParseStep(data, pos);
    EncodeContainer(Map(entries));
    ContainerParts([], entries);
  }

  lemma {:induction false} ParseEncodedItems(data: ByteString, pos: nat, items: seq<Value>)
    requires HasAt(data, pos, EncodeItems(items))
    ensures FaithfulItems(items, ParseItems(data, pos, |items|), pos + |EncodeItems(items)|)
    decreases items, 0
  {
    hide *;
    if items == [] {
      NothingEncoded(data, pos);
    } else {
      var first, rest := items[0], items[1..];
      assert items == [first] + rest;
      ItemsStep(first, rest);
      HasAtSplit(data, pos, Encode(first), EncodeItems(rest));
      HasAtBound(data, pos, Encode(first));
      ParseEncoded(data, pos, first);
      ParseEncodedItems(data, pos + |Encode(first)|, rest);
      ItemsCons(data, pos, first, rest);
    }
  }

  lemma HasAtBound(data: ByteString, pos: nat, s: ByteString)
    requires HasAt(data, pos, s)
    ensures pos + |s| <= |data|
  {
  }

  lemma NothingEncoded(data: ByteString, pos: nat)
    requires HasAt(data, pos, EncodeItems([])) || HasAt(data, pos, EncodeEntries([]))
    ensures pos <= |data|
    ensures FaithfulItems([], ParseItems(data, pos, 0), pos + |EncodeItems([])|)
    ensures FaithfulEntries([], ParseEntries(data, pos, 0), pos + |EncodeEntries([])|)
  {
  }

  /** One step of the functions over items. */
  lemma ItemsStep(first: Value, rest: seq<Value>)
    ensures var items := [first] + rest;
      && EncodeItems(items) == Encode(first) + EncodeItems(rest)
      && NormItems(items) == [Norm(first)] + NormItems(rest)
      && NormItems(items)[1..] == NormItems(rest)
      && (ReadableItems(items) <==> Readable(first) && ReadableItems(rest))
  {
    hide Encode, Norm, Readable;
    assert ([first] + rest)[1..] == rest;
  }

  lemma ParseItemsStep(data: ByteString, pos: nat, count: nat)
    requires pos <= |data| && 0 < count
    ensures var r, first := ParseItems(data, pos, count), Parse(data, pos);
      && (r.Ok? <==> first.Ok? && ParseItems(data, first.next, count - 1).Ok?)
      && (r.Ok? ==>
            var rest := ParseItems(data, first.next, count - 1);
            r.v == [first.v] + rest.v && r.v[1..] == rest.v && r.next == rest.next)
  {
    hide Parse;
  }

  lemma ItemsCons(data: ByteString, pos: nat, first: Value, rest: seq<Value>)
    requires pos + |Encode(first)| <= |data|
    requires Faithful(first, Parse(data, pos), pos + |Encode(first)|)
    requires var next := pos + |Encode(first)|;
      FaithfulItems(rest, ParseItems(data, next, |rest|), next + |EncodeItems(rest)|)
    ensures var items := [first] + rest;
      FaithfulItems(items, ParseItems(data, pos, |items|), pos + |EncodeItems(items)|)
  {
    hide Encode, Parse, Norm, Readable, EncodeItems, ParseItems, NormItems, ReadableItems;
    ItemsStep(first, rest);
    ParseItemsStep(data, pos, |rest| + 1);
  }

  lemma {:induction false} ParseEncodedEntries(data: ByteString, pos: nat, entries: seq<Entry>)
    requires HasAt(data, pos, EncodeEntries(entries))
    ensures FaithfulEntries(entries, ParseEntries(data, pos, |entries|), pos + |EncodeEntries(entries)|)
    decreases entries, 0
  {
    hide *;
    if entries == [] {
      NothingEncoded(data, pos);
    } else {
      var e, rest := entries[0], entries[1..];
      assert entries == [e] + rest;
      EntriesStep(e, rest);
      var valuePos := pos + |EncodeStr(e.key)|;
      HasAtSplit(data, pos, EncodeStr(e.key), Encode(e.value) + EncodeEntries(rest));
      HasAtSplit(data, valuePos, Encode(e.value), EncodeEntries(rest));
      HasAtBound(data, valuePos, Encode(e.value));
      ParseEncodedStr(data, pos, e.key);
      ParseEncoded(data, valuePos, e.value);
      ParseEncodedEntries(data, valuePos + |Encode(e.value)|, rest);
      EntriesCons(data, pos, e, rest);
    }
  }

  lemma NormStr(s: ByteString)
    ensures Norm(Str(s)) == Str(s) && Readable(Str(s)) == (|s| < TWO32)
  {
  }

  lemma EntriesCons(data: ByteString, pos: nat, e: Entry, rest: seq<Entry>)
    requires pos + |EncodeStr(e.key)| + |Encode(e.value)| <= |data|
    requires var valuePos := pos + |EncodeStr(e.key)|;
      var next := valuePos + |Encode(e.value)|;
      && Faithful(Str(e.key), Parse(data, pos), valuePos)
      && Faithful(e.value, Parse(data, valuePos), next)
      && FaithfulEntries(rest, ParseEntries(data, next, |rest|), next + |EncodeEntries(rest)|)
    ensures var entries := [e] + rest;
      FaithfulEntries(entries, ParseEntries(data, pos, |entries|), pos + |EncodeEntries(entries)|)
  {
    hide Encode, EncodeStr, Parse, Norm, Readable;
    hide EncodeEntries, ParseEntries, NormEntries, ReadableEntries;
    NormStr(e.key);
    EntriesStep(e, rest);
    ParseEntriesStep(data, pos, |rest| + 1);
  }

  /** One step of the functions over entries. */
  lemma EntriesStep(e: Entry, rest: seq<Entry>)
    ensures var entries := [e] + rest;
      && EncodeEntries(entries) == EncodeStr(e.key) + (Encode(e.value) + EncodeEntries(rest))
      && NormEntries(entries) == [Entry(e.key, Norm(e.value))] + NormEntries(rest)
      && NormEntries(entries)[1..] == NormEntries(rest)
      && (ReadableEntries(entries) <==>
          |e.key| < TWO32 && Readable(e.value) && ReadableEntries(rest))
  {
    hide Encode, EncodeStr, Norm, Readable;
    assert ([e] + rest)[1..] == rest;
  }

  lemma ParseEntriesStep(data: ByteString, pos: nat, count: nat)
    requires pos <= |data| && 0 < count
    ensures var r, key := ParseEntries(data, pos, count), Parse(data, pos);
      r.Ok? <==>
        && key.Ok? && key.v.Str?
        && Parse(data, key.next).Ok?
        && ParseEntries(data, Parse(data, key.next).next, count - 1).Ok?
    ensures var r, key := ParseEntries(data, pos, count), Parse(data, pos);
      r.Ok? ==>
        var val := Parse(data, key.next);
        var rest := ParseEntries(data, val.next, count - 1);
        r.v == [Entry(key.v.s, val.v)] + rest.v && r.v[1..] == rest.v && r.next == rest.next
  {
    hide Parse;
  }


  /** The round trip: reading what was written, followed by anything, gives the value back up
      to normalisation and stops at the suffix, if and only if the value is readable. */
  lemma RoundTrip(v: Value, suffix: ByteString)
    ensures Readable(v) <==> Parse(Encode(v) + suffix, 0) == Ok(Norm(v), |Encode(v)|)
  {
    hide Encode, Parse, Norm, Readable;
    var data := Encode(v) + suffix;
    assert data[0..|Encode(v)|] == Encode(v);
    ParseEncoded(data, 0, v);
  }

  /** No readable encoding is a proper prefix of another. */
  lemma PrefixFree(v: Value, w: Value)
    requires Readable(v) && Readable(w) && Encode(v) <= Encode(w)
    ensures Encode(v) == Encode(w) && Norm(v) == Norm(w)
  {
    var suffix := Encode(w)[|Encode(v)|..];
    assert Encode(v) + suffix == Encode(w) && Encode(w) + [] == Encode(w);
    RoundTrip(v, suffix);
    RoundTrip(w, []);
  }

  // ----- Normalisation loses nothing the accessors can see -----

  lemma {:induction false} NormIsFaithful(v: Value)
    ensures Encode(Norm(v)) == Encode(v) && Norm(Norm(v)) == Norm(v)
    ensures Readable(Norm(v)) == Readable(v)
    decreases v, 1
  {
    match v
    case Arr(items) => NormItemsIsFaithful(items);
    case Map(entries) => NormEntriesIsFaithful(entries);
    case _ =>
  }

  lemma {:induction false} NormItemsIsFaithful(items: seq<Value>)
    ensures EncodeItems(NormItems(items)) == EncodeItems(items)
    ensures NormItems(NormItems(items)) == NormItems(items)
    ensures ReadableItems(NormItems(items)) == ReadableItems(items)
    decreases items, 0
  {
    hide Encode, EncodeStr, Norm, Readable;
    if items != [] {
      NormIsFaithful(items[0]);
      NormItemsIsFaithful(items[1..]);
      assert [items[0]] + items[1..] == items;
      ItemsStep(items[0], items[1..]);
      ItemsStep(Norm(items[0]), NormItems(items[1..]));
    }
  }

  lemma {:induction false} NormEntriesIsFaithful(entries: seq<Entry>)
    ensures EncodeEntries(NormEntries(entries)) == EncodeEntries(entries)
    ensures NormEntries(NormEntries(entries)) == NormEntries(entries)
    ensures ReadableEntries(NormEntries(entries)) == ReadableEntries(entries)
    decreases entries, 0
  {
    hide Encode, EncodeStr, Norm, Readable;
    if entries != [] {
      var e, rest := entries[0], entries[1..];
      NormIsFaithful(e.value);
      NormEntriesIsFaithful(rest);
      assert [e] + rest == entries;
      EntriesStep(e, rest);
      EntriesStep(Entry(e.key, Norm(e.value)), NormEntries(rest));
    }
  }

  lemma {:induction false} LookupNorm(entries: seq<Entry>, key: ByteString)
    ensures Lookup(NormEntries(entries), key).Ok? == Lookup(entries, key).Ok?
    ensures Lookup(entries, key).Ok? ==>
      Lookup(NormEntries(entries), key).v == Norm(Lookup(entries, key).v)
  {
    if entries != [] && entries[0].key != key {
      LookupNorm(entries[1..], key);
      assert NormEntries(entries)[1..] == NormEntries(entries[1..]);
    }
  }

  /** getInt reads the same number before and after a round trip. */
  lemma GetIntNorm(v: Value, key: ByteString, def: Int64)
    ensures GetInt(Norm(v), key, def) == GetInt(v, key, def)
  {
    if v.Map? {
      LookupNorm(v.entries, key);
    }
  }

  // ----- Arbitrary input -----

  /** What the reader accepts can be written back in no more bytes. */
  lemma {:induction false} ReencodeShrinks(data: ByteString, pos: nat)
    requires Parse(data, pos).Ok?
    ensures var r := Parse(data, pos); Readable(r.v) && |Encode(r.v)| <= r.next - pos
    decreases |data| - pos, 0, 0
  {
    HeadShrinks(data, pos);
    hide HeadAt, EncodeInt, EncodeUInt, StrHead, ArrHead, MapHead;
    match HeadAt(data, pos)
    case ArrOf(count, next) => ReencodeItems(data, next, count);
    case MapOf(count, next) => ReencodeEntries(data, next, count);
    case _ =>
  }

  lemma HeadShrinks(data: ByteString, pos: nat)
    ensures match HeadAt(data, pos)
      case Bad => true
      case Scalar(v, next) => Readable(v) && |Encode(v)| <= next - pos
      case StrOf(len, next) => len < TWO32 && |StrHead(len)| <= next - pos
      case ArrOf(count, next) => count < TWO32 && |ArrHead(count)| <= next - pos
      case MapOf(count, next) => count < TWO32 && |MapHead(count)| <= next - pos
  {
    Pow256Values();
  }

  lemma NoEntries(data: ByteString, pos: nat)
    requires pos <= |data|
    ensures ParseItems(data, pos, 0) == Ok([], pos) && ReadableItems([]) && EncodeItems([]) == []
    ensures ParseEntries(data, pos, 0) == Ok([], pos) && ReadableEntries([]) && EncodeEntries([]) == []
  {
  }

  lemma {:induction false} ReencodeItems(data: ByteString, pos: nat, count: nat)
    requires pos <= |data| && ParseItems(data, pos, count).Ok?
    ensures var r := ParseItems(data, pos, count);
      ReadableItems(r.v) && |EncodeItems(r.v)| <= r.next - pos
    decreases |data| - pos, 1, count
  {
    hide *;
    if count == 0 {
      NoEntries(data, pos);
    } else {
      var first := Parse(data, pos);
      ParseItemsStep(data, pos, count);
      ReencodeShrinks(data, pos);
      ReencodeItems(data, first.next, count - 1);
      ItemsStep(first.v, ParseItems(data, first.next, count - 1).v);
    }
  }

  lemma {:induction false} ReencodeEntries(data: ByteString, pos: nat, count: nat)
    requires pos <= |data| && ParseEntries(data, pos, count).Ok?
    ensures var r := ParseEntries(data, pos, count);
      ReadableEntries(r.v) && |EncodeEntries(r.v)| <= r.next - pos
    decreases |data| - pos, 1, count
  {
    hide *;
    if count == 0 {
      NoEntries(data, pos);
    } else {
      ParseEntriesStep(data, pos, count);
      var key := Parse(data, pos);
      var val := Parse(data, key.next);
      var rest := ParseEntries(data, val.next, count - 1);
      ReencodeShrinks(data, pos);
      EncodeContainer(key.v);
      NormStr(key.v.s);
      ReencodeShrinks(data, key.next);
      ReencodeEntries(data, val.next, count - 1);
      EntriesStep(Entry(key.v.s, val.v), rest.v);
    }
  }

  /** Writing back an accepted value: no longer than what was consumed, and it reads as the
      same value up to normalisation with every getInt unchanged. */
  lemma ReencodeAccepted(data: ByteString, pos: nat, key: ByteString, def: Int64)
    requires Parse(data, pos).Ok?
    ensures var r := Parse(data, pos);
      && pos < r.next <= |data|
      && |Encode(r.v)| <= r.next - pos
      && Parse(Encode(r.v), 0) == Ok(Norm(r.v), |Encode(r.v)|)
      && GetInt(Norm(r.v), key, def) == GetInt(r.v, key, def)
  {
    var v := Parse(data, pos).v;
    ReencodeShrinks(data, pos);
    RoundTrip(v, []);
    assert Encode(v) + [] == Encode(v);
    GetIntNorm(v, key, def);
  }
}
