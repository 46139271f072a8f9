/** The Writer and Reader of mpack.h, proved against Encode and Parse. */
module MsgPackCodec {
  import opened Common
  import opened Bytes
  import opened MsgPack
  import opened MsgPackRoundTrip

  class Writer {
    var buffer: ByteString

    constructor ()
      ensures buffer == []
    {
      buffer := [];
    }

    method Push(b: Byte)
      modifies this
      ensures buffer == old(buffer) + [b]
    {
      buffer := buffer + [b];
    }

    method Write16(v: nat)
      requires v < 0x1_0000
      modifies this
      ensures buffer == old(buffer) + BigEndian(v, 2)
    {
      Push(v / 0x100 % 0x100);
      Push(v % 0x100);
      assert BigEndian(v, 2) == BigEndian(v / 256, 1) + [v % 256];
      assert BigEndian(v / 256, 1) == [] + [v / 256 % 256];
    }

    method Write32(v: nat)
      requires v < TWO32
      modifies this
      ensures buffer == old(buffer) + BigEndian(v, 4)
    {
      BigEndian4(v);
      Push(v / 0x100_0000 % 0x100);
      Push(v / 0x1_0000 % 0x100);
      Push(v / 0x100 % 0x100);
      Push(v % 0x100);
    }

    /** The loop over i = 7, ..., 0 pushes the byte v >> (8 * i). */
    method Write64(v: nat)
      requires v < TWO64
      modifies this
      ensures buffer == old(buffer) + BigEndian(v, 8)
    {
      var i: int := 7;
      while i >= 0
        invariant -1 <= i <= 7
        invariant buffer == old(buffer) + BigEndian(ShiftBytes(v, i + 1), 7 - i)
      {
        Push(ShiftBytes(v, i) % 0x100);
        i := i - 1;
      }
    }

    method WriteNil()
      modifies this
      ensures buffer == old(buffer) + Encode(Nil)
    {
      Push(0xc0);
    }

    method WriteBool(b: bool)
      modifies this
      ensures buffer == old(buffer) + Encode(Bool(b))
    {
      Push(if b then 0xc3 else 0xc2);
    }

    method WriteInt(v: Int64)
      modifies this
      ensures buffer == old(buffer) + EncodeInt(v)
    {
      hide BigEndian;
      if v >= -32 && v <= 127 {
        Push(v % 0x100);
      } else if v >= -128 && v <= 127 {
        Push(0xd0);
        BigEndian1(v % 0x100);
        Push(v % 0x100);
      } else if v >= -32768 && v <= 32767 {
        Push(0xd1);
        Write16(v % 0x1_0000);
      } else if v >= -2147483648 && v <= 2147483647 {
        Push(0xd2);
        Write32(v % TWO32);
      } else {
        Push(0xd3);
        Write64(v % TWO64);
      }
    }

    method WriteUInt(v: UInt64)
      modifies this
      ensures buffer == old(buffer) + EncodeUInt(v)
    {
      hide BigEndian;
      if v <= 127 {
        Push(v);
      } else if v <= 0xff {
        Push(0xcc);
        BigEndian1(v);
        Push(v);
      } else if v <= 0xffff {
        Push(0xcd);
        Write16(v);
      } else if v <= 0xffffffff {
        Push(0xce);
        Write32(v);
      } else {
        Push(0xcf);
        Write64(v);
      }
    }

    method WriteDouble(bits: UInt64)
      modifies this
      ensures buffer == old(buffer) + Encode(Double(bits))
      ensures buffer == old(buffer) + Encode(Float(bits))
    {
      hide BigEndian;
      Push(0xcb);
      Write64(bits);
    }

    method WriteString(s: ByteString)
      modifies this
      ensures buffer == old(buffer) + EncodeStr(s)
    {
      hide BigEndian;
      var len := |s|;
      if len <= 31 {
        Push(0xa0 + len);
      } else if len <= 0xff {
        Push(0xd9);
        BigEndian1(len);
        Push(len);
      } else if len <= 0xffff {
        Push(0xda);
        Write16(len);
      } else {
        Push(0xdb);
        Write32(len % TWO32);
      }
      buffer := buffer + s;
    }

    method WriteBinary(bin: ByteString)
      modifies this
      ensures buffer == old(buffer) + Encode(Bin(bin))
    {
      hide BigEndian;
      var len := |bin|;
      if len <= 0xff {
        Push(0xc4);
        BigEndian1(len);
        Push(len);
      } else if len <= 0xffff {
        Push(0xc5);
        Write16(len);
      } else {
        Push(0xc6);
        Write32(len % TWO32);
      }
      buffer := buffer + bin;
    }

    method WriteArrayHeader(size: nat)
      modifies this
      ensures buffer == old(buffer) + ArrHead(size)
    {
      hide BigEndian;
      if size <= 15 {
        Push(0x90 + size);
      } else if size <= 0xffff {
        Push(0xdc);
        Write16(size);
      } else {
        Push(0xdd);
        Write32(size % TWO32);
      }
    }

    method WriteMapHeader(size: nat)
      modifies this
      ensures buffer == old(buffer) + MapHead(size)
    {
      hide BigEndian;
      if size <= 15 {
        Push(0x80 + size);
      } else if size <= 0xffff {
        Push(0xde);
        Write16(size);
      } else {
        Push(0xdf);
        Write32(size % TWO32);
      }
    }

    method WriteValue(v: Value)
      modifies this
      ensures buffer == old(buffer) + Encode(v)
      decreases v, 1
    {
      match v
      case Nil => WriteNil();
      case Bool(b) => WriteBool(b);
      case Int(i) => WriteInt(i);
      case UInt(u) => WriteUInt(u);
      case Float(bits) => WriteDouble(bits);
      case Double(bits) => WriteDouble(bits);
      case Str(s) => WriteString(s);
      case Bin(data) => WriteBinary(data);
      case Arr(items) => WriteItems(items);
      case Map(entries) => WriteEntries(entries);
    }

    method WriteItems(items: seq<Value>)
      modifies this
      ensures buffer == old(buffer) + (ArrHead(|items|) + EncodeItems(items))
      decreases items, 0
    {
      hide Encode, EncodeItems;
      ghost var start := buffer;
      WriteArrayHeader(|items|);
      assert items[0..] == items;
      for i := 0 to |items|
        invariant buffer + EncodeItems(items[i..]) == start + (ArrHead(|items|) + EncodeItems(items))
      {
        assert items[i..] == [items[i]] + items[i + 1..];
        ItemsStep(items[i], items[i + 1..]);
        WriteValue(items[i]);
      }
      NoItems();
    }

    method WriteEntries(entries: seq<Entry>)
      modifies this
      ensures buffer == old(buffer) + (MapHead(|entries|) + EncodeEntries(entries))
      decreases entries, 0
    {
      hide Encode, EncodeStr, EncodeEntries;
      ghost var start := buffer;
      WriteMapHeader(|entries|);
      assert entries[0..] == entries;
      for i := 0 to |entries|
        invariant buffer + EncodeEntries(entries[i..])
               == start + (MapHead(|entries|) + EncodeEntries(entries))
      {
        assert entries[i..] == [entries[i]] + entries[i + 1..];
        EntriesStep(entries[i], entries[i + 1..]);
        WriteString(entries[i].key);
        WriteValue(entries[i].value);
      }
      NoItems();
    }
  }

  lemma NoItems()
    ensures EncodeItems([]) == [] && EncodeEntries([]) == []
  {
  }

  lemma BigEndian1(v: nat)
    requires v < 0x100
    ensures BigEndian(v, 1) == [v]
  {
    assert BigEndian(v / 256, 0) == [];
  }

  lemma BigEndian4(v: nat)
    ensures BigEndian(v, 4) ==
      [v / 0x100_0000 % 0x100, v / 0x1_0000 % 0x100, v / 0x100 % 0x100, v % 0x100]
  {
    var v1, v2, v3 := v / 256, v / 256 / 256, v / 256 / 256 / 256;
    assert BigEndian(v3, 1) == BigEndian(v3 / 256, 0) + [v3 % 256] == [v3 % 256];
    assert BigEndian(v2, 2) == BigEndian(v3, 1) + [v2 % 256];
    assert BigEndian(v1, 3) == BigEndian(v2, 2) + [v1 % 256];
    assert v2 == v / 0x1_0000 && v3 == v / 0x100_0000;
  }

  /** v >> (8 * k). */
  function ShiftBytes(v: nat, k: nat): nat {
    if k == 0 then v else ShiftBytes(v, k - 1) / 256
  }

  class Reader {
    const data: ByteString
    var pos: nat

    constructor (buf: ByteString)
      ensures data == buf && pos == 0
    {
      data := buf;
      pos := 0;
    }

    method Read8() returns (ok: bool, v: Byte)
      requires pos <= |data|
      modifies this`pos
      ensures ok == (old(pos) + 1 <= |data|)
      ensures ok ==> pos == old(pos) + 1 && v == FromBigEndian(data[old(pos)..pos])
      ensures !ok ==> pos == old(pos)
    {
      if pos >= |data| { return false, 0; }
      FromBigEndian1(data[pos..pos + 1]);
      pos := pos + 1;
      return true, data[pos - 1];
    }

    method Read16() returns (ok: bool, v: nat)
      requires pos <= |data|
      modifies this`pos
      ensures ok == (old(pos) + 2 <= |data|)
      ensures ok ==> pos == old(pos) + 2 && v == FromBigEndian(data[old(pos)..pos])
      ensures !ok ==> pos == old(pos)
    {
      hide FromBigEndian;
      if pos + 2 > |data| { return false, 0; }
      FromBigEndian2(data[pos..pos + 2]);
      v := data[pos] as int * 0x100 + data[pos + 1];
      pos := pos + 2;
      return true, v;
    }

    method Read32() returns (ok: bool, v: nat)
      requires pos <= |data|
      modifies this`pos
      ensures ok == (old(pos) + 4 <= |data|)
      ensures ok ==> pos == old(pos) + 4 && v == FromBigEndian(data[old(pos)..pos])
      ensures !ok ==> pos == old(pos)
    {
      hide FromBigEndian;
      if pos + 4 > |data| { return false, 0; }
      FromBigEndian4(data[pos..pos + 4]);
      v := data[pos] as int * 0x100_0000 + data[pos + 1] as int * 0x1_0000
           + data[pos + 2] as int * 0x100 + data[pos + 3];
      pos := pos + 4;
      return true, v;
    }

    method Read64() returns (ok: bool, v: nat)
      requires pos <= |data|
      modifies this`pos
      ensures ok == (old(pos) + 8 <= |data|)
      ensures ok ==> pos == old(pos) + 8 && v == FromBigEndian(data[old(pos)..pos])
      ensures !ok ==> pos == old(pos)
    {
      if pos + 8 > |data| { return false, 0; }
      v := 0;
      for i := 0 to 8
        invariant v == FromBigEndian(data[pos..pos + i])
      {
        assert data[pos..pos + i + 1][..i] == data[pos..pos + i];
        v := v * 0x100 + data[pos + i];
      }
      pos := pos + 8;
      return true, v;
    }

    method ReadStringContent(len: nat) returns (ok: bool, out: Value)
      requires pos <= |data|
      modifies this`pos
      ensures ok == (old(pos) + len <= |data|)
      ensures ok ==> pos == old(pos) + len && out == Str(data[old(pos)..pos])
      ensures !ok ==> pos == old(pos)
    {
      if pos + len > |data| { return false, Nil; }
      out := Str(data[pos..pos + len]);
      pos := pos + len;
      return true, out;
    }

    /** Reads the value at the cursor: the outcome and the new cursor are those of Parse; the
        cursor never leaves the data, and an accepted value consumed at least one byte. */
    method ReadValue() returns (ok: bool, out: Value)
      requires pos <= |data|
      modifies this`pos
      ensures Outcome(Parse(data, old(pos)), ok, out, pos)
      ensures old(pos) <= pos <= |data| && (ok ==> old(pos) < pos)
      decreases |data| - pos, 2
    {
      hide Parse, HeadAt;
      if pos >= |data| {
        ParseStep(data, pos);
        return false, Nil;
      }
      FixHead(data, pos);
      ParseStep(data, pos);
      var tag := data[pos];
      pos := pos + 1;
      if tag <= 0x7f {
        return true, Int(tag);
      }
      if tag / 16 == 0x8 {
        ok, out := ReadMap(tag % 16);
        return;
      }
      if tag / 16 == 0x9 {
        ok, out := ReadArray(tag % 16);
        return;
      }
      if tag / 32 == 0x5 {
        ok, out := ReadStringContent(tag % 32);
        return;
      }
      if tag / 32 == 0x7 {
        return true, Int(tag as int - 256);
      }
      ok, out := ReadField(tag);
    }

    /** The switch over the tags outside the fix ranges. */
    method ReadField(tag: Byte) returns (ok: bool, out: Value)
      requires 0 < pos <= |data| && tag == data[pos - 1] && 0xc0 <= tag < 0xe0
      modifies this`pos
      ensures Outcome(Parse(data, old(pos) - 1), ok, out, pos)
      ensures old(pos) <= pos <= |data|
      decreases |data| - pos, 1
    {
      hide Parse, HeadAt, FromBigEndian;
      FieldStep(data, pos - 1);
      ParseStep(data, pos - 1);
      var v: nat;
      if tag == 0xc0 {
        return true, Nil;
      } else if tag == 0xc2 {
        return true, Bool(false);
      } else if tag == 0xc3 {
        return true, Bool(true);
      } else if tag == 0xcc {
        ok, v := Read8();
        return ok, if ok then UInt(v) else Nil;
      } else if tag == 0xcd {
        ok, v := Read16();
        return ok, if ok then UInt(v) else Nil;
      } else if tag == 0xce {
        ok, v := Read32();
        return ok, if ok then UInt(v) else Nil;
      } else if tag == 0xcf || tag == 0xcb {
        ok, v := Read64();
        return ok, if !ok then Nil else if tag == 0xcb then Double(v) else UInt(v);
      } else if tag == 0xd0 {
        ok, v := Read8();
        return ok, if ok then Int(Signed(v, 0x100)) else Nil;
      } else if tag == 0xd1 {
        ok, v := Read16();
        return ok, if ok then Int(Signed(v, 0x1_0000)) else Nil;
      } else if tag == 0xd2 {
        ok, v := Read32();
        return ok, if ok then Int(Signed(v, TWO32)) else Nil;
      } else if tag == 0xd3 {
        ok, v := Read64();
        return ok, if ok then Int(Signed(v, TWO64)) else Nil;
      } else if 0xd9 <= tag <= 0xdf {
        ok, out := ReadCounted(tag);
      } else {
        return false, Nil;
      }
    }

    /** The cases of the switch that read a length or a count first. */
    method ReadCounted(tag: Byte) returns (ok: bool, out: Value)
      requires 0 < pos <= |data| && tag == data[pos - 1] && 0xd9 <= tag <= 0xdf
      modifies this`pos
      ensures Outcome(Parse(data, old(pos) - 1), ok, out, pos)
      ensures old(pos) <= pos <= |data|
      decreases |data| - pos, 0
    {
      hide Parse, FromBigEndian;
      CountedStep(data, pos - 1);
      var len: nat;
      if tag == 0xd9 {
        ok, len := Read8();
      } else if tag == 0xda || tag == 0xdc || tag == 0xde {
        ok, len := Read16();
      } else {
        ok, len := Read32();
      }
      if !ok { return false, Nil; }
      if tag <= 0xdb {
        ok, out := ReadStringContent(len);
      } else if tag <= 0xdd {
        ok, out := ReadArray(len);
      } else {
        ok, out := ReadMap(len);
      }
    }

    method ReadArray(count: nat) returns (ok: bool, out: Value)
      requires pos <= |data|
      modifies this`pos
      ensures ok == ParseItems(data, old(pos), count).Ok?
      ensures ok ==> out == Arr(ParseItems(data, old(pos), count).v)
      ensures ok ==> pos == ParseItems(data, old(pos), count).next
      ensures old(pos) <= pos <= |data|
      decreases |data| - pos, 3
    {
      hide Parse, ParseItems;
      var items: seq<Value> := [];
      ghost var start := pos;
      PrependSteps(items, []);
      for i := 0 to count
        invariant start <= pos <= |data|
        invariant PrependItems(items, ParseItems(data, pos, count - i)) == ParseItems(data, start, count)
      {
        ParseItemsStep(data, pos, count - i);
        PrependSteps(items, []);
        var item: Value;
        ok, item := ReadValue();
        if !ok { return false, Nil; }
        items := items + [item];
      }
      NoEntries(data, pos);
      return true, Arr(items);
    }

    method ReadMap(count: nat) returns (ok: bool, out: Value)
      requires pos <= |data|
      modifies this`pos
      ensures ok == ParseEntries(data, old(pos), count).Ok?
      ensures ok ==> out == Map(ParseEntries(data, old(pos), count).v)
      ensures ok ==> pos == ParseEntries(data, old(pos), count).next
      ensures old(pos) <= pos <= |data|
      decreases |data| - pos, 3
    {
      hide Parse, ParseEntries;
      var entries: seq<Entry> := [];
      ghost var start := pos;
      PrependSteps([], entries);
      for i := 0 to count
        invariant start <= pos <= |data|
        invariant PrependEntries(entries, ParseEntries(data, pos, count - i))
               == ParseEntries(data, start, count)
      {
        ParseEntriesStep(data, pos, count - i);
        PrependSteps([], entries);
        var key, val: Value;
        ok, key := ReadValue();
        if !ok || !key.Str? { return false, Nil; }
        ok, val := ReadValue();
        if !ok { return false, Nil; }
        entries := entries + [Entry(key.s, val)];
      }
      NoEntries(data, pos);
      return true, Map(entries);
    }
  }

  /** The reader's result and cursor are those of the decoding function. */
  ghost predicate Outcome(r: Parsed<Value>, ok: bool, out: Value, pos: nat) {
    if ok then r == Ok(out, pos) else r == Fail
  }

  ghost function PrependItems(items: seq<Value>, r: Parsed<seq<Value>>): Parsed<seq<Value>> {
    if r.Fail? then Fail else Ok(items + r.v, r.next)
  }

  ghost function PrependEntries(entries: seq<Entry>, r: Parsed<seq<Entry>>): Parsed<seq<Entry>> {
    if r.Fail? then Fail else Ok(entries + r.v, r.next)
  }

  lemma FixHead(data: ByteString, pos: nat)
    requires pos < |data|
    ensures var tag := data[pos];
      && (tag <= 0x7f ==> HeadAt(data, pos) == Scalar(Int(tag), pos + 1))
      && (tag / 16 == 0x8 ==> HeadAt(data, pos) == MapOf(tag % 16, pos + 1))
      && (tag / 16 == 0x9 ==> HeadAt(data, pos) == ArrOf(tag % 16, pos + 1))
      && (tag / 32 == 0x5 ==> HeadAt(data, pos) == StrOf(tag % 32, pos + 1))
      && (tag / 32 == 0x7 ==> HeadAt(data, pos) == Scalar(Int(tag as int - 256), pos + 1))
  {
    hide FieldHead, FieldWidth, FromBigEndian;
  }

  lemma FieldStep(data: ByteString, pos: nat)
    requires pos < |data| && 0xc0 <= data[pos] < 0xe0
    ensures var w := FieldWidth(data[pos]);
      HeadAt(data, pos) ==
        if w.Unknown? || pos + 1 + w.n > |data| then Bad
        else FieldHead(data[pos], FromBigEndian(data[pos + 1..pos + 1 + w.n]), pos + 1 + w.n)
  {
    hide FieldHead, FieldWidth, FromBigEndian;
  }

  /** The cases that read a length or a count first, without the head in between. */
  lemma CountedStep(data: ByteString, pos: nat)
    requires pos < |data| && 0xd9 <= data[pos] <= 0xdf
    ensures var tag := data[pos];
      var n := if tag == 0xd9 then 1 else if tag in {0xda, 0xdc, 0xde} then 2 else 4;
      var next := pos + 1 + n;
      if next > |data| then Parse(data, pos) == Fail
      else
        var len := FromBigEndian(data[pos + 1..next]);
        if tag <= 0xdb then
          Parse(data, pos) == if next + len > |data| then Fail else Ok(Str(data[next..next + len]), next + len)
        else if tag <= 0xdd then
          var r := ParseItems(data, next, len);
          Parse(data, pos) == if r.Fail? then Fail else Ok(Arr(r.v), r.next)
        else
          var r := ParseEntries(data, next, len);
          Parse(data, pos) == if r.Fail? then Fail else Ok(Map(r.v), r.next)
  {
    hide Parse, HeadAt, FromBigEndian, FieldHead, FieldWidth;
    var tag := data[pos];
    CountedHead(tag);
    FieldStep(data, pos);
    ParseStep(data, pos);
  }

  lemma CountedHead(tag: Byte)
    requires 0xd9 <= tag <= 0xdf
    ensures FieldWidth(tag) == Field(if tag == 0xd9 then 1 else if tag in {0xda, 0xdc, 0xde} then 2 else 4)
    ensures forall u: nat, next: nat :: u < Pow256(FieldWidth(tag).n) ==>
      FieldHead(tag, u, next) ==
        if tag <= 0xdb then StrOf(u, next) else if tag <= 0xdd then ArrOf(u, next) else MapOf(u, next)
  {
  }

  lemma PrependSteps(items: seq<Value>, entries: seq<Entry>)
    ensures forall r :: PrependItems([], r) == r
    ensures forall r :: PrependEntries([], r) == r
    ensures forall item, v, next ::
      PrependItems(items + [item], Ok(v, next)) == PrependItems(items, Ok([item] + v, next))
    ensures forall entry, v, next ::
      PrependEntries(entries + [entry], Ok(v, next)) == PrependEntries(entries, Ok([entry] + v, next))
  {
    forall r: Parsed<seq<Value>> | r.Ok? ensures [] + r.v == r.v { }
    forall r: Parsed<seq<Entry>> | r.Ok? ensures [] + r.v == r.v { }
    forall item, v ensures items + [item] + v == items + ([item] + v) { }
    forall entry, v ensures entries + [entry] + v == entries + ([entry] + v) { }
  }

  lemma FromBigEndian1(s: ByteString)
    requires |s| == 1
    ensures FromBigEndian(s) == s[0]
  {
    assert FromBigEndian(s[..0]) == 0;
  }

  lemma FromBigEndian2(s: ByteString)
    requires |s| == 2
    ensures FromBigEndian(s) == s[0] as int * 0x100 + s[1]
  {
    FromBigEndian1(s[..1]);
  }

  lemma FromBigEndian4(s: ByteString)
    requires |s| == 4
    ensures FromBigEndian(s) ==
      s[0] as int * 0x100_0000 + s[1] as int * 0x1_0000 + s[2] as int * 0x100 + s[3]
  {
    FromBigEndian2(s[..3][..2]);
    assert s[..3][..2][0] == s[0] && s[..3][..2][1] == s[1];
  }
}
