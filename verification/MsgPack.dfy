/** The MessagePack values of the agent protocol, and the encoding and decoding that
    Writer and Reader are proved against. */
module MsgPack {
  import opened Common
  import opened Bytes

  type Int64 = x: int | -0x8000_0000_0000_0000 <= x < 0x8000_0000_0000_0000
  type UInt64 = x: int | 0 <= x < TWO64

  /** A value; doubles are kept as their 64-bit patterns. */
  datatype Value =
    | Nil
    | Bool(b: bool)
    | Int(i: Int64)
    | UInt(u: UInt64)
    | Float(bits: UInt64)
    | Double(bits: UInt64)
    | Str(s: ByteString)
    | Bin(data: ByteString)
    | Arr(items: seq<Value>)
    | Map(entries: seq<Entry>)

  datatype Entry = Entry(key: ByteString, value: Value)

  // ----- Encoding -----

  function EncodeInt(v: Int64): ByteString {
    if -32 <= v <= 127 then [v % 256]
    else if -128 <= v <= 127 then [0xd0] + BigEndian(v % 0x100, 1)
    else if -0x8000 <= v <= 0x7fff then [0xd1] + BigEndian(v % 0x1_0000, 2)
    else if -0x8000_0000 <= v <= 0x7fff_ffff then [0xd2] + BigEndian(v % TWO32, 4)
    else [0xd3] + BigEndian(v % TWO64, 8)
  }

  function EncodeUInt(v: UInt64): ByteString {
    if v <= 127 then [v]
    else if v <= 0xff then [0xcc] + BigEndian(v, 1)
    else if v <= 0xffff then [0xcd] + BigEndian(v, 2)
    else if v <= 0xffff_ffff then [0xce] + BigEndian(v, 4)
    else [0xcf] + BigEndian(v, 8)
  }

  /** The length field is cut to 32 bits, as static_cast<uint32_t> does. */
  function StrHead(len: nat): ByteString {
    if len <= 31 then [0xa0 + len]
    else if len <= 0xff then [0xd9] + BigEndian(len, 1)
    else if len <= 0xffff then [0xda] + BigEndian(len, 2)
    else [0xdb] + BigEndian(len % TWO32, 4)
  }

  function BinHead(len: nat): ByteString {
    if len <= 0xff then [0xc4] + BigEndian(len, 1)
    else if len <= 0xffff then [0xc5] + BigEndian(len, 2)
    else [0xc6] + BigEndian(len % TWO32, 4)
  }

  function ArrHead(count: nat): ByteString {
    if count <= 15 then [0x90 + count]
    else if count <= 0xffff then [0xdc] + BigEndian(count, 2)
    else [0xdd] + BigEndian(count % TWO32, 4)
  }

  function MapHead(count: nat): ByteString {
    if count <= 15 then [0x80 + count]
    else if count <= 0xffff then [0xde] + BigEndian(count, 2)
    else [0xdf] + BigEndian(count % TWO32, 4)
  }

  function EncodeStr(s: ByteString): ByteString {
    StrHead(|s|) + s
  }

  function Encode(v: Value): ByteString
    decreases v, 1
  {
    match v
    case Nil => [0xc0]
    case Bool(b) => [if b then 0xc3 else 0xc2]
    case Int(i) => EncodeInt(i)
    case UInt(u) => EncodeUInt(u)
    case Float(bits) => [0xcb] + BigEndian(bits, 8)
    case Double(bits) => [0xcb] + BigEndian(bits, 8)
    case Str(s) => EncodeStr(s)
    case Bin(data) => BinHead(|data|) + data
    case Arr(items) => ArrHead(|items|) + EncodeItems(items)
    case Map(entries) => MapHead(|entries|) + EncodeEntries(entries)
  }

  function EncodeItems(items: seq<Value>): ByteString
    decreases items, 0
  {
    if items == [] then [] else Encode(items[0]) + EncodeItems(items[1..])
  }

  function EncodeEntries(entries: seq<Entry>): ByteString
    decreases entries, 0
  {
    if entries == [] then []
    else EncodeStr(entries[0].key) + (Encode(entries[0].value) + EncodeEntries(entries[1..]))
  }

  // ----- Decoding -----

  /** What the tag and its length or number field announce; next is the position after them. */
  datatype Head =
    | Bad
    | Scalar(v: Value, next: nat)
    | StrOf(len: nat, next: nat)
    | ArrOf(count: nat, next: nat)
    | MapOf(count: nat, next: nat)

  /** The number of bytes that follow a tag outside the fix ranges; None for an unknown tag. */
  datatype Width = Unknown | Field(n: nat)

  function FieldWidth(tag: Byte): Width {
    if tag in {0xc0, 0xc2, 0xc3} then Field(0)
    else if tag in {0xcc, 0xd0, 0xd9} then Field(1)
    else if tag in {0xcd, 0xd1, 0xda, 0xdc, 0xde} then Field(2)
    else if tag in {0xce, 0xd2, 0xdb, 0xdd, 0xdf} then Field(4)
    else if tag in {0xcb, 0xcf, 0xd3} then Field(8)
    else Unknown
  }

  /** Reads the unsigned number u, less than `modulus`, as two's complement. */
  function Signed(u: nat, modulus: nat): int {
    if 2 * u < modulus then u else u - modulus
  }

  function FieldHead(tag: Byte, u: nat, next: nat): Head
    requires FieldWidth(tag).Field? && u < Pow256(FieldWidth(tag).n)
  {
    Pow256Values();
    if tag == 0xc0 then Scalar(Nil, next)
    else if tag <= 0xc3 then Scalar(Bool(tag == 0xc3), next)
    else if tag == 0xcb then Scalar(Double(u), next)
    else if tag <= 0xcf then Scalar(UInt(u), next)
    else if tag == 0xd0 then Scalar(Int(Signed(u, 0x100)), next)
    else if tag == 0xd1 then Scalar(Int(Signed(u, 0x1_0000)), next)
    else if tag == 0xd2 then Scalar(Int(Signed(u, TWO32)), next)
    else if tag == 0xd3 then Scalar(Int(Signed(u, TWO64)), next)
    else if tag <= 0xdb then StrOf(u, next)
    else if tag <= 0xdd then ArrOf(u, next)
    else MapOf(u, next)
  }

  /** The fix tags are recognised by their high bits: tag & 0xf0 and tag & 0xe0. */
  function HeadAt(data: ByteString, pos: nat): (h: Head)
    ensures h.Bad? || pos < h.next <= |data|
  {
    if pos >= |data| then Bad
    else
      var tag := data[pos];
      if tag <= 0x7f then Scalar(Int(tag), pos + 1)
      else if tag / 16 == 0x8 then MapOf(tag % 16, pos + 1)
      else if tag / 16 == 0x9 then ArrOf(tag % 16, pos + 1)
      else if tag / 32 == 0x5 then StrOf(tag % 32, pos + 1)
      else if tag / 32 == 0x7 then Scalar(Int(tag as int - 256), pos + 1)
      else
        var w := FieldWidth(tag);
        if w.Unknown? || pos + 1 + w.n > |data| then Bad
        else FieldHead(tag, FromBigEndian(data[pos + 1..pos + 1 + w.n]), pos + 1 + w.n)
  }

  datatype Parsed<+T> = Fail | Ok(v: T, next: nat)

  function Parse(data: ByteString, pos: nat): (r: Parsed<Value>)
    ensures r.Ok? ==> pos < r.next <= |data|
    decreases |data| - pos, 0, 0
  {
    match HeadAt(data, pos)
    case Bad => Fail
    case Scalar(v, next) => Ok(v, next)
    case StrOf(len, next) =>
      if next + len > |data| then Fail else Ok(Str(data[next..next + len]), next + len)
    case ArrOf(count, next) =>
      var r := ParseItems(data, next, count);
      if r.Fail? then Fail else Ok(Arr(r.v), r.next)
    case MapOf(count, next) =>
      var r := ParseEntries(data, next, count);
      if r.Fail? then Fail else Ok(Map(r.v), r.next)
  }

  function ParseItems(data: ByteString, pos: nat, count: nat): (r: Parsed<seq<Value>>)
    requires pos <= |data|
    ensures r.Ok? ==> pos <= r.next <= |data| && |r.v| == count
    decreases |data| - pos, 1, count
  {
    if count == 0 then Ok([], pos)
    else
      var first := Parse(data, pos);
      if first.Fail? then Fail
      else
        var rest := ParseItems(data, first.next, count - 1);
        if rest.Fail? then Fail else Ok([first.v] + rest.v, rest.next)
  }

  function ParseEntries(data: ByteString, pos: nat, count: nat): (r: Parsed<seq<Entry>>)
    requires pos <= |data|
    ensures r.Ok? ==> pos <= r.next <= |data| && |r.v| == count
    decreases |data| - pos, 1, count
  {
    if count == 0 then Ok([], pos)
    else
      var key := Parse(data, pos);
      if key.Fail? || !key.v.Str? then Fail
      else
        var val := Parse(data, key.next);
        if val.Fail? then Fail
        else
          var rest := ParseEntries(data, val.next, count - 1);
          if rest.Fail? then Fail else Ok([Entry(key.v.s, val.v)] + rest.v, rest.next)
  }

  // ----- What a round trip keeps -----

  /** The reader's choice among values with equal encodings. */
  function Norm(v: Value): Value
    decreases v, 1
  {
    match v
    case UInt(u) => if u <= 127 then Int(u) else v
    case Float(bits) => Double(bits)
    case Arr(items) => Arr(NormItems(items))
    case Map(entries) => Map(NormEntries(entries))
    case _ => v
  }

  function NormItems(items: seq<Value>): (r: seq<Value>)
    ensures |r| == |items|
    decreases items, 0
  {
    if items == [] then [] else [Norm(items[0])] + NormItems(items[1..])
  }

  function NormEntries(entries: seq<Entry>): (r: seq<Entry>)
    ensures |r| == |entries|
    decreases entries, 0
  {
    if entries == [] then [] else [Entry(entries[0].key, Norm(entries[0].value))] + NormEntries(entries[1..])
  }

  /** No BIN anywhere, and every length fits the 32-bit length field. */
  predicate Readable(v: Value)
    decreases v, 1
  {
    match v
    case Str(s) => |s| < TWO32
    case Bin(_) => false
    case Arr(items) => |items| < TWO32 && ReadableItems(items)
    case Map(entries) => |entries| < TWO32 && ReadableEntries(entries)
    case _ => true
  }

  predicate ReadableItems(items: seq<Value>)
    decreases items, 0
  {
    items == [] || (Readable(items[0]) && ReadableItems(items[1..]))
  }

  predicate ReadableEntries(entries: seq<Entry>)
    decreases entries, 0
  {
    entries == [] ||
    (|entries[0].key| < TWO32 && Readable(entries[0].value) && ReadableEntries(entries[1..]))
  }

  // ----- Looking up integers in a frame -----

  /** The cast from uint64_t to int64_t. */
  function ToInt64(u: UInt64): Int64 {
    Signed(u, TWO64)
  }

  function AsInt(v: Value, def: Int64): Int64 {
    match v
    case Int(i) => i
    case UInt(u) => ToInt64(u)
    case _ => def
  }

  function Lookup(entries: seq<Entry>, key: ByteString): Parsed<Value> {
    if entries == [] then Fail
    else if entries[0].key == key then Ok(entries[0].value, 0)
    else Lookup(entries[1..], key)
  }

  function GetInt(v: Value, key: ByteString, def: Int64): Int64 {
    if !v.Map? then def
    else
      var r := Lookup(v.entries, key);
      if r.Fail? then def else AsInt(r.v, def)
  }
}
