/** The terminal client's hand-written JSON: quoting a string, undoing escapes, and taking the
    string array out of an answer. */
module JsonStrings {
  import opened Common

  // ----- Quoting -----

  function Escape(c: char): string {
    if c == '\\' then "\\\\"
    else if c == '"' then "\\\""
    else if c == '\n' then "\\n"
    else if c == '\r' then "\\r"
    else if c == '\t' then "\\t"
    else [c]
  }

  function EscapeAll(s: string): string {
    if s == "" then "" else Escape(s[0]) + EscapeAll(s[1..])
  }

  function Quote(s: string): string {
    "\"" + EscapeAll(s) + "\""
  }

  method QuoteJsString(s: string) returns (out: string)
    ensures out == Quote(s)
  {
    hide Escape;
    out := "\"";
    assert s[0..] == s;
    for i := 0 to |s|
      invariant out + EscapeAll(s[i..]) == "\"" + EscapeAll(s)
    {
      assert s[i..][1..] == s[i + 1..];
      out := out + Escape(s[i]);
    }
    out := out + "\"";
  }

  // ----- Undoing escapes -----

  function HexValue(h: char): Option<nat> {
    if '0' <= h <= '9' then Some(h as nat - '0' as nat)
    else if 'a' <= h <= 'f' then Some(h as nat - 'a' as nat + 10)
    else if 'A' <= h <= 'F' then Some(h as nat - 'A' as nat + 10)
    else None
  }

  /** The number that the first n hexadecimal digits extend cp to. */
  function HexNumber(t: string, n: nat, cp: nat): Option<nat>
    requires n <= |t|
    decreases n
  {
    if n == 0 then Some(cp)
    else
      var v := HexValue(t[0]);
      if v.None? then None else HexNumber(t[1..], n - 1, 16 * cp + v.value)
  }

  function Utf8Byte(n: nat): char { (n % 256) as char }

  /** The bytes written for a code point of at most four digits. */
  function CodePoint(cp: nat): string {
    if cp < 0x80 then [Utf8Byte(cp)]
    else if cp < 0x800 then [Utf8Byte(0xC0 + cp / 64), Utf8Byte(0x80 + cp % 64)]
    else [Utf8Byte(0xE0 + cp / 4096), Utf8Byte(0x80 + cp / 64 % 64), Utf8Byte(0x80 + cp % 64)]
  }

  /** What an escape n stands for, when it is one of the single letters. */
  function Letter(n: char): Option<char> {
    if n == '"' || n == '\\' || n == '/' then Some(n)
    else if n == 'b' then Some(8 as char)
    else if n == 'f' then Some(12 as char)
    else if n == 'n' then Some('\n')
    else if n == 'r' then Some('\r')
    else if n == 't' then Some('\t')
    else None
  }

  /** The front of t that one step of the loop reads, and what it writes for it. */
  datatype Piece = Piece(taken: nat, written: string)

  function FirstPiece(t: string): (p: Piece)
    requires t != ""
    ensures 0 < p.taken <= |t|
  {
    if t[0] != '\\' || |t| == 1 then Piece(1, [t[0]])
    else if Letter(t[1]).Some? then Piece(2, [Letter(t[1]).value])
    else if t[1] == 'u' && 6 <= |t| && HexNumber(t[2..], 4, 0).Some?
    then Piece(6, CodePoint(HexNumber(t[2..], 4, 0).value))
    else Piece(2, ['\\', t[1]])
  }

  function Unescape(t: string): string
    decreases |t|
  {
    if t == "" then "" else FirstPiece(t).written + Unescape(t[FirstPiece(t).taken..])
  }

  method JsonUnescape(s: string) returns (out: string)
    ensures out == Unescape(s)
  {
    hide CodePoint, Unescape, FirstPiece, HexNumber, Letter;
    out := "";
    var i := 0;
    assert s[0..] == s;
    while i < |s|
      invariant 0 <= i <= |s|
      invariant out + Unescape(s[i..]) == Unescape(s)
    {
      var t := s[i..];
      ghost var before, from, p := out, i, FirstPiece(t);
      UnescapeStep(t);
      PieceCases(t);
      var c := s[i];
      if c != '\\' || i + 1 >= |s| {
        out := out + [c];
        i := i + 1;
      } else {
        var n := s[i + 1];
        var letter := Letter(n);
        if letter.Some? {
          out := out + [letter.value];
          i := i + 2;
        } else if n == 'u' {
          var cp := None;
          if i + 1 + 4 < |s| {
            cp := ReadHex(s, i + 2);
            assert s[i + 2..] == t[2..];
          }
          if cp.Some? {
            out := out + CodePoint(cp.value);
            i := i + 6;
          } else {
            out := out + ['\\', 'u'];
            i := i + 2;
          }
        } else {
          out := out + ['\\', n];
          i := i + 2;
        }
      }
      assert out == before + p.written && i == from + p.taken;
      Glue(before, p.written, Unescape(t[p.taken..]));
      SliceTwice(s, from, p.taken);
    }
    assert s[i..] == "";
    UnescapeNothing();
    assert out + "" == out;
  }

  lemma SliceTwice(s: string, i: nat, n: nat)
    requires i + n <= |s|
    ensures s[i..][n..] == s[i + n..]
  {
  }

  lemma UnescapeNothing()
    ensures Unescape("") == ""
  {
  }

  lemma PieceCases(t: string)
    requires t != ""
    ensures FirstPiece(t) ==
      if t[0] != '\\' || |t| == 1 then Piece(1, [t[0]])
      else if Letter(t[1]).Some? then Piece(2, [Letter(t[1]).value])
      else if t[1] == 'u' && 6 <= |t| && HexNumber(t[2..], 4, 0).Some?
      then Piece(6, CodePoint(HexNumber(t[2..], 4, 0).value))
      else Piece(2, ['\\', t[1]])
  {
  }

  /** The loop over the four digits of a \u escape. */
  method ReadHex(s: string, at: nat) returns (cp: Option<nat>)
    requires at + 4 <= |s|
    ensures cp == HexNumber(s[at..], 4, 0)
  {
    var n := 0;
    for k := 0 to 4
      invariant n >= 0 && HexNumber(s[at + k..], 4 - k, n) == HexNumber(s[at..], 4, 0)
    {
      var v := HexValue(s[at + k]);
      if v.None? { return None; }
      n := 16 * n + v.value;
      assert s[at + k..][1..] == s[at + k + 1..];
    }
    return Some(n);
  }

  lemma {:induction false} UnescapeEscape(s: string)
    ensures Unescape(EscapeAll(s)) == s
  {
    if s != "" {
      UnescapeEscape(s[1..]);
      UnescapeOne(s[0], EscapeAll(s[1..]));
      assert s == [s[0]] + s[1..];
    }
  }

  lemma UnescapeOne(c: char, rest: string)
    ensures Unescape(Escape(c) + rest) == [c] + Unescape(rest)
  {
    hide Unescape, HexNumber, CodePoint;
    var t := Escape(c) + rest;
    assert t[|Escape(c)|..] == rest;
    UnescapeStep(t);
  }

  lemma UnescapeStep(t: string)
    requires t != ""
    ensures Unescape(t) == FirstPiece(t).written + Unescape(t[FirstPiece(t).taken..])
  {
    hide FirstPiece;
  }

  // ----- Escapes by number -----

  function HexDigit(v: nat, upper: bool): char
    requires v < 16
  {
    (if upper then "0123456789ABCDEF" else "0123456789abcdef")[v]
  }

  /** The four digits of a number, each in upper or lower case. */
  function Hex4(cp: nat, upper: seq<bool>): string
    requires cp < 0x1_0000 && |upper| == 4
  {
    [HexDigit(cp / 4096, upper[0]), HexDigit(cp / 256 % 16, upper[1]), HexDigit(cp / 16 % 16, upper[2]),
     HexDigit(cp % 16, upper[3])]
  }

  lemma HexValueOf(v: nat, upper: bool)
    requires v < 16
    ensures HexValue(HexDigit(v, upper)) == Some(v)
  {
    if v < 10 {
      assert HexDigit(v, upper) == "0123456789"[v];
    } else {
      assert HexDigit(v, upper) == (if upper then "ABCDEF" else "abcdef")[v - 10];
    }
  }

  lemma Hex4Number(cp: nat, upper: seq<bool>, rest: string)
    requires cp < 0x1_0000 && |upper| == 4
    ensures HexNumber(Hex4(cp, upper) + rest, 4, 0) == Some(cp)
  {
    hide HexNumber, HexDigit;
    var a, b := HexDigit(cp / 4096, upper[0]), HexDigit(cp / 256 % 16, upper[1]);
    var c, d := HexDigit(cp / 16 % 16, upper[2]), HexDigit(cp % 16, upper[3]);
    HexValueOf(cp / 4096, upper[0]);
    HexValueOf(cp / 256 % 16, upper[1]);
    HexValueOf(cp / 16 % 16, upper[2]);
    HexValueOf(cp % 16, upper[3]);
    HexOfDigits(a, b, c, d, rest);
    Digits16(cp);
  }

  lemma Digits16(cp: nat)
    ensures 16 * (16 * (16 * (cp / 4096) + cp / 256 % 16) + cp / 16 % 16) + cp % 16 == cp
  {
    assert cp / 16 / 16 == cp / 256 && cp / 256 / 16 == cp / 4096;
  }

  lemma HexOfDigits(a: char, b: char, c: char, d: char, rest: string)
    requires HexValue(a).Some? && HexValue(b).Some? && HexValue(c).Some? && HexValue(d).Some?
    ensures HexNumber([a, b, c, d] + rest, 4, 0)
         == Some(16 * (16 * (16 * HexValue(a).value + HexValue(b).value) + HexValue(c).value) + HexValue(d).value)
  {
    hide HexValue, HexNumber;
    var va, vb, vc, vd := HexValue(a).value, HexValue(b).value, HexValue(c).value, HexValue(d).value;
    var t1 := [d] + rest;
    var t2 := [c] + t1;
    var t3 := [b] + t2;
    HexMore(a, t3, 3, 0);
    HexMore(b, t2, 2, va);
    HexMore(c, t1, 1, 16 * va + vb);
    HexMore(d, rest, 0, 16 * (16 * va + vb) + vc);
    HexStep(rest, 0, 16 * (16 * (16 * va + vb) + vc) + vd);
    assert [a, b, c, d] + rest == [a] + t3;
  }

  lemma HexMore(h: char, t: string, n: nat, cp: nat)
    requires HexValue(h).Some? && n <= |t|
    ensures HexNumber([h] + t, n + 1, cp) == HexNumber(t, n, 16 * cp + HexValue(h).value)
  {
    hide HexValue, HexNumber;
    HexStep([h] + t, n + 1, cp);
    assert ([h] + t)[1..] == t;
  }

  lemma HexStep(t: string, n: nat, cp: nat)
    requires n <= |t|
    ensures n == 0 ==> HexNumber(t, n, cp) == Some(cp)
    ensures n > 0 && HexValue(t[0]).Some? ==> HexNumber(t, n, cp) == HexNumber(t[1..], n - 1, 16 * cp + HexValue(t[0]).value)
  {
  }

  /** The code point of a UTF-8 sequence of one to three bytes; section 3 of RFC 3629. None for a lead
      or a continuation byte that is out of its range. */
  function Utf8Value(s: string): Option<nat> {
    if |s| == 1 && s[0] as nat < 0x80 then Some(s[0] as nat)
    else if |s| == 2 && 0xC0 <= s[0] as nat < 0xE0 && Continues(s[1])
    then Some((s[0] as nat - 0xC0) * 64 + (s[1] as nat - 0x80))
    else if |s| == 3 && 0xE0 <= s[0] as nat < 0xF0 && Continues(s[1]) && Continues(s[2])
    then Some((s[0] as nat - 0xE0) * 4096 + (s[1] as nat - 0x80) * 64 + (s[2] as nat - 0x80))
    else None
  }

  predicate Continues(c: char) {
    0x80 <= c as nat < 0xC0
  }

  /** The bytes written are the shortest UTF-8 form of the code point. */
  lemma CodePointIsUtf8(cp: nat)
    requires cp < 0x1_0000
    ensures Utf8Value(CodePoint(cp)) == Some(cp)
    ensures |CodePoint(cp)| == if cp < 0x80 then 1 else if cp < 0x800 then 2 else 3
  {
    hide Utf8Byte;
    if cp < 0x80 {
      ByteIs(cp);
    } else if cp < 0x800 {
      ByteIs(0xC0 + cp / 64);
      ByteIs(0x80 + cp % 64);
    } else {
      var a, b, c := cp / 4096, cp / 64 % 64, cp % 64;
      Digits64(cp);
      ByteIs(0xE0 + a);
      ByteIs(0x80 + b);
      ByteIs(0x80 + c);
      assert CodePoint(cp) == [Utf8Byte(0xE0 + a), Utf8Byte(0x80 + b), Utf8Byte(0x80 + c)];
    }
  }

  lemma ByteIs(n: nat)
    requires n < 256
    ensures Utf8Byte(n) as nat == n
  {
  }

  lemma Digits64(cp: nat)
    requires cp < 0x1_0000
    ensures cp / 4096 < 16 && cp == cp / 4096 * 4096 + cp / 64 % 64 * 64 + cp % 64
  {
    assert cp / 64 / 64 == cp / 4096;
  }

  /** A numeric escape, with digits in either case, is undone to the UTF-8 bytes of its code point. */
  lemma UnescapeNumber(cp: nat, upper: seq<bool>, rest: string)
    requires cp < 0x1_0000 && |upper| == 4
    ensures Unescape("\\u" + Hex4(cp, upper) + rest) == CodePoint(cp) + Unescape(rest)
  {
    hide Unescape, HexNumber, CodePoint, HexDigit;
    var t := "\\u" + Hex4(cp, upper) + rest;
    assert t[2..] == Hex4(cp, upper) + rest && t[6..] == rest;
    Hex4Number(cp, upper, rest);
    PieceCases(t);
    UnescapeStep(t);
  }

  /** The escapes of a single letter: each stands for the character that the other list has there. */
  lemma UnescapeLetter(k: nat, rest: string)
    requires k < 8
    ensures Unescape(['\\', "\"\\/bfnrt"[k]] + rest)
         == [['"', '\\', '/', 8 as char, 12 as char, '\n', '\r', '\t'][k]] + Unescape(rest)
  {
    hide Unescape, HexNumber, CodePoint;
    var t := ['\\', "\"\\/bfnrt"[k]] + rest;
    assert t[2..] == rest;
    UnescapeStep(t);
  }

  /** Any other escape is kept with its backslash. */
  lemma UnescapeUnknown(c: char, rest: string)
    requires c !in "\"\\/bfnrtu"
    ensures Unescape(['\\', c] + rest) == ['\\', c] + Unescape(rest)
  {
    hide Unescape, HexNumber, CodePoint, HexValue;
    var t := ['\\', c] + rest;
    assert t[2..] == rest;
    NoLetter(c);
    UnescapeStep(t);
    PieceCases(t);
  }

  lemma NoLetter(c: char)
    requires c !in "\"\\/bfnrtu"
    ensures Letter(c).None? && c != 'u'
  {
    assert 'u' in "\"\\/bfnrtu";
    assert "\"\\/bfnrt"[0] == '"' && "\"\\/bfnrt"[7] == 't';
  }

  /** So is an escape whose number is cut short or has another character among its four. */
  lemma UnescapeBadNumber(rest: string)
    requires |rest| < 4 || exists k :: 0 <= k < 4 && HexValue(rest[k]).None?
    ensures Unescape("\\u" + rest) == "\\u" + Unescape(rest)
  {
    hide Unescape, HexNumber, CodePoint, HexValue;
    var t := "\\u" + rest;
    assert t[2..] == rest;
    if |rest| >= 4 {
      var k :| 0 <= k < 4 && HexValue(rest[k]).None?;
      NoNumber(rest, 4, 0, k);
    }
    UnescapeStep(t);
    PieceCases(t);
  }

  /** Everything else stands for itself, a backslash at the end too. */
  lemma UnescapePlain(c: char, rest: string)
    requires c != '\\' || rest == ""
    ensures Unescape([c] + rest) == [c] + Unescape(rest)
  {
    hide Unescape, HexNumber, CodePoint, HexValue;
    var t := [c] + rest;
    assert t[1..] == rest;
    UnescapeStep(t);
    PieceCases(t);
  }

  lemma {:induction false} NoNumber(t: string, n: nat, cp: nat, k: nat)
    requires k < n <= |t| && HexValue(t[k]).None?
    ensures HexNumber(t, n, cp) == None
    decreases n
  {
    if k > 0 && HexValue(t[0]).Some? { NoNumber(t[1..], n - 1, 16 * cp + HexValue(t[0]).value, k - 1); }
  }

  /** Which characters are digits, and of what value. */
  lemma HexValueIs(h: char)
    ensures HexValue(h).Some? <==> '0' <= h <= '9' || 'a' <= h <= 'f' || 'A' <= h <= 'F'
  {
  }

  // ----- What a quoted string looks like -----

  predicate Special(c: char) {
    c in "\\\"\n\r\t"
  }

  function SpecialsIn(s: string): nat {
    if s == "" then 0 else (if Special(s[0]) then 1 else 0) + SpecialsIn(s[1..])
  }

  /** Quoting costs one more character for each special one, and leaves no line break and no tab. */
  lemma {:induction false} QuotedIs(s: string)
    ensures |Quote(s)| == |s| + 2 + SpecialsIn(s)
    ensures forall k :: 0 <= k < |Quote(s)| ==> Quote(s)[k] !in "\n\r\t"
  {
    EscapedIs(s);
  }

  lemma {:induction false} EscapedIs(s: string)
    ensures |EscapeAll(s)| == |s| + SpecialsIn(s)
    ensures forall k :: 0 <= k < |EscapeAll(s)| ==> EscapeAll(s)[k] !in "\n\r\t"
  {
    if s != "" {
      EscapedIs(s[1..]);
      assert forall k :: 0 <= k < |Escape(s[0])| ==> Escape(s[0])[k] !in "\n\r\t";
    }
  }

  // ----- Scanning -----

  /** Where the first ']' outside quotes is. */
  function CloseOffset(t: string, inQuote: bool, esc: bool): (r: Option<nat>)
    ensures r.Some? ==> r.value < |t|
  {
    if t == "" then None
    else if !esc && t[0] == ']' && !inQuote then Some(0)
    else
      var r := CloseOffset(t[1..], if !esc && t[0] == '"' then !inQuote else inQuote, !esc && t[0] == '\\');
      if r.None? then None else Some(r.value + 1)
  }

  /** Where the first unescaped quotation mark is. */
  function QuoteOffset(t: string, esc: bool): (r: Option<nat>)
    ensures r.Some? ==> r.value < |t|
  {
    if t == "" then None
    else if !esc && t[0] == '"' then Some(0)
    else
      var r := QuoteOffset(t[1..], !esc && t[0] == '\\');
      if r.None? then None else Some(r.value + 1)
  }

  function CharOffset(t: string, c: char): (r: Option<nat>)
    ensures r.Some? ==> r.value < |t| && t[r.value] == c && c !in t[..r.value]
    ensures r.None? ==> c !in t
  {
    if t == "" then None
    else if t[0] == c then Some(0)
    else
      var r := CharOffset(t[1..], c);
      if r.None? then None else Some(r.value + 1)
  }

  datatype Taken = Taken(text: string, rest: string)

  /** The first quoted text, escapes and all, and what is behind it. */
  function NextQuoted(t: string): (r: Option<Taken>)
    ensures r.Some? ==> |r.value.rest| < |t|
  {
    var q1 := CharOffset(t, '"');
    if q1.None? then None
    else
      var inner := t[q1.value + 1..];
      var q2 := QuoteOffset(inner, false);
      if q2.None? then None else Some(Taken(inner[..q2.value], inner[q2.value + 1..]))
  }

  /** The strings quoted between the brackets. */
  function Strings(t: string): seq<string>
    decreases |t|
  {
    var next := NextQuoted(t);
    if next.None? then [] else [Unescape(next.value.text)] + Strings(next.value.rest)
  }

  /** Everything behind the bracket that opens the array. */
  function AfterBracket(t: string): seq<string> {
    var open := CharOffset(t, '[');
    if open.None? then []
    else
      var body := t[open.value + 1..];
      var close := CloseOffset(body, false, false);
      if close.None? then [] else Strings(body[..close.value])
  }

  /** The first place from i on where the pattern stands. */
  function Find(t: string, pattern: string, i: nat): (r: Option<nat>)
    requires i <= |t|
    ensures r.Some? ==> i <= r.value <= |t|
    decreases |t| - i
  {
    if |t| - i < |pattern| then None
    else if t[i..i + |pattern|] == pattern then Some(i)
    else if i == |t| then None
    else Find(t, pattern, i + 1)
  }

  /** The value of ExtractJsonStringArray; the search begins at the quoted key, if one is given. */
  function Extracted(json: string, key: string): seq<string> {
    if key == "" then AfterBracket(json)
    else
      var at := Find(json, Quoted(key), 0);
      if at.None? then [] else AfterBracket(json[at.value..])
  }

  method ExtractJsonStringArray(json: string, key: string) returns (res: seq<string>)
    ensures res == Extracted(json, key)
  {
    hide Find, CharOffset, CloseOffset, QuoteOffset, Strings, Unescape;
    res := [];
    var start := 0;
    if key != "" {
      var keyPos := Find(json, Quoted(key), 0);
      if keyPos.None? { return; }
      start := keyPos.value;
    }
    var rest := json[start..];
    assert key == "" ==> rest == json;
    var open := CharOffset(rest, '[');
    if open.None? { return; }
    var body := rest[open.value + 1..];
    var close := FindClose(body);
    if close.None? { return; }
    res := TakeStrings(body[..close.value]);
  }

  /** The loop that looks for the matching bracket and ignores those inside quotes. */
  method FindClose(t: string) returns (close: Option<nat>)
    ensures close == CloseOffset(t, false, false)
  {
    hide CloseOffset;
    var inQuote, esc := false, false;
    assert t[0..] == t;
    for i := 0 to |t|
      invariant CloseOffset(t, false, false) ==
        var r := CloseOffset(t[i..], inQuote, esc); if r.None? then None else Some(i + r.value)
    {
      CloseStep(t[i..], inQuote, esc);
      assert t[i..][1..] == t[i + 1..];
      var c := t[i];
      if esc {
        esc := false;
      } else if c == '\\' {
        esc := true;
      } else if c == '"' {
        inQuote := !inQuote;
      } else if c == ']' && !inQuote {
        return Some(i);
      }
    }
    CloseStep(t[|t|..], inQuote, esc);
    return None;
  }

  lemma CloseStep(t: string, inQuote: bool, esc: bool)
    ensures CloseOffset(t, inQuote, esc) ==
      if t == "" then None
      else if !esc && t[0] == ']' && !inQuote then Some(0)
      else
        var r := CloseOffset(t[1..], if !esc && t[0] == '"' then !inQuote else inQuote, !esc && t[0] == '\\');
        if r.None? then None else Some(r.value + 1)
  {
  }

  /** The loop that looks for the closing quotation mark. */
  method FindQuote(t: string) returns (q: Option<nat>)
    ensures q == QuoteOffset(t, false)
  {
    hide QuoteOffset;
    var esc := false;
    assert t[0..] == t;
    for i := 0 to |t|
      invariant QuoteOffset(t, false) ==
        var r := QuoteOffset(t[i..], esc); if r.None? then None else Some(i + r.value)
    {
      QuoteStep(t[i..], esc);
      assert t[i..][1..] == t[i + 1..];
      if esc {
        esc := false;
      } else if t[i] == '\\' {
        esc := true;
      } else if t[i] == '"' {
        return Some(i);
      }
    }
    QuoteStep(t[|t|..], esc);
    return None;
  }

  lemma QuoteStep(t: string, esc: bool)
    ensures QuoteOffset(t, esc) ==
      if t == "" then None
      else if !esc && t[0] == '"' then Some(0)
      else
        var r := QuoteOffset(t[1..], !esc && t[0] == '\\');
        if r.None? then None else Some(r.value + 1)
  {
  }

  /** The loop over the quoted strings. */
  method TakeStrings(t: string) returns (res: seq<string>)
    ensures res == Strings(t)
  {
    hide CharOffset, QuoteOffset, Unescape, Strings;
    res := [];
    var cur := 0;
    assert t[0..] == t;
    while cur < |t|
      invariant 0 <= cur <= |t|
      invariant res + Strings(t[cur..]) == Strings(t)
      decreases |t| - cur
    {
      StringsStep(t[cur..]);
      AddNothing(res);
      var q1 := CharOffset(t[cur..], '"');
      if q1.None? { return; }
      var inner := t[cur..][q1.value + 1..];
      var q2 := FindQuote(inner);
      if q2.None? { return; }
      var one := JsonUnescape(inner[..q2.value]);
      Glue(res, [one], Strings(inner[q2.value + 1..]));
      SliceTwice(t, cur, q1.value + 1);
      SliceTwice(t, cur + q1.value + 1, q2.value + 1);
      res := res + [one];
      cur := cur + q1.value + q2.value + 2;
    }
    assert t[cur..] == "";
    EmptyHasNone();
    StringsStep("");
    AddNothing(res);
  }

  lemma EmptyHasNone()
    ensures NextQuoted("") == None
  {
  }

  lemma StringsStep(t: string)
    ensures Strings(t) ==
      var next := NextQuoted(t);
      if next.None? then [] else [Unescape(next.value.text)] + Strings(next.value.rest)
  {
    hide NextQuoted, Unescape;
  }

  // ----- Printing a list and reading it back -----

  /** Text that may stand between the quoted strings: the scans take no notice of it. */
  predicate Inert(pad: string) {
    '"' !in pad && ']' !in pad && '\\' !in pad
  }

  /** The quoted strings with a separator between each two. */
  function Listed(l: seq<string>, sep: string): string {
    if l == [] then "" else Quote(l[0]) + (if |l| == 1 then "" else sep) + Listed(l[1..], sep)
  }

  function Shift(r: Option<nat>, n: nat): Option<nat> {
    if r.None? then None else Some(r.value + n)
  }

  /** A quoted string hides every bracket in it from the search for the end. */
  lemma {:induction false} CloseSkipsEscaped(s: string, rest: string)
    ensures CloseOffset(EscapeAll(s) + "\"" + rest, true, false)
         == Shift(CloseOffset(rest, false, false), |EscapeAll(s)| + 1)
  {
    hide CloseOffset;
    var t := EscapeAll(s) + "\"" + rest;
    CloseStep(t, true, false);
    if s == "" {
      assert t[1..] == rest;
    } else {
      var e, more := Escape(s[0]), EscapeAll(s[1..]) + "\"" + rest;
      assert t == e + more;
      CloseSkipsEscaped(s[1..], rest);
      assert t[0] == e[0];
      if |e| == 2 {
        assert t[1..][1..] == more && t[1..][0] == e[1];
        CloseStep(t[1..], true, true);
      } else {
        assert t[1..] == more;
      }
    }
  }

  lemma {:induction false} CloseSkipsInert(pad: string, rest: string)
    requires Inert(pad)
    ensures CloseOffset(pad + rest, false, false) == Shift(CloseOffset(rest, false, false), |pad|)
  {
    hide CloseOffset;
    if pad == "" {
      assert pad + rest == rest;
    } else {
      CloseStep(pad + rest, false, false);
      assert (pad + rest)[1..] == pad[1..] + rest;
      CloseSkipsInert(pad[1..], rest);
    }
  }

  lemma CloseSkipsQuoted(s: string, rest: string)
    ensures CloseOffset(Quote(s) + rest, false, false) == Shift(CloseOffset(rest, false, false), |Quote(s)|)
  {
    hide CloseOffset, EscapeAll;
    CloseSkipsEscaped(s, rest);
    CloseStep(Quote(s) + rest, false, false);
    assert (Quote(s) + rest)[1..] == EscapeAll(s) + "\"" + rest;
  }

  /** The bracket found is the one that ends the list. */
  lemma {:induction false} CloseOfListed(l: seq<string>, sep: string, back: string)
    requires Inert(sep)
    ensures CloseOffset(Listed(l, sep) + "]" + back, false, false) == Some(|Listed(l, sep)|)
  {
    hide CloseOffset, Quote, Inert;
    var t := Listed(l, sep) + "]" + back;
    if l == [] {
      CloseStep(t, false, false);
    } else {
      var pad := if |l| == 1 then "" else sep;
      assert Inert("") by { EmptyIsInert(); }
      var more := Listed(l[1..], sep) + "]" + back;
      CloseOfListed(l[1..], sep, back);
      CloseSkipsInert(pad, more);
      CloseSkipsQuoted(l[0], pad + more);
      assert t == Quote(l[0]) + (pad + more);
    }
  }

  lemma EmptyIsInert()
    ensures Inert("")
  {
  }

  lemma {:induction false} QuoteOfEscaped(s: string, rest: string)
    ensures QuoteOffset(EscapeAll(s) + "\"" + rest, false) == Some(|EscapeAll(s)|)
  {
    hide QuoteOffset;
    var t := EscapeAll(s) + "\"" + rest;
    QuoteStep(t, false);
    if s != "" {
      var e, more := Escape(s[0]), EscapeAll(s[1..]) + "\"" + rest;
      assert t == e + more;
      QuoteOfEscaped(s[1..], rest);
      assert t[0] == e[0];
      if |e| == 2 {
        assert t[1..][1..] == more && t[1..][0] == e[1];
        QuoteStep(t[1..], true);
      } else {
        assert t[1..] == more;
      }
    }
  }

  lemma {:induction false} FirstChar(pad: string, c: char, rest: string)
    requires c !in pad
    ensures CharOffset(pad + [c] + rest, c) == Some(|pad|)
  {
    var t := pad + [c] + rest;
    if pad != "" {
      FirstChar(pad[1..], c, rest);
      assert t[1..] == pad[1..] + [c] + rest;
    }
  }

  /** One quoted string is taken back as it was. */
  lemma StringsTakesOne(pad: string, s: string, rest: string)
    requires Inert(pad)
    ensures Strings(pad + Quote(s) + rest) == [s] + Strings(rest)
  {
    hide CharOffset, QuoteOffset, Unescape, Strings, EscapeAll;
    var t := pad + Quote(s) + rest;
    var inner := EscapeAll(s) + "\"" + rest;
    assert t == pad + "\"" + inner;
    FirstChar(pad, '"', inner);
    QuoteOfEscaped(s, rest);
    UnescapeEscape(s);
    StringsStep(t);
    assert t[|pad| + 1..] == inner;
    assert inner[..|EscapeAll(s)|] == EscapeAll(s);
    assert inner[|EscapeAll(s)| + 1..] == rest;
  }

  lemma {:induction false} StringsOfListed(pad: string, l: seq<string>, sep: string)
    requires Inert(sep) && Inert(pad)
    ensures Strings(pad + Listed(l, sep)) == l
    decreases |l|
  {
    hide NextQuoted, Unescape, Strings, Quote, Listed, Inert;
    if l == [] {
      ListedStep(l, sep);
      AddNothing(pad);
      InertHasNone(pad);
      StringsStep(pad);
    } else {
      var next := if |l| == 1 then "" else sep;
      EmptyIsInert();
      StringsOfListed(next, l[1..], sep);
      StringsTakesOne(pad, l[0], next + Listed(l[1..], sep));
      ListedStep(l, sep);
      Glue(pad, Quote(l[0]), next + Listed(l[1..], sep));
      assert l == [l[0]] + l[1..];
    }
  }

  lemma InertHasNone(pad: string)
    requires Inert(pad)
    ensures NextQuoted(pad) == None
  {
  }

  lemma ListedStep(l: seq<string>, sep: string)
    ensures l == [] ==> Listed(l, sep) == ""
    ensures l != [] ==>
      Listed(l, sep) == Quote(l[0]) + ((if |l| == 1 then "" else sep) + Listed(l[1..], sep))
  {
    hide Quote;
    if l != [] { Glue(Quote(l[0]), if |l| == 1 then "" else sep, Listed(l[1..], sep)); }
  }

  lemma ListBehindBracket(front: string, l: seq<string>, sep: string, back: string)
    requires '[' !in front && Inert(sep)
    ensures AfterBracket(front + "[" + Listed(l, sep) + "]" + back) == l
  {
    hide CharOffset, CloseOffset, Strings, Listed, Inert;
    var body := Listed(l, sep) + "]" + back;
    var t := front + "[" + Listed(l, sep) + "]" + back;
    assert t == front + "[" + body;
    FirstChar(front, '[', body);
    CloseOfListed(l, sep, back);
    assert t[|front| + 1..] == body;
    assert body[..|Listed(l, sep)|] == Listed(l, sep) == "" + Listed(l, sep);
    EmptyIsInert();
    StringsOfListed("", l, sep);
  }

  /** Every list of strings comes back from its printed form, whatever the strings hold and
      whatever follows the array. */
  lemma ListRoundTrip(front: string, l: seq<string>, sep: string, back: string)
    requires '[' !in front && Inert(sep)
    ensures Extracted(front + "[" + Listed(l, sep) + "]" + back, "") == l
  {
    hide AfterBracket, Listed, Inert;
    ListBehindBracket(front, l, sep, back);
  }

  function Quoted(key: string): string {
    "\"" + key + "\""
  }

  predicate StandsAt(t: string, pattern: string, j: nat) {
    j + |pattern| <= |t| && t[j..j + |pattern|] == pattern
  }

  /** The pattern stands nowhere in the text before n. */
  predicate FirstAt(t: string, pattern: string, n: nat) {
    forall j: nat :: j < n ==> !StandsAt(t, pattern, j)
  }

  lemma {:induction false} FindFirst(before: string, pattern: string, tail: string, i: nat)
    requires i <= |before| && FirstAt(before + pattern, pattern, |before|)
    ensures Find(before + pattern + tail, pattern, i) == Some(|before|)
    decreases |before| - i
  {
    var t := before + pattern + tail;
    assert t[i..i + |pattern|] == (before + pattern)[i..i + |pattern|];
    if i == |before| {
      assert t[i..i + |pattern|] == pattern;
    } else {
      assert !StandsAt(before + pattern, pattern, i);
      FindFirst(before, pattern, tail, i + 1);
    }
  }

  /** The printed list behind its key, with anything around. */
  function KeyedText(before: string, key: string, front: string, l: seq<string>, sep: string, back: string): string {
    before + Quoted(key) + front + "[" + Listed(l, sep) + "]" + back
  }

  /** The search begins at the key when the text before has not already named it. */
  lemma KeyedRest(before: string, key: string, front: string, l: seq<string>, sep: string, back: string)
    requires key != "" && FirstAt(before + Quoted(key), Quoted(key), |before|)
    ensures Extracted(KeyedText(before, key, front, l, sep, back), key)
         == AfterBracket(Quoted(key) + front + "[" + Listed(l, sep) + "]" + back)
  {
    hide AfterBracket, Listed, Find, FirstAt;
    var tail := front + "[" + Listed(l, sep) + "]" + back;
    var json := KeyedText(before, key, front, l, sep, back);
    assert json == before + Quoted(key) + tail;
    FindFirst(before, Quoted(key), tail, 0);
    assert json[|before|..] == Quoted(key) + front + "[" + Listed(l, sep) + "]" + back;
  }

  /** The same for the array behind a key without a bracket. */
  lemma KeyedRoundTrip(before: string, key: string, front: string, l: seq<string>, sep: string, back: string)
    requires key != "" && '[' !in key && '[' !in front && Inert(sep)
    requires FirstAt(before + Quoted(key), Quoted(key), |before|)
    ensures Extracted(KeyedText(before, key, front, l, sep, back), key) == l
  {
    hide AfterBracket, Listed, Inert, Find, FirstAt, KeyedText;
    KeyedRest(before, key, front, l, sep, back);
    ListBehindBracket(Quoted(key) + front, l, sep, back);
  }

  // ----- Exactly the keys without a bracket -----

  /** Two characters that the search for the end takes alike. */
  lemma {:induction false} CloseSame(u: string, x: char, y: char, tail: string, inQuote: bool, esc: bool)
    requires Inert([x]) && Inert([y])
    ensures CloseOffset(u + [x] + tail, inQuote, esc) == CloseOffset(u + [y] + tail, inQuote, esc)
    decreases |u|
  {
    hide CloseOffset;
    var s, t := u + [x] + tail, u + [y] + tail;
    assert x in [x] && y in [y];
    CloseStep(s, inQuote, esc);
    CloseStep(t, inQuote, esc);
    if u == "" {
      assert s[1..] == tail && t[1..] == tail;
    } else {
      assert s[1..] == u[1..] + [x] + tail && t[1..] == u[1..] + [y] + tail;
      var inQuote' := if !esc && u[0] == '"' then !inQuote else inQuote;
      CloseSame(u[1..], x, y, tail, inQuote', !esc && u[0] == '\\');
    }
  }

  lemma {:induction false} LocalChar(u: string, c: char, r: string)
    requires c in u
    ensures CharOffset(u + r, c) == CharOffset(u, c)
  {
    assert (u + r)[0] == u[0] && (u + r)[1..] == u[1..] + r;
    if u[0] != c { LocalChar(u[1..], c, r); }
  }

  /** A quotation mark behind a bracket is never escaped, so the search goes no further. */
  lemma {:induction false} LocalQuote(p: string, r: string, esc: bool)
    ensures var q := QuoteOffset(p + "[\"", esc);
      q.Some? && QuoteOffset(p + "[\"" + r, esc) == q
    decreases |p|
  {
    hide QuoteOffset;
    var t := p + "[\"";
    QuoteStep(t, esc);
    QuoteStep(t + r, esc);
    if p == "" {
      assert t[1..] == "\"" && (t + r)[1..] == "\"" + r;
      QuoteStep("\"", false);
      QuoteStep("\"" + r, false);
    } else {
      assert t[1..] == p[1..] + "[\"" && (t + r)[1..] == p[1..] + "[\"" + r;
      LocalQuote(p[1..], r, !esc && p[0] == '\\');
    }
  }

  /** The first text taken ends before what follows a quotation mark and then a bracket with another. */
  lemma FirstTextLocal(k: string, mid: string, r: string)
    ensures var u := k + "\"" + mid + "[\"";
      NextQuoted(u).Some? && NextQuoted(u + r).Some? && NextQuoted(u + r).value.text == NextQuoted(u).value.text
  {
    hide CharOffset, QuoteOffset;
    var m := k + "\"" + mid;
    var u := m + "[\"";
    assert m[|k|] == '"';
    LocalChar(m, '"', "[\"");
    LocalChar(m, '"', "[\"" + r);
    assert m + ("[\"" + r) == u + r;
    var q1 := CharOffset(m, '"').value;
    var p := m[q1 + 1..];
    LocalQuote(p, r, false);
    assert u[q1 + 1..] == p + "[\"" && (u + r)[q1 + 1..] == p + "[\"" + r;
    var q2 := QuoteOffset(p + "[\"", false).value;
    assert (p + "[\"" + r)[..q2] == (p + "[\"")[..q2];
  }

  /** What the search makes of the one-string list with x, behind a bracket in the key. */
  function Misread(k: string, front: string, x: char, back: string): seq<string> {
    var body := k + "\"" + front + "[\"" + [x] + ("\"]" + back);
    var close := CloseOffset(body, false, false);
    if close.None? then [] else Strings(body[..close.value])
  }

  /** Two such lists cannot both come back: the first string taken does not depend on x. */
  lemma NotBoth(k: string, front: string, x: char, y: char, back: string)
    requires x != y && Inert([x]) && Inert([y])
    ensures !(Misread(k, front, x, back) == [[x]] && Misread(k, front, y, back) == [[y]])
  {
    hide CloseOffset, Strings, NextQuoted, Unescape, Inert;
    var u, tail := k + "\"" + front + "[\"", "\"]" + back;
    CloseSame(u, x, y, tail, false, false);
    var close := CloseOffset(u + [x] + tail, false, false);
    if close.Some? {
      var c := close.value;
      if c <= |u| {
        assert (u + [x] + tail)[..c] == (u + [y] + tail)[..c];
      } else {
        var t := tail[..c - |u| - 1];
        assert (u + [x] + tail)[..c] == u + ([x] + t) && (u + [y] + tail)[..c] == u + ([y] + t);
        FirstTextLocal(k, front, [x] + t);
        FirstTextLocal(k, front, [y] + t);
        StringsStep(u + ([x] + t));
        StringsStep(u + ([y] + t));
      }
    }
  }

  lemma KeyedIsMisread(before: string, k1: string, k2: string, front: string, x: char, sep: string, back: string)
    requires '[' !in k1 && Escape(x) == [x]
    requires var key := Quoted(k1 + "[" + k2); FirstAt(before + key, key, |before|)
    ensures Extracted(KeyedText(before, k1 + "[" + k2, front, [[x]], sep, back), k1 + "[" + k2)
         == Misread(k2, front, x, back)
  {
    hide CloseOffset, CharOffset, Strings, FirstAt, KeyedText, Extracted, Escape, Listed;
    var key := k1 + "[" + k2;
    KeyedRest(before, key, front, [[x]], sep, back);
    OneListed(x, sep);
    var body := k2 + "\"" + front + "[\"" + [x] + ("\"]" + back);
    var rest := Quoted(key) + front + "[" + Listed([[x]], sep) + "]" + back;
    assert rest == "\"" + k1 + "[" + body;
    FirstChar("\"" + k1, '[', body);
    assert rest[|k1| + 2..] == body;
  }

  lemma OneListed(x: char, sep: string)
    requires Escape(x) == [x]
    ensures Listed([[x]], sep) == "\"" + [x] + "\""
  {
    assert [x][1..] == "" && [[x]][1..] == [];
    assert EscapeAll([x]) == [x] + EscapeAll("") == [x];
    assert Listed([], sep) == "";
  }

  /** Every list behind the key comes back if and only if the key has no bracket, whatever is printed
      around them. */
  lemma KeyExactly(before: string, key: string, front: string, sep: string, back: string)
    requires key != "" && '[' !in front && Inert(sep) && FirstAt(before + Quoted(key), Quoted(key), |before|)
    ensures (forall l :: Extracted(KeyedText(before, key, front, l, sep, back), key) == l) <==> '[' !in key
  {
    hide Extracted, KeyedText, FirstAt, Misread, CharOffset;
    if '[' in key {
      var at := CharOffset(key, '[').value;
      var k1, k2 := key[..at], key[at + 1..];
      assert key == k1 + "[" + k2;
      KeyedIsMisread(before, k1, k2, front, 'a', sep, back);
      KeyedIsMisread(before, k1, k2, front, 'b', sep, back);
      NotBoth(k2, front, 'a', 'b', back);
      assert "a" == ['a'] && "b" == ['b'];
    } else {
      forall l ensures Extracted(KeyedText(before, key, front, l, sep, back), key) == l {
        KeyedRoundTrip(before, key, front, l, sep, back);
      }
    }
  }

  // ----- Nothing to extract -----

  lemma {:induction false} NoClose(t: string, inQuote: bool, esc: bool)
    requires ']' !in t
    ensures CloseOffset(t, inQuote, esc) == None
    decreases |t|
  {
    if t != "" {
      NoClose(t[1..], if !esc && t[0] == '"' then !inQuote else inQuote, !esc && t[0] == '\\');
    }
  }

  lemma {:induction false} NowhereFound(t: string, pattern: string, i: nat)
    requires i <= |t| && forall j: nat :: !StandsAt(t, pattern, j)
    ensures Find(t, pattern, i) == None
    decreases |t| - i
  {
    assert !StandsAt(t, pattern, i);
    if i < |t| { NowhereFound(t, pattern, i + 1); }
  }

  /** Without the quoted key, or without both brackets, there is nothing. */
  lemma NothingExtracted(json: string, key: string)
    ensures key == "" && ('[' !in json || ']' !in json) ==> Extracted(json, key) == []
    ensures key != "" && (forall j: nat :: !StandsAt(json, Quoted(key), j)) ==> Extracted(json, key) == []
  {
    hide CloseOffset, Strings, Find, StandsAt;
    if key == "" {
      var open := CharOffset(json, '[');
      if open.Some? && ']' !in json { NoClose(json[open.value + 1..], false, false); }
    } else if forall j: nat :: !StandsAt(json, Quoted(key), j) {
      NowhereFound(json, Quoted(key), 0);
    }
  }
}
