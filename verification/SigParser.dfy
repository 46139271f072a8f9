/** The argument types in a JNI method signature. */
module SigParser {
  import opened Common

  // ----- Well-formed signatures -----

  datatype Kind = Primitive(letter: char) | Class(name: string)

  /** An argument type: arrays of so many dimensions over a primitive type or a class. */
  datatype ArgType = ArgType(dimensions: nat, kind: Kind)

  predicate ProperKind(k: Kind) {
    match k
    case Primitive(c) => c !in "[L)"
    case Class(name) => ';' !in name && ')' !in name
  }

  predicate AllProper(types: seq<ArgType>) {
    forall k :: 0 <= k < |types| ==> ProperKind(types[k].kind)
  }

  function KindText(k: Kind): (t: string)
    ensures t != ""
  {
    match k
    case Primitive(c) => [c]
    case Class(name) => "L" + name + ";"
  }

  function Brackets(n: nat): (t: string)
    ensures |t| == n && forall k :: 0 <= k < n ==> t[k] == '['
  {
    if n == 0 then "" else "[" + Brackets(n - 1)
  }

  function Descriptor(t: ArgType): (d: string)
    ensures d != ""
  {
    Brackets(t.dimensions) + KindText(t.kind)
  }

  function Descriptors(types: seq<ArgType>): seq<string> {
    if types == [] then [] else [Descriptor(types[0])] + Descriptors(types[1..])
  }

  function Joined(texts: seq<string>): string {
    if texts == [] then "" else texts[0] + Joined(texts[1..])
  }

  // ----- The parser -----

  function Find(s: string, c: char, i: nat): (r: Option<nat>)
    requires i <= |s|
    ensures r.Some? ==> i <= r.value < |s| && s[r.value] == c && c !in s[i..r.value]
    ensures r.None? ==> c !in s[i..]
    decreases |s| - i
  {
    if i == |s| then None else if s[i] == c then Some(i) else Find(s, c, i + 1)
  }

  /** The end of the run of brackets from i on. */
  function Dimensions(sig: string, i: nat, end: nat): (e: nat)
    requires i <= end <= |sig|
    ensures i <= e <= end && (e < end ==> sig[e] != '[')
    ensures forall k :: i <= k < e ==> sig[k] == '['
    decreases end - i
  {
    if i < end && sig[i] == '[' then Dimensions(sig, i + 1, end) else i
  }

  /** The last character of the type that begins at i. A class name without its semicolon is read as
      the letter alone. */
  function TypeLast(sig: string, i: nat, end: nat): (e: nat)
    requires i < end < |sig|
    ensures i <= e <= end
  {
    var d := Dimensions(sig, i, end);
    if d < end && sig[d] == 'L' then
      var semi := Find(sig, ';', d);
      if semi.Some? && semi.value < end then semi.value else d
    else d
  }

  function TypesFrom(sig: string, i: nat, end: nat): seq<string>
    requires end < |sig|
    decreases end + 1 - i
  {
    if end <= i then []
    else
      var last := TypeLast(sig, i, end);
      [sig[i..last + 1]] + TypesFrom(sig, last + 1, end)
  }

  function Parsed(sig: string): seq<string> {
    var start, end := Find(sig, '(', 0), Find(sig, ')', 0);
    if start.None? || end.None? || end.value <= start.value then []
    else TypesFrom(sig, start.value + 1, end.value)
  }

  method ParseJavaArgTypes(sig: string) returns (types: seq<string>)
    ensures types == Parsed(sig)
  {
    hide Find, TypeLast, TypesFrom;
    types := [];
    var start, end := Find(sig, '(', 0), Find(sig, ')', 0);
    if start.None? || end.None? || end.value <= start.value { return; }
    var i := start.value + 1;
    while i < end.value
      invariant 0 <= i <= end.value + 1
      invariant types + TypesFrom(sig, i, end.value) == Parsed(sig)
      decreases end.value + 1 - i
    {
      TypesStep(sig, i, end.value);
      var type_start := i;
      i := SkipType(sig, i, end.value);
      var one := sig[type_start..i + 1];
      Glue(types, [one], TypesFrom(sig, i + 1, end.value));
      types := types + [one];
      i := i + 1;
    }
    TypesStep(sig, i, end.value);
    AddNothing(types);
  }

  lemma TypesStep(sig: string, i: nat, end: nat)
    requires end < |sig|
    ensures end <= i ==> TypesFrom(sig, i, end) == []
    ensures i < end ==> var last := TypeLast(sig, i, end);
      TypesFrom(sig, i, end) == [sig[i..last + 1]] + TypesFrom(sig, last + 1, end)
  {
    hide TypeLast;
  }

  method SkipType(sig: string, from: nat, end: nat) returns (i: nat)
    requires from < end < |sig|
    ensures i == TypeLast(sig, from, end)
  {
    i := from;
    while i < end && sig[i] == '['
      invariant from <= i <= end && Dimensions(sig, i, end) == Dimensions(sig, from, end)
    {
      i := i + 1;
    }
    if i < end && sig[i] == 'L' {
      var semi := Find(sig, ';', i);
      if semi.Some? && semi.value < end {
        i := semi.value;
      }
    }
  }

  // ----- Every well-formed signature is read back -----

  /** The text stands in sig at i. */
  predicate Stands(sig: string, i: nat, t: string) {
    i + |t| <= |sig| && sig[i..i + |t|] == t
  }

  lemma StandsAt(sig: string, i: nat, t: string, k: nat)
    requires Stands(sig, i, t) && k < |t|
    ensures sig[i + k] == t[k]
  {
    assert sig[i + k] == sig[i..i + |t|][k];
  }

  lemma StandsSplit(sig: string, i: nat, a: string, b: string)
    requires Stands(sig, i, a + b)
    ensures Stands(sig, i, a) && Stands(sig, i + |a|, b)
  {
    var t := sig[i..i + |a + b|];
    assert sig[i..i + |a|] == t[..|a|] == a;
    assert sig[i + |a|..i + |a| + |b|] == t[|a|..] == b;
  }

  lemma {:induction false} DimensionsAre(sig: string, i: nat, end: nat, e: nat)
    requires i <= e <= end <= |sig| && (e < end ==> sig[e] != '[')
    requires forall k :: i <= k < e ==> sig[k] == '['
    ensures Dimensions(sig, i, end) == e
    decreases e - i
  {
    if i < e { DimensionsAre(sig, i + 1, end, e); }
  }

  lemma {:induction false} FindIs(s: string, c: char, i: nat, at: nat)
    requires i <= at < |s| && s[at] == c && forall k :: i <= k < at ==> s[k] != c
    ensures Find(s, c, i) == Some(at)
    decreases at - i
  {
    if i < at { FindIs(s, c, i + 1, at); }
  }

  lemma BracketsStand(sig: string, i: nat, n: nat)
    requires Stands(sig, i, Brackets(n))
    ensures forall k :: i <= k < i + n ==> sig[k] == '['
  {
    forall k | i <= k < i + n
      ensures sig[k] == '['
    {
      StandsAt(sig, i, Brackets(n), k - i);
    }
  }

  lemma SemicolonOf(sig: string, d: nat, name: string)
    requires Stands(sig, d, "L" + name + ";") && ';' !in name
    ensures sig[d] == 'L' && Find(sig, ';', d) == Some(d + |name| + 1)
  {
    hide Stands, Find;
    StandsText(sig, d, "L" + name + ";");
    var t := "L" + name + ";";
    StandsAt(sig, d, t, 0);
    forall k | d <= k < d + |name| + 1
      ensures sig[k] != ';'
    {
      StandsAt(sig, d, t, k - d);
    }
    StandsAt(sig, d, t, |name| + 1);
    FindIs(sig, ';', d, d + |name| + 1);
  }

  lemma TypeLastIs(sig: string, i: nat, end: nat, t: ArgType)
    requires ProperKind(t.kind) && Stands(sig, i, Descriptor(t)) && i + |Descriptor(t)| <= end < |sig|
    ensures TypeLast(sig, i, end) == i + |Descriptor(t)| - 1
  {
    hide Find, Dimensions, Stands, Brackets;
    var d := i + t.dimensions;
    StandsSplit(sig, i, Brackets(t.dimensions), KindText(t.kind));
    BracketsStand(sig, i, t.dimensions);
    StandsAt(sig, d, KindText(t.kind), 0);
    DimensionsAre(sig, i, end, d);
    match t.kind
    case Primitive(c) =>
    case Class(name) => SemicolonOf(sig, d, name);
  }

  lemma {:induction false} TypesAre(sig: string, i: nat, end: nat, types: seq<ArgType>)
    requires AllProper(types) && Stands(sig, i, Joined(Descriptors(types)))
    requires end == i + |Joined(Descriptors(types))| < |sig|
    ensures TypesFrom(sig, i, end) == Descriptors(types)
    decreases |types|
  {
    hide TypesFrom, TypeLast, Descriptor, Stands, ProperKind;
    TypesStep(sig, i, end);
    if types != [] {
      var first, rest := Descriptor(types[0]), Joined(Descriptors(types[1..]));
      JoinedStep(types);
      StandsSplit(sig, i, first, rest);
      TypeLastIs(sig, i, end, types[0]);
      TypesAre(sig, i + |first|, end, types[1..]);
      StandsText(sig, i, first);
    }
  }

  lemma StandsText(sig: string, i: nat, t: string)
    requires Stands(sig, i, t)
    ensures i + |t| <= |sig| && sig[i..i + |t|] == t
  {
  }

  lemma JoinedStep(types: seq<ArgType>)
    requires types != []
    ensures Joined(Descriptors(types)) == Descriptor(types[0]) + Joined(Descriptors(types[1..]))
  {
    hide Descriptor;
    assert Descriptors(types)[1..] == Descriptors(types[1..]);
  }

  lemma {:induction false} NoParenthesis(types: seq<ArgType>)
    requires AllProper(types)
    ensures ')' !in Joined(Descriptors(types))
  {
    hide Descriptor, Descriptors, Joined, ProperKind;
    if types == [] {
      NothingJoined();
    } else {
      JoinedStep(types);
      NoParenthesis(types[1..]);
      NoParenthesisIn(types[0]);
    }
  }

  lemma NothingJoined()
    ensures Joined(Descriptors([])) == ""
  {
  }

  lemma NoParenthesisIn(t: ArgType)
    requires ProperKind(t.kind)
    ensures ')' !in Descriptor(t)
  {
  }

  /** Parsing a signature gives the descriptors of its argument types, one by one and in order. */
  lemma ParsesDescriptors(types: seq<ArgType>, result: string)
    requires AllProper(types)
    ensures Parsed("(" + Joined(Descriptors(types)) + ")" + result) == Descriptors(types)
  {
    hide Find, TypesFrom, Joined, Descriptors, AllProper;
    var args := Joined(Descriptors(types));
    var sig := "(" + args + ")" + result;
    NoParenthesis(types);
    FindIs(sig, '(', 0, 0);
    forall k | 0 <= k < |args| + 1
      ensures sig[k] != ')'
    {
      if k > 0 { assert sig[k] == args[k - 1]; }
    }
    FindIs(sig, ')', 0, |args| + 1);
    assert sig[1..1 + |args|] == args;
    TypesAre(sig, 1, |args| + 1, types);
  }

  // ----- Any signature -----

  /** One type, well formed or not: its brackets and one character more, or a class name up to the first
      semicolon when there is one before the end. Brackets that run up to the end take the closing
      parenthesis along. */
  lemma TypeIs(sig: string, i: nat, end: nat) returns (k: nat)
    requires i < end < |sig|
    ensures i <= k <= end && (forall j :: i <= j < k ==> sig[j] == '[') && (k < end ==> sig[k] != '[')
    ensures var last := TypeLast(sig, i, end);
      if k < end && sig[k] == 'L' && ';' in sig[k..end] then
        k < last < end && sig[last] == ';' && ';' !in sig[k..last]
      else last == k
  {
    hide Find;
    k := Dimensions(sig, i, end);
    FindWithin(sig, ';', k, end);
  }

  lemma {:induction false} FindWithin(s: string, c: char, i: nat, end: nat)
    requires i <= end <= |s|
    ensures c in s[i..end] <==> Find(s, c, i).Some? && Find(s, c, i).value < end
    decreases end - i
  {
    if i < end {
      FindWithin(s, c, i + 1, end);
      assert s[i..end] == [s[i]] + s[i + 1..end];
    }
  }

  /** The types are the text between the parentheses cut into pieces: nothing is lost and nothing added,
      but for the closing parenthesis behind an open bracket. */
  lemma {:induction false} TypesJoined(sig: string, i: nat, end: nat) returns (e: nat)
    requires i <= end < |sig|
    ensures e == end || (e == end + 1 && 0 < end && sig[end - 1] == '[')
    ensures i <= e && Joined(TypesFrom(sig, i, end)) == sig[i..e]
    decreases end - i
  {
    hide TypesFrom, TypeLast;
    TypesStep(sig, i, end);
    if i == end {
      e := end;
    } else {
      var last := TypeLast(sig, i, end);
      var k := TypeIs(sig, i, end);
      if last == end {
        TypesStep(sig, end + 1, end);
        e := end + 1;
        assert [sig[i..e]] + [] == [sig[i..e]];
        AddNothing(sig[i..e]);
      } else {
        e := TypesJoined(sig, last + 1, end);
        assert sig[i..e] == sig[i..last + 1] + sig[last + 1..e];
      }
      assert ([sig[i..last + 1]] + TypesFrom(sig, last + 1, end))[1..] == TypesFrom(sig, last + 1, end);
    }
  }

  /** Without a pair of parentheses in this order there are no types. */
  lemma NoTypes(sig: string)
    requires '(' !in sig || ')' !in sig || (exists e :: 0 <= e < |sig| && sig[e] == ')' && '(' !in sig[..e])
    ensures Parsed(sig) == []
  {
    hide TypesFrom;
    assert sig[0..] == sig;
    var start, end := Find(sig, '(', 0), Find(sig, ')', 0);
    if start.Some? && end.Some? {
      assert sig[start.value] in sig && sig[end.value] in sig;
      var e :| 0 <= e < |sig| && sig[e] == ')' && '(' !in sig[..e];
      EarlierParenthesis(sig, start.value, end.value, e);
    }
  }

  lemma EarlierParenthesis(sig: string, start: nat, end: nat, e: nat)
    requires start < |sig| && sig[start] == '(' && end < |sig| && sig[end] == ')' && ')' !in sig[0..end]
    requires e < |sig| && sig[e] == ')' && '(' !in sig[..e]
    ensures end < start
  {
    if start < e { InFront(sig, e, start); }
    if e < end { InFront(sig, end, e); }
    assert sig[0..end] == sig[..end];
  }

  lemma InFront(s: string, n: nat, k: nat)
    requires k < n <= |s|
    ensures s[k] in s[..n]
  {
    assert s[..n][k] == s[k];
  }
}
