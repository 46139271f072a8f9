/** The rewrite of hyphenated Unity assembly names: a lexer that turns the chain
    dynamic.unity.assembly.A-B into dynamic.unity.assembly["A-B"] in code and nowhere else. */
module UnityPreprocess {
  import opened Common

  datatype State =
    | Code | SingleQuote | DoubleQuote | Template | LineComment | BlockComment | Regex | RegexClass

  const PREFIX := "dynamic.unity.assembly."

  predicate Alpha(c: char) {
    'a' <= c <= 'z' || 'A' <= c <= 'Z'
  }

  predicate IdentChar(c: char) {
    Alpha(c) || '0' <= c <= '9' || c == '_' || c == '$'
  }

  predicate NameChar(c: char) {
    IdentChar(c) || c == '-'
  }

  predicate Blank(c: char) {
    c == ' ' || c == '\t' || c == '\r' || c == '\n'
  }

  predicate Opens(c: char) {
    c in "=([{,:;!&|?+-*%^~<>"
  }

  /** May a slash at p begin a regular expression? The last character that is not blank decides. */
  function RegexContext(s: string, p: nat): bool
    requires p <= |s|
  {
    if p == 0 then true
    else if Blank(s[p - 1]) then RegexContext(s, p - 1)
    else Opens(s[p - 1])
  }

  method IsUnityRegexContext(input: string, slash: nat) returns (r: bool)
    requires slash <= |input|
    ensures r == RegexContext(input, slash)
  {
    var p: nat := slash;
    while p > 0
      invariant p <= slash
      invariant RegexContext(input, slash) == RegexContext(input, p)
    {
      var c := input[p - 1];
      if Blank(c) {
        p := p - 1;
        continue;
      }
      return Opens(c);
    }
    return true;
  }

  /** The end of the run of characters with property p that begins at i. */
  function RunEnd(s: string, i: nat, p: char -> bool): (e: nat)
    requires i <= |s|
    ensures i <= e <= |s| && (e < |s| ==> !p(s[e]))
    ensures forall j :: i <= j < e ==> p(s[j])
    decreases |s| - i
  {
    if i < |s| && p(s[i]) then RunEnd(s, i + 1, p) else i
  }

  lemma {:induction false} RunEndIs(s: string, i: nat, p: char -> bool, e: nat)
    requires i <= e <= |s| && (e < |s| ==> !p(s[e]))
    requires forall k :: i <= k < e ==> p(s[k])
    ensures RunEnd(s, i, p) == e
    decreases e - i
  {
    if i < e { RunEndIs(s, i + 1, p, e); }
  }

  // ----- Chains -----

  predicate HasPrefix(s: string, i: nat) {
    i + |PREFIX| <= |s| && s[i..i + |PREFIX|] == PREFIX
  }

  predicate Boundary(s: string, i: nat)
    requires i <= |s|
  {
    i == 0 || !IdentChar(s[i - 1])
  }

  predicate ChainAt(s: string, i: nat) {
    HasPrefix(s, i) && Boundary(s, i)
  }

  function ChainEnd(s: string, i: nat): (e: nat)
    requires HasPrefix(s, i)
    ensures i + |PREFIX| <= e <= |s|
  {
    RunEnd(s, i + |PREFIX|, NameChar)
  }

  function Name(s: string, i: nat): string
    requires HasPrefix(s, i)
  {
    s[i + |PREFIX|..ChainEnd(s, i)]
  }

  predicate Rewritten(s: string, i: nat) {
    ChainAt(s, i) && '-' in Name(s, i)
  }

  function Bracketed(name: string): string {
    "dynamic.unity.assembly[\"" + name + "\"]"
  }

  // ----- The lexer without the rewrite -----

  datatype Move = Move(to: nat, state: State)

  function Delimiter(st: State): char {
    if st == SingleQuote then '\'' else if st == DoubleQuote then '"' else '`'
  }

  predicate Second(s: string, i: nat, c: char) {
    i + 1 < |s| && s[i + 1] == c
  }

  function LexCode(s: string, i: nat): Move
    requires i < |s|
  {
    var c := s[i];
    if c == '/' && Second(s, i, '/') then Move(i + 2, LineComment)
    else if c == '/' && Second(s, i, '*') then Move(i + 2, BlockComment)
    else if c == '\'' then Move(i + 1, SingleQuote)
    else if c == '"' then Move(i + 1, DoubleQuote)
    else if c == '`' then Move(i + 1, Template)
    else if c == '/' && RegexContext(s, i) then Move(i + 1, Regex)
    else Move(i + 1, Code)
  }

  function LexStep(s: string, i: nat, st: State): (m: Move)
    requires i < |s|
    ensures i < m.to <= |s|
  {
    var c := s[i];
    match st
    case Code => LexCode(s, i)
    case LineComment => Move(i + 1, if c == '\n' then Code else LineComment)
    case BlockComment => if c == '*' && Second(s, i, '/') then Move(i + 2, Code) else Move(i + 1, BlockComment)
    case Regex =>
      if c == '\\' && i + 1 < |s| then Move(i + 2, Regex)
      else if c == '[' then Move(i + 1, RegexClass)
      else if c == '/' then Move(RunEnd(s, i + 1, Alpha), Code)
      else Move(i + 1, if c == '\n' then Code else Regex)
    case RegexClass =>
      if c == '\\' && i + 1 < |s| then Move(i + 2, RegexClass)
      else Move(i + 1, if c == ']' then Regex else RegexClass)
    case _ =>
      if c == '\\' && i + 1 < |s| then Move(i + 2, st)
      else Move(i + 1, if c == Delimiter(st) then Code else st)
  }

  // ----- The scan -----

  predicate ChainHere(s: string, i: nat, st: State) {
    st == Code && ChainAt(s, i)
  }

  function Next(s: string, i: nat, st: State): (m: Move)
    requires i < |s|
    ensures i < m.to <= |s|
  {
    if ChainHere(s, i, st) then Move(ChainEnd(s, i), Code) else LexStep(s, i, st)
  }

  /** What the scan writes for the step at i. */
  function Written(s: string, i: nat, st: State): string
    requires i < |s|
  {
    if st == Code && Rewritten(s, i) then Bracketed(Name(s, i)) else s[i..Next(s, i, st).to]
  }

  function Scan(s: string, i: nat, st: State): string
    requires i <= |s|
    decreases |s| - i
  {
    if i == |s| then ""
    else Written(s, i, st) + Scan(s, Next(s, i, st).to, Next(s, i, st).state)
  }

  function Preprocessed(s: string): string {
    Scan(s, 0, Code)
  }

  lemma ScanStep(s: string, i: nat, st: State)
    requires i <= |s|
    ensures i == |s| ==> Scan(s, i, st) == ""
    ensures i < |s| ==> Scan(s, i, st) == Written(s, i, st) + Scan(s, Next(s, i, st).to, Next(s, i, st).state)
  {
    hide Written, Next;
  }

  // ----- The program -----

  method PreprocessUnityLine(input: string) returns (out: string)
    ensures out == Preprocessed(input)
  {
    hide *;
    var state := Code;
    out := "";
    var i := 0;
    ScanFromStart(input);
    while i < |input|
      invariant 0 <= i <= |input|
      invariant out + Scan(input, i, state) == Preprocessed(input)
    {
      ScanStep(input, i, state);
      ghost var from, was, rest := i, out, Scan(input, Next(input, i, state).to, Next(input, i, state).state);
      Glue(out, Written(input, i, state), rest);
      if state == Code {
        i, state, out := CodeStep(input, i, out);
      } else {
        i, state, out := OtherStep(input, i, state, out);
      }
    }
    ScanStep(input, i, state);
    assert out + "" == out;
  }

  lemma ScanFromStart(s: string)
    ensures "" + Scan(s, 0, Code) == Preprocessed(s)
  {
  }

  /** One round of the loop in code state. */
  method CodeStep(input: string, from: nat, was: string) returns (i: nat, state: State, out: string)
    requires from < |input|
    ensures Move(i, state) == Next(input, from, Code)
    ensures out == was + Written(input, from, Code)
  {
    hide RunEnd, RegexContext, HasPrefix, Boundary, Bracketed;
    i, state, out := from, Code, was;
    var c := input[i];
    PrefixBeginsWithD(input, i);
    FirstTwo(input, i);
    if c == '/' && i + 1 < |input| && input[i + 1] == '/' {
      return i + 2, LineComment, out + "//";
    }
    if c == '/' && i + 1 < |input| && input[i + 1] == '*' {
      return i + 2, BlockComment, out + "/*";
    }
    if c == '\'' {
      return i + 1, SingleQuote, out + [c];
    }
    if c == '"' {
      return i + 1, DoubleQuote, out + [c];
    }
    if c == '`' {
      return i + 1, Template, out + [c];
    }
    if c == '/' {
      var regex := IsUnityRegexContext(input, i);
      if regex {
        return i + 1, Regex, out + [c];
      }
    }
    if HasPrefix(input, i) && Boundary(input, i) {
      i, out := ChainStep(input, i, out);
      return;
    }
    out := out + [c];
    i := i + 1;
  }

  lemma PrefixBeginsWithD(s: string, i: nat)
    requires HasPrefix(s, i)  || i < |s|
    ensures HasPrefix(s, i) ==> s[i] == 'd' && i < |s|
  {
    if HasPrefix(s, i) { assert s[i] == s[i..i + |PREFIX|][0]; }
  }

  /** The part of the round that reads a chain. */
  method ChainStep(input: string, from: nat, was: string) returns (i: nat, out: string)
    requires ChainAt(input, from)
    ensures i == ChainEnd(input, from)
    ensures out == was + Written(input, from, Code)
  {
    hide Boundary, RegexContext, LexStep;
    var nameStart := from + |PREFIX|;
    var nameEnd := nameStart;
    while nameEnd < |input| && NameChar(input[nameEnd])
      invariant nameStart <= nameEnd <= |input|
      invariant RunEnd(input, nameEnd, NameChar) == RunEnd(input, nameStart, NameChar)
    {
      nameEnd := nameEnd + 1;
    }
    var name := input[nameStart..nameEnd];
    if name != "" && '-' in name {
      out := was + "dynamic.unity.assembly[\"";
      out := out + name;
      out := out + "\"]";
      BracketedParts(was, name);
    } else {
      out := was + input[from..nameEnd];
    }
    i := nameEnd;
  }

  lemma BracketedParts(was: string, name: string)
    ensures was + "dynamic.unity.assembly[\"" + name + "\"]" == was + Bracketed(name)
  {
  }

  /** The loop that copies the flags behind a regular expression. */
  method FlagsStep(input: string, from: nat, was: string) returns (i: nat, out: string)
    requires from <= |input|
    ensures i == RunEnd(input, from, Alpha)
    ensures out == was + input[from..i]
  {
    i, out := from, was;
    while i < |input| && Alpha(input[i])
      invariant from <= i <= |input|
      invariant RunEnd(input, i, Alpha) == RunEnd(input, from, Alpha)
      invariant out == was + input[from..i]
    {
      assert input[from..i] + [input[i]] == input[from..i + 1];
      out := out + [input[i]];
      i := i + 1;
    }
  }

  lemma FirstTwo(s: string, i: nat)
    requires i < |s|
    ensures s[i..i + 1] == [s[i]]
    ensures i + 1 < |s| ==> s[i..i + 2] == [s[i]] + [s[i + 1]]
  {
  }

  lemma OutsideCode(s: string, i: nat, st: State)
    requires i < |s| && st != Code
    ensures Next(s, i, st) == LexStep(s, i, st)
    ensures Written(s, i, st) == s[i..LexStep(s, i, st).to]
  {
    hide LexStep;
  }

  /** One round of the loop in any other state. */
  method OtherStep(input: string, from: nat, st: State, was: string) returns (i: nat, state: State, out: string)
    requires from < |input| && st != Code
    ensures Move(i, state) == Next(input, from, st)
    ensures out == was + Written(input, from, st)
  {
    hide Next, Written, RunEnd, LexCode;
    i, state, out := from, st, was;
    var c := input[i];
    OutsideCode(input, from, st);
    FirstTwo(input, from);
    if state == LineComment {
      out := out + [c];
      i := i + 1;
      if c == '\n' { state := Code; }
      return;
    }
    if state == BlockComment {
      out := out + [c];
      i := i + 1;
      if c == '*' && i < |input| && input[i] == '/' {
        out := out + ['/'];
        i := i + 1;
        state := Code;
      }
      return;
    }
    if (state == Regex || state == RegexClass) && c == '\\' && i + 1 < |input| {
      out := out + [c];
      out := out + [input[i + 1]];
      i := i + 2;
      return;
    }
    if state == Regex {
      out := out + [c];
      i := i + 1;
      if c == '[' {
        state := RegexClass;
      } else if c == '/' {
        i, out := FlagsStep(input, i, out);
        state := Code;
      } else if c == '\n' {
        state := Code;
      }
      return;
    }
    if state == RegexClass {
      out := out + [c];
      i := i + 1;
      if c == ']' { state := Regex; }
      return;
    }
    out := out + [c];
    i := i + 1;
    if c == '\\' && i < |input| {
      out := out + [input[i]];
      i := i + 1;
      return;
    }
    if (state == SingleQuote && c == '\'') || (state == DoubleQuote && c == '"') || (state == Template && c == '`') {
      state := Code;
    }
  }
}
