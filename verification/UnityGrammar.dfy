/** What the rewrite does to a text that is put together from code, literals, comments and chains. The
    pieces are described by themselves, without the lexer. */
module UnityGrammar {
  import opened Common
  import opened UnityPreprocess
  import opened UnityProperties

  // ----- Pieces of a text -----

  /** A line comment may end with the text instead of a newline; a pattern that a newline breaks off is over. */
  datatype Piece =
    | Char(c: char)
    | Chain(name: string)
    | Division
    | Quoted(q: char, u: string)
    | Line(u: string, ended: bool)
    | Block(u: string)
    | Pattern(u: string, flags: string)
    | Broken(u: string)

  function Text(p: Piece): string {
    match p
    case Char(c) => [c]
    case Chain(name) => "dynamic.unity.assembly." + name
    case Division => "/"
    case Quoted(q, u) => [q] + u + [q]
    case Line(u, ended) => "//" + u + if ended then "\n" else ""
    case Block(u) => "/*" + u + "*/"
    case Pattern(u, flags) => "/" + u + "/" + flags
    case Broken(u) => "/" + u + "\n"
  }

  /** What the output has for the piece: only a chain with a hyphen is written differently. */
  function Result(p: Piece): string {
    if p.Chain? && '-' in p.name then "dynamic.unity.assembly[\"" + p.name + "\"]" else Text(p)
  }

  predicate Letter(c: char) {
    'a' <= c <= 'z' || 'A' <= c <= 'Z'
  }

  predicate AllLetters(t: string) {
    forall k :: 0 <= k < |t| ==> Letter(t[k])
  }

  predicate Word(c: char) {
    Letter(c) || '0' <= c <= '9' || c == '_' || c == '$'
  }

  /** No quotation mark q, unless behind a backslash, and no backslash at the end. */
  predicate QuoteFree(u: string, q: char)
    decreases |u|
  {
    u == "" || if u[0] == '\\' then |u| >= 2 && QuoteFree(u[2..], q) else u[0] != q && QuoteFree(u[1..], q)
  }

  /** No slash and no newline outside a class, classes closed, and no backslash at the end. */
  predicate PatternFree(u: string, inClass: bool)
    decreases |u|
  {
    if u == "" then !inClass
    else if u[0] == '\\' then |u| >= 2 && PatternFree(u[2..], inClass)
    else if inClass then PatternFree(u[1..], u[0] != ']')
    else u[0] != '/' && u[0] != '\n' && PatternFree(u[1..], u[0] == '[')
  }

  /** The comment does not end before its last two characters. */
  predicate CommentFree(u: string) {
    forall k :: 0 <= k < |u| ==> !EndsComment(u + "*/", k)
  }

  predicate EndsComment(t: string, k: nat)
    requires k + 1 < |t|
  {
    t[k] == '*' && t[k + 1] == '/'
  }

  predicate Stands(s: string, i: nat, t: string) {
    i + |t| <= |s| && s[i..i + |t|] == t
  }

  predicate NoWordBefore(s: string, i: nat)
    requires i <= |s|
  {
    i == 0 || !Word(s[i - 1])
  }

  /** The text without the blanks at its end. */
  function Trimmed(t: string): string {
    if t != "" && t[|t| - 1] in " \t\r\n" then Trimmed(t[..|t| - 1]) else t
  }

  /** Nothing, or an operator, comes before a slash that begins a pattern. */
  predicate OperatorBefore(s: string, i: nat)
    requires i <= |s|
  {
    var t := Trimmed(s[..i]);
    t == "" || t[|t| - 1] in "=([{,:;!&|?+-*%^~<>"
  }

  predicate NextIn(s: string, e: nat, chars: string) {
    e < |s| && s[e] in chars
  }

  /** The piece stands at i, and what is around it makes it this piece. */
  predicate Fits(s: string, i: nat, p: Piece) {
    Stands(s, i, Text(p)) &&
    var e := i + |Text(p)|;
    match p
    case Char(c) => c !in "'\"`/" && !(Stands(s, i, "dynamic.unity.assembly.") && NoWordBefore(s, i))
    case Chain(name) =>
      && NoWordBefore(s, i) && (forall k :: 0 <= k < |name| ==> Word(name[k]) || name[k] == '-')
      && (e < |s| ==> !Word(s[e]) && s[e] != '-')
    case Division => !OperatorBefore(s, i) && !NextIn(s, e, "/*")
    case Quoted(q, u) => q in "'\"`" && QuoteFree(u, q)
    case Line(u, ended) => '\n' !in u && (!ended ==> e == |s|)
    case Block(u) => CommentFree(u)
    case Pattern(u, flags) =>
      && OperatorBefore(s, i) && u != "" && u[0] != '*' && PatternFree(u, false)
      && AllLetters(flags) && (e < |s| ==> !Letter(s[e]))
    case Broken(u) => OperatorBefore(s, i) && (u != "" ==> u[0] != '*') && PatternFree(u, false)
  }

  /** The pieces make up the text from i on. */
  predicate Tiles(s: string, i: nat, pieces: seq<Piece>)
    decreases |pieces|
  {
    if pieces == [] then i == |s|
    else Fits(s, i, pieces[0]) && Tiles(s, i + |Text(pieces[0])|, pieces[1..])
  }

  function Results(pieces: seq<Piece>): string {
    if pieces == [] then "" else Result(pieces[0]) + Results(pieces[1..])
  }

  // ----- The lexer's classes of characters -----

  lemma Classes(c: char)
    ensures Letter(c) <==> Alpha(c)
    ensures Word(c) <==> IdentChar(c)
    ensures Word(c) || c == '-' <==> NameChar(c)
    ensures c in " \t\r\n" <==> Blank(c)
  {
  }

  lemma {:induction false} ContextIs(s: string, i: nat)
    requires i <= |s|
    ensures OperatorBefore(s, i) <==> RegexContext(s, i)
  {
    if i > 0 {
      assert s[..i][..i - 1] == s[..i - 1];
      Classes(s[i - 1]);
      ContextIs(s, i - 1);
    }
  }

  // ----- Text that the scan copies -----

  /** The scan goes from i in state st to e in state to, copies what is between, and takes no chain. */
  ghost predicate Passes(s: string, i: nat, st: State, e: nat, to: State) {
    && i <= e <= |s|
    && Scan(s, i, st) == s[i..e] + Scan(s, e, to) && Chains(s, i, st) == Chains(s, e, to)
    && forall j :: e <= j ==> StateAt(s, i, st, j) == StateAt(s, e, to, j)
  }

  lemma PassNothing(s: string, i: nat, st: State)
    requires i <= |s|
    ensures Passes(s, i, st, i, st)
  {
    hide Scan, Chains, StateAt;
    assert s[i..i] + Scan(s, i, st) == Scan(s, i, st);
  }

  lemma PassOn(s: string, i: nat, st: State, e: nat, to: State, f: nat, last: State)
    requires Passes(s, i, st, e, to) && Passes(s, e, to, f, last)
    ensures Passes(s, i, st, f, last)
  {
    hide Scan, Chains, StateAt;
    Glue(s[i..e], s[e..f], Scan(s, f, last));
    assert s[i..e] + s[e..f] == s[i..f];
  }

  lemma PassStep(s: string, i: nat, st: State)
    requires i < |s| && !ChainHere(s, i, st)
    ensures Passes(s, i, st, LexStep(s, i, st).to, LexStep(s, i, st).state)
  {
    hide Scan, Chains, StateAt, LexStep, ChainHere, Next, Written;
    NextOutsideChain(s, i, st);
    ScanStep(s, i, st);
    ChainsStep(s, i, st);
    var m := LexStep(s, i, st);
    forall j | m.to <= j ensures StateAt(s, i, st, j) == StateAt(s, m.to, m.state, j) {
      StateStep(s, i, st, j);
    }
  }

  /** One step and then the rest. */
  lemma PassFirst(s: string, i: nat, st: State, m: nat, next: State, e: nat, to: State)
    requires i < |s| && !ChainHere(s, i, st) && LexStep(s, i, st) == Move(m, next) && Passes(s, m, next, e, to)
    ensures Passes(s, i, st, e, to)
  {
    hide Passes, LexStep, ChainHere;
    PassStep(s, i, st);
    PassOn(s, i, st, m, next, e, to);
  }

  lemma StandsAt(s: string, i: nat, t: string, k: nat)
    requires Stands(s, i, t) && k < |t|
    ensures i + k < |s| && s[i + k] == t[k]
  {
    assert s[i..i + |t|][k] == t[k];
  }

  lemma StandsRest(s: string, i: nat, t: string, n: nat)
    requires Stands(s, i, t) && n <= |t|
    ensures Stands(s, i + n, t[n..])
  {
    assert s[i + n..i + |t|] == s[i..i + |t|][n..];
  }

  lemma StandsFront(s: string, i: nat, t: string, n: nat)
    requires Stands(s, i, t) && n <= |t|
    ensures Stands(s, i, t[..n])
  {
    assert s[i..i + n] == s[i..i + |t|][..n];
  }

  // ----- Literals and comments -----

  lemma {:induction false} QuotedPasses(s: string, i: nat, st: State, u: string)
    requires st in {SingleQuote, DoubleQuote, Template}
    requires QuoteFree(u, Delimiter(st)) && Stands(s, i, u + [Delimiter(st)])
    ensures Passes(s, i, st, i + |u| + 1, Code)
    decreases |u|
  {
    hide Passes, Stands;
    var q := Delimiter(st);
    var t := u + [q];
    StandsAt(s, i, t, 0);
    if u == "" {
      assert q != '\\';
      PassStep(s, i, st);
    } else if u[0] == '\\' {
      StandsAt(s, i, t, 1);
      StandsRest(s, i, t, 2);
      assert t[2..] == u[2..] + [q];
      QuotedPasses(s, i + 2, st, u[2..]);
      PassFirst(s, i, st, i + 2, st, i + |u| + 1, Code);
    } else {
      StandsRest(s, i, t, 1);
      assert t[1..] == u[1..] + [q];
      QuotedPasses(s, i + 1, st, u[1..]);
      PassFirst(s, i, st, i + 1, st, i + |u| + 1, Code);
    }
  }

  /** A comment that ends with the text leaves nothing to scan, in whatever state. */
  lemma {:induction false} LineToEnd(s: string, i: nat, u: string)
    requires '\n' !in u && Stands(s, i, u) && i + |u| == |s|
    ensures Passes(s, i, LineComment, |s|, LineComment)
    decreases |u|
  {
    hide Passes, Stands;
    if u == "" {
      PassNothing(s, i, LineComment);
    } else {
      StandsAt(s, i, u, 0);
      StandsRest(s, i, u, 1);
      LineToEnd(s, i + 1, u[1..]);
      PassFirst(s, i, LineComment, i + 1, LineComment, |s|, LineComment);
    }
  }

  lemma {:induction false} LinePasses(s: string, i: nat, u: string)
    requires '\n' !in u && Stands(s, i, u + "\n")
    ensures Passes(s, i, LineComment, i + |u| + 1, Code)
    decreases |u|
  {
    hide Passes, Stands;
    var t := u + "\n";
    StandsAt(s, i, t, 0);
    if u == "" {
      PassStep(s, i, LineComment);
    } else {
      StandsRest(s, i, t, 1);
      assert t[1..] == u[1..] + "\n";
      LinePasses(s, i + 1, u[1..]);
      PassFirst(s, i, LineComment, i + 1, LineComment, i + |u| + 1, Code);
    }
  }

  lemma CommentRest(u: string)
    requires CommentFree(u) && u != ""
    ensures CommentFree(u[1..]) && !((u + "*/")[0] == '*' && (u + "*/")[1] == '/')
  {
    assert (u + "*/")[1..] == u[1..] + "*/";
    assert !EndsComment(u + "*/", 0);
    forall k | 0 <= k < |u[1..]| ensures !EndsComment(u[1..] + "*/", k) {
      assert !EndsComment(u + "*/", k + 1);
    }
  }

  lemma {:induction false} BlockPasses(s: string, i: nat, u: string)
    requires CommentFree(u) && Stands(s, i, u + "*/")
    ensures Passes(s, i, BlockComment, i + |u| + 2, Code)
    decreases |u|
  {
    hide Passes, Stands, CommentFree;
    var t := u + "*/";
    StandsAt(s, i, t, 0);
    StandsAt(s, i, t, 1);
    if u == "" {
      PassStep(s, i, BlockComment);
    } else {
      CommentRest(u);
      StandsRest(s, i, t, 1);
      assert t[1..] == u[1..] + "*/";
      BlockPasses(s, i + 1, u[1..]);
      PassFirst(s, i, BlockComment, i + 1, BlockComment, i + |u| + 2, Code);
    }
  }

  /** The body of a pattern is passed, up to what closes it. */
  lemma {:induction false} PatternPasses(s: string, i: nat, u: string, inClass: bool, e: nat)
    requires PatternFree(u, inClass) && Stands(s, i, u) && Passes(s, i + |u|, Regex, e, Code)
    ensures Passes(s, i, if inClass then RegexClass else Regex, e, Code)
    decreases |u|
  {
    hide Passes, Stands, RunEnd;
    var st := if inClass then RegexClass else Regex;
    if u != "" {
      StandsAt(s, i, u, 0);
      if u[0] == '\\' {
        StandsAt(s, i, u, 1);
        StandsRest(s, i, u, 2);
        PatternPasses(s, i + 2, u[2..], inClass, e);
        PassFirst(s, i, st, i + 2, st, e, Code);
      } else {
        var inside := if inClass then u[0] != ']' else u[0] == '[';
        StandsRest(s, i, u, 1);
        PatternPasses(s, i + 1, u[1..], inside, e);
        PassFirst(s, i, st, i + 1, if inside then RegexClass else Regex, e, Code);
      }
    }
  }

  lemma FlagsEnd(s: string, i: nat, flags: string)
    requires Stands(s, i, "/" + flags) && AllLetters(flags)
    requires var e := i + 1 + |flags|; e < |s| ==> !Letter(s[e])
    ensures i < |s| && RunEnd(s, i + 1, Alpha) == i + 1 + |flags|
  {
    hide Stands;
    StandsAt(s, i, "/" + flags, 0);
    StandsInside(s, i, "/" + flags);
    forall k | i + 1 <= k < i + 1 + |flags| ensures Alpha(s[k]) {
      StandsAt(s, i, "/" + flags, k - i);
      assert Letter(flags[k - i - 1]);
    }
    RunEndIs(s, i + 1, Alpha, i + 1 + |flags|);
  }

  lemma StandsInside(s: string, i: nat, t: string)
    requires Stands(s, i, t)
    ensures i + |t| <= |s| && s[i..i + |t|] == t
  {
  }

  // ----- The pieces -----

  /** A literal, a comment or a pattern: text in which nothing is rewritten. */
  predicate Literal(p: Piece) {
    p.Quoted? || p.Line? || p.Block? || p.Pattern? || p.Broken?
  }

  lemma NotAChain(s: string, i: nat, st: State)
    requires i < |s| && s[i] != 'd'
    ensures !ChainHere(s, i, st)
  {
    PrefixBeginsWithD(s, i);
  }

  lemma OpenQuoted(s: string, i: nat, q: char)
    requires i < |s| && s[i] == q && q in "'\"`"
    ensures var m := LexStep(s, i, Code);
      m.to == i + 1 && m.state in {SingleQuote, DoubleQuote, Template} && Delimiter(m.state) == q
  {
    hide RegexContext;
  }

  lemma OpenSlash(s: string, i: nat)
    requires i < |s| && s[i] == '/'
    ensures LexStep(s, i, Code) ==
      if NextIn(s, i + 1, "/") then Move(i + 2, LineComment)
      else if NextIn(s, i + 1, "*") then Move(i + 2, BlockComment)
      else Move(i + 1, if OperatorBefore(s, i) then Regex else Code)
  {
    hide RegexContext, OperatorBefore;
    ContextIs(s, i);
  }

  lemma QuotedKept(s: string, i: nat, q: char, u: string)
    requires Stands(s, i, [q] + u + [q]) && q in "'\"`" && QuoteFree(u, q)
    ensures Passes(s, i, Code, i + |u| + 2, Code)
  {
    hide Passes, Stands, QuoteFree, LexStep;
    var t := [q] + u + [q];
    StandsAt(s, i, t, 0);
    NotAChain(s, i, Code);
    OpenQuoted(s, i, q);
    StandsRest(s, i, t, 1);
    assert t[1..] == u + [q];
    var st := LexStep(s, i, Code).state;
    QuotedPasses(s, i + 1, st, u);
    PassFirst(s, i, Code, i + 1, st, i + |u| + 2, Code);
  }

  lemma LineKept(s: string, i: nat, u: string, ended: bool) returns (to: State)
    requires Fits(s, i, Line(u, ended))
    ensures Passes(s, i, Code, i + |Text(Line(u, ended))|, to)
    ensures to == Code || i + |Text(Line(u, ended))| == |s|
  {
    hide Passes, Stands, LexStep, OperatorBefore;
    var t := Text(Line(u, ended));
    StandsAt(s, i, t, 0);
    StandsAt(s, i, t, 1);
    NotAChain(s, i, Code);
    OpenSlash(s, i);
    StandsRest(s, i, t, 2);
    to := if ended then Code else LineComment;
    if ended {
      assert t[2..] == u + "\n";
      LinePasses(s, i + 2, u);
      PassFirst(s, i, Code, i + 2, LineComment, i + |t|, Code);
    } else {
      assert t[2..] == u;
      LineToEnd(s, i + 2, u);
      PassFirst(s, i, Code, i + 2, LineComment, |s|, LineComment);
    }
  }

  lemma BlockKept(s: string, i: nat, u: string)
    requires Stands(s, i, "/*" + u + "*/") && CommentFree(u)
    ensures Passes(s, i, Code, i + |u| + 4, Code)
  {
    hide Passes, Stands, LexStep, OperatorBefore, CommentFree;
    var t := "/*" + u + "*/";
    StandsAt(s, i, t, 0);
    StandsAt(s, i, t, 1);
    NotAChain(s, i, Code);
    OpenSlash(s, i);
    StandsRest(s, i, t, 2);
    assert t[2..] == u + "*/";
    BlockPasses(s, i + 2, u);
    PassFirst(s, i, Code, i + 2, BlockComment, i + |u| + 4, Code);
  }

  /** A slash behind the body closes the pattern and takes the letters behind it along. */
  lemma PatternKept(s: string, i: nat, u: string, flags: string)
    requires i <= |s| && Stands(s, i, "/" + u + "/" + flags) && OperatorBefore(s, i)
    requires u != "" && u[0] != '*' && PatternFree(u, false) && AllLetters(flags)
    requires var e := i + |u| + 2 + |flags|; e < |s| ==> !Letter(s[e])
    ensures Passes(s, i, Code, i + |u| + 2 + |flags|, Code)
  {
    hide Passes, Stands, PatternFree, LexStep, OperatorBefore, Letter, AllLetters, RunEnd;
    ClosePattern(s, i, u, flags);
    Glue("/" + u, "/", flags);
    BodyStands(s, i, u, "/" + flags);
    FirstOfPattern(u);
    StandsAt(s, i + 1, u, 0);
    OpenPattern(s, i, u, i + |u| + 2 + |flags|);
  }

  lemma ClosePattern(s: string, i: nat, u: string, flags: string)
    requires Stands(s, i, "/" + u + "/" + flags) && AllLetters(flags)
    requires var e := i + |u| + 2 + |flags|; e < |s| ==> !Letter(s[e])
    ensures Passes(s, i + 1 + |u|, Regex, i + |u| + 2 + |flags|, Code)
  {
    hide Passes, Stands, LexStep, Letter, AllLetters, RunEnd;
    var t, c := "/" + u + "/" + flags, i + 1 + |u|;
    StandsRest(s, i, t, 1 + |u|);
    assert t[1 + |u|..] == "/" + flags;
    FlagsEnd(s, c, flags);
    StandsAt(s, c, "/" + flags, 0);
    CloseSlash(s, c);
  }

  lemma CloseSlash(s: string, c: nat)
    requires c < |s| && s[c] == '/'
    ensures Passes(s, c, Regex, RunEnd(s, c + 1, Alpha), Code)
  {
    hide Passes, RunEnd;
    PassStep(s, c, Regex);
  }

  lemma BodyStands(s: string, i: nat, u: string, close: string)
    requires Stands(s, i, "/" + u + close)
    ensures i < |s| && s[i] == '/' && Stands(s, i + 1, u)
  {
    hide Stands;
    var t := "/" + u + close;
    StandsAt(s, i, t, 0);
    StandsRest(s, i, t, 1);
    assert t[1..] == u + close;
    StandsFront(s, i + 1, u + close, |u|);
    assert (u + close)[..|u|] == u;
  }

  lemma OpenPattern(s: string, i: nat, u: string, e: nat)
    requires i < |s| && s[i] == '/' && OperatorBefore(s, i) && !NextIn(s, i + 1, "/*")
    requires PatternFree(u, false) && Stands(s, i + 1, u) && Passes(s, i + 1 + |u|, Regex, e, Code)
    ensures Passes(s, i, Code, e, Code)
  {
    hide Passes, Stands, PatternFree, LexStep, OperatorBefore;
    NotAChain(s, i, Code);
    OpenSlash(s, i);
    PatternPasses(s, i + 1, u, false, e);
    PassFirst(s, i, Code, i + 1, Regex, e, Code);
  }

  lemma BrokenKept(s: string, i: nat, u: string)
    requires Fits(s, i, Broken(u))
    ensures Passes(s, i, Code, i + |u| + 2, Code)
  {
    hide Passes, Stands, PatternFree, LexStep, OperatorBefore;
    var t, c := "/" + u + "\n", i + 1 + |u|;
    StandsAt(s, i, t, c - i);
    NewlineCloses(s, c);
    BodyStands(s, i, u, "\n");
    if u != "" {
      FirstOfPattern(u);
      StandsAt(s, i + 1, u, 0);
    }
    OpenPattern(s, i, u, c + 1);
  }

  lemma NewlineCloses(s: string, c: nat)
    requires c < |s| && s[c] == '\n'
    ensures Passes(s, c, Regex, c + 1, Code)
  {
    hide Passes;
    PassStep(s, c, Regex);
  }

  /** The scan copies the piece; it ends in code, or with the text. */
  lemma LiteralPasses(s: string, i: nat, p: Piece) returns (to: State)
    requires Fits(s, i, p) && Literal(p)
    ensures Passes(s, i, Code, i + |Text(p)|, to) && i < |s| && !Plain(s[i])
    ensures to == Code || i + |Text(p)| == |s|
  {
    hide Passes, Stands, QuoteFree, PatternFree, CommentFree, OperatorBefore, Letter;
    StandsAt(s, i, Text(p), 0);
    to := Code;
    match p
    case Quoted(q, u) => QuotedKept(s, i, q, u);
    case Line(u, ended) => to := LineKept(s, i, u, ended);
    case Block(u) => BlockKept(s, i, u);
    case Pattern(u, flags) => PatternKept(s, i, u, flags);
    case Broken(u) => BrokenKept(s, i, u);
  }

  lemma FirstOfPattern(u: string)
    requires u != "" && PatternFree(u, false)
    ensures u[0] != '/'
  {
  }

  lemma CodePasses(s: string, i: nat, p: Piece)
    requires Fits(s, i, p) && (p.Char? || p.Division?)
    ensures Passes(s, i, Code, i + 1, Code)
  {
    hide Passes, OperatorBefore, RegexContext, LexStep;
    StandsAt(s, i, Text(p), 0);
    match p
    case Char(c) =>
      if i > 0 { Classes(s[i - 1]); }
      PrefixIs(s, i);
      CharStep(s, i);
      PassStep(s, i, Code);
    case Division =>
      NotAChain(s, i, Code);
      OpenSlash(s, i);
      PassStep(s, i, Code);
  }

  lemma CharStep(s: string, i: nat)
    requires i < |s| && s[i] !in "'\"`/"
    ensures LexStep(s, i, Code) == Move(i + 1, Code)
  {
    hide RegexContext;
  }

  lemma PrefixIs(s: string, i: nat)
    ensures HasPrefix(s, i) <==> Stands(s, i, "dynamic.unity.assembly.")
  {
  }

  lemma ChainTaken(s: string, i: nat, name: string)
    requires Fits(s, i, Piece.Chain(name))
    ensures var p := Piece.Chain(name); var e := i + |Text(p)|;
      i < |s| && ChainAt(s, i) && ChainEnd(s, i) == e && Scan(s, i, Code) == Result(p) + Scan(s, e, Code)
  {
    hide Scan, NameChar, Word, Stands;
    ChainText(s, i, name);
    NameEnds(s, i + |PREFIX|, name);
    if i > 0 { Classes(s[i - 1]); }
    ChainScanned(s, i, name);
  }

  lemma ChainScanned(s: string, i: nat, name: string)
    requires i < |s| && ChainAt(s, i) && Name(s, i) == name
    requires ChainEnd(s, i) == i + |Text(Piece.Chain(name))|
    requires s[i..ChainEnd(s, i)] == "dynamic.unity.assembly." + name
    ensures Scan(s, i, Code) == Result(Piece.Chain(name)) + Scan(s, ChainEnd(s, i), Code)
  {
    hide Scan, ChainAt, ChainEnd, Name;
    ScanStep(s, i, Code);
    NextAtChain(s, i);
    WrittenAtChain(s, i);
  }

  /** The run of name characters behind the prefix is the name. */
  lemma NameEnds(s: string, w: nat, name: string)
    requires w + |name| <= |s| && s[w..w + |name|] == name
    requires forall k :: 0 <= k < |name| ==> Word(name[k]) || name[k] == '-'
    requires w + |name| < |s| ==> !Word(s[w + |name|]) && s[w + |name|] != '-'
    ensures RunEnd(s, w, NameChar) == w + |name|
  {
    hide NameChar, Word;
    var e := w + |name|;
    if e < |s| { Classes(s[e]); }
    forall k | w <= k < e ensures NameChar(s[k]) {
      assert s[k] == s[w..e][k - w];
      Classes(s[k]);
    }
    RunEndIs(s, w, NameChar, e);
  }

  lemma ChainText(s: string, i: nat, name: string)
    requires Stands(s, i, "dynamic.unity.assembly." + name)
    ensures HasPrefix(s, i) && i + |PREFIX| + |name| <= |s| && s[i + |PREFIX|..i + |PREFIX| + |name|] == name
    ensures s[i..i + |PREFIX| + |name|] == "dynamic.unity.assembly." + name
  {
    var t := "dynamic.unity.assembly." + name;
    var e := i + |t|;
    assert s[i..i + |PREFIX|] == s[i..e][..|PREFIX|] == t[..|PREFIX|];
    assert s[i + |PREFIX|..e] == s[i..e][|PREFIX|..] == t[|PREFIX|..];
  }

  /** Whatever pieces a text is made of, the output is what each piece gives: chains with a hyphen in
      brackets, and code, literals, comments and patterns as they are. */
  lemma {:induction false} PiecesScanned(s: string, i: nat, pieces: seq<Piece>)
    requires i <= |s| && Tiles(s, i, pieces)
    ensures Scan(s, i, Code) == Results(pieces)
    decreases |pieces|
  {
    hide Scan, Chains, StateAt, Fits;
    if pieces == [] {
      ScanStep(s, i, Code);
    } else {
      var p := pieces[0];
      PieceScanned(s, i, p);
      PiecesScanned(s, i + |Text(p)|, pieces[1..]);
    }
  }

  lemma PieceScanned(s: string, i: nat, p: Piece)
    requires i <= |s| && Fits(s, i, p)
    ensures i + |Text(p)| <= |s| && Scan(s, i, Code) == Result(p) + Scan(s, i + |Text(p)|, Code)
  {
    hide Scan, Fits, Passes, Text;
    TextStands(s, i, p);
    if p.Chain? {
      ChainTaken(s, i, p.name);
    } else if Literal(p) {
      var to := LiteralPasses(s, i, p);
      Copied(s, i, p, to);
    } else {
      CodePasses(s, i, p);
      OneCharacter(p);
      Copied(s, i, p, Code);
    }
  }

  lemma OneCharacter(p: Piece)
    requires p.Char? || p.Division?
    ensures |Text(p)| == 1
  {
  }

  lemma Copied(s: string, i: nat, p: Piece, to: State)
    requires i + |Text(p)| <= |s| && s[i..i + |Text(p)|] == Text(p)
    requires Passes(s, i, Code, i + |Text(p)|, to) && (to == Code || i + |Text(p)| == |s|)
    ensures Scan(s, i, Code) == Text(p) + Scan(s, i + |Text(p)|, Code)
  {
    hide Scan, Chains, StateAt, Text;
    if to != Code {
      ScanStep(s, |s|, to);
      ScanStep(s, |s|, Code);
    }
  }

  /** For every text that is tiled by such pieces, from its beginning to its end. */
  lemma RewrittenPieces(s: string, pieces: seq<Piece>)
    requires Tiles(s, 0, pieces)
    ensures Preprocessed(s) == Results(pieces)
  {
    hide Tiles, Results, Scan;
    PiecesScanned(s, 0, pieces);
  }

  // ----- A literal anywhere -----

  /** The scan from i comes by j, in code, with text w written and no chain across j. */
  lemma {:induction false} ComesBy(s: string, i: nat, st: State, j: nat) returns (w: string)
    requires i <= j < |s| && StateAt(s, i, st, j) == Some(Code) && !Plain(s[j])
    ensures Scan(s, i, st) == w + Scan(s, j, Code)
    ensures forall k :: k in Chains(s, i, st) ==> k in Chains(s, j, Code) || (HasPrefix(s, k) && ChainEnd(s, k) <= j)
    decreases |s| - i
  {
    hide Scan, Chains, StateAt, LexStep, Next, Written, ChainAt, HasPrefix, ChainEnd, Plain, PlainRun;
    StateStep(s, i, st, j);
    if i == j {
      w := "";
    } else {
      ScanStep(s, i, st);
      ChainsStep(s, i, st);
      if ChainHere(s, i, st) {
        NextAtChain(s, i);
        ChainIsPlain(s, i);
        NotAcross(s, i, ChainEnd(s, i), j);
        LexAcross(s, i, ChainEnd(s, i), j);
        w := ComesBy(s, ChainEnd(s, i), Code, j);
      } else {
        NextOutsideChain(s, i, st);
        var m := LexStep(s, i, st);
        if j < m.to { NotBehind(s, m.to, m.state, j); }
        w := ComesBy(s, m.to, m.state, j);
      }
      Glue(Written(s, i, st), w, Scan(s, j, Code));
      w := Written(s, i, st) + w;
    }
  }

  lemma NotAcross(s: string, i: nat, e: nat, j: nat)
    requires PlainRun(s, i, e) && i <= j < |s| && !Plain(s[j])
    ensures e <= j
  {
  }

  /** Where the lexer is in code and a literal, a comment or a pattern stands, no chain is taken in it or
      across it, its text stands unchanged in the output, and the lexer is in code again behind it, or
      at the end of the text. */
  lemma LiteralKept(s: string, i: nat, p: Piece) returns (before: string, behind: string)
    requires InCode(s, i) && Fits(s, i, p) && Literal(p)
    ensures Preprocessed(s) == before + Text(p) + behind
    ensures var e := i + |Text(p)|;
      && e <= |s| && (InCode(s, e) || e == |s|)
      && forall k :: k in Chains(s, 0, Code) ==> HasPrefix(s, k) && (ChainEnd(s, k) <= i || e <= k)
  {
    hide Scan, Chains, StateAt, HasPrefix, ChainEnd, Plain, Stands, QuoteFree, PatternFree, CommentFree, OperatorBefore, Letter;
    var e := i + |Text(p)|;
    var to := LiteralPasses(s, i, p);
    before := ComesBy(s, 0, Code, i);
    behind := Scan(s, e, to);
    ScanFromStart(s);
    assert "" + Scan(s, 0, Code) == Scan(s, 0, Code);
    TextStands(s, i, p);
    Glue(before, Text(p), behind);
    ChainsLieAhead(s, e, to);
    ChainsLieAhead(s, 0, Code);
    InCodeBehind(s, i, e, to);
  }

  lemma TextStands(s: string, i: nat, p: Piece)
    requires Fits(s, i, p)
    ensures i + |Text(p)| <= |s| && s[i..i + |Text(p)|] == Text(p)
  {
  }

  lemma InCodeBehind(s: string, i: nat, e: nat, to: State)
    requires InCode(s, i) && Passes(s, i, Code, e, to) && (to == Code || e == |s|)
    ensures to == Code ==> InCode(s, e)
  {
    hide Scan, Chains, StateAt;
    StatesMeet(s, 0, Code, i, e);
    StateStep(s, e, to, e);
  }

  /** From a place the lexer stands at, it goes on as from there. */
  lemma {:induction false} StatesMeet(s: string, i: nat, st: State, j: nat, e: nat)
    requires i <= j <= e && i <= |s| && j <= |s| && StateAt(s, i, st, j).Some?
    ensures StateAt(s, i, st, e) == StateAt(s, j, StateAt(s, i, st, j).value, e)
    decreases |s| - i
  {
    hide StateAt, LexStep;
    StateStep(s, i, st, j);
    StateStep(s, i, st, e);
    if i < j {
      var m := LexStep(s, i, st);
      if j < m.to { NotBehind(s, m.to, m.state, j); }
      StatesMeet(s, m.to, m.state, j, e);
    }
  }

  /** A text that is one literal, comment or pattern comes out as it is. */
  lemma LiteralAlone(p: Piece)
    requires Fits(Text(p), 0, p) && Literal(p)
    ensures Preprocessed(Text(p)) == Text(p)
  {
    hide Fits, Preprocessed;
    RewrittenPieces(Text(p), [p]);
    AddNothing(Result(p));
  }
}
