/** What the rewrite changes: which chains it takes, and the output as those chains replaced. */
module UnityProperties {
  import opened Common
  import opened UnityPreprocess

  // ----- Where the scan finds chains -----

  /** The state in which the lexer, with no rewriting at all, stands when it reaches j; None when j is
      inside one of its steps. */
  function StateAt(s: string, i: nat, st: State, j: nat): Option<State>
    requires i <= |s|
    decreases |s| - i
  {
    if i == j then Some(st)
    else if i == |s| then None
    else StateAt(s, LexStep(s, i, st).to, LexStep(s, i, st).state, j)
  }

  predicate InCode(s: string, j: nat) {
    StateAt(s, 0, Code, j) == Some(Code)
  }

  /** The places where the scan from i takes a chain, hyphen or not. */
  function Chains(s: string, i: nat, st: State): seq<nat>
    requires i <= |s|
    decreases |s| - i
  {
    if i == |s| then []
    else (if ChainHere(s, i, st) then [i] else []) + Chains(s, Next(s, i, st).to, Next(s, i, st).state)
  }

  lemma ChainsStep(s: string, i: nat, st: State)
    requires i <= |s|
    ensures i == |s| ==> Chains(s, i, st) == []
    ensures i < |s| && !ChainHere(s, i, st)
        ==> Chains(s, i, st) == Chains(s, Next(s, i, st).to, Next(s, i, st).state)
    ensures i < |s| && ChainHere(s, i, st)
        ==> Chains(s, i, st) == [i] + Chains(s, Next(s, i, st).to, Next(s, i, st).state)
  {
    hide Next, ChainHere;
    if i < |s| {
      var rest := Chains(s, Next(s, i, st).to, Next(s, i, st).state);
      assert [] + rest == rest;
    }
  }

  predicate Within(s: string, k: nat, j: nat) {
    HasPrefix(s, k) && k < j < ChainEnd(s, k)
  }

  /** Some chain of the list has begun before j and goes on behind it. */
  predicate Covered(s: string, chains: seq<nat>, j: nat) {
    exists k :: k in chains && Within(s, k, j)
  }

  lemma {:induction false} ChainsLieAhead(s: string, i: nat, st: State)
    requires i <= |s|
    ensures forall k :: k in Chains(s, i, st) ==> i <= k && ChainAt(s, k)
    decreases |s| - i
  {
    hide Chains, Next, ChainAt;
    ChainsStep(s, i, st);
    if i < |s| {
      ChainsLieAhead(s, Next(s, i, st).to, Next(s, i, st).state);
    }
  }

  lemma StateStep(s: string, i: nat, st: State, j: nat)
    requires i <= |s|
    ensures StateAt(s, i, st, j) ==
      if i == j then Some(st)
      else if i == |s| then None
      else StateAt(s, LexStep(s, i, st).to, LexStep(s, i, st).state, j)
  {
    hide LexStep;
  }

  lemma {:induction false} NotBehind(s: string, i: nat, st: State, j: nat)
    requires j < i <= |s|
    ensures StateAt(s, i, st, j) == None
    decreases |s| - i
  {
    hide StateAt, LexStep;
    StateStep(s, i, st, j);
    if i < |s| {
      NotBehind(s, LexStep(s, i, st).to, LexStep(s, i, st).state, j);
    }
  }

  /** Characters that the lexer passes one by one in code. */
  predicate Plain(c: char) {
    NameChar(c) || c == '.' || c == '[' || c == ']'
  }

  predicate PlainRun(s: string, i: nat, e: nat) {
    i <= e <= |s| && forall k :: i <= k < e ==> Plain(s[k])
  }

  lemma PlainLex(s: string, i: nat)
    requires i < |s| && Plain(s[i])
    ensures LexStep(s, i, Code) == Move(i + 1, Code)
  {
    hide RegexContext;
  }

  lemma {:induction false} LexAcross(s: string, i: nat, e: nat, j: nat)
    requires PlainRun(s, i, e) && e <= j
    ensures StateAt(s, i, Code, j) == StateAt(s, e, Code, j)
    decreases e - i
  {
    hide StateAt, LexStep, Plain;
    if i < e {
      StateStep(s, i, Code, j);
      PlainLex(s, i);
      LexAcross(s, i + 1, e, j);
    }
  }

  lemma PrefixPlain()
    ensures forall k :: 0 <= k < |PREFIX| ==> Plain(PREFIX[k])
  {
  }

  lemma ChainIsPlain(s: string, i: nat)
    requires HasPrefix(s, i)
    ensures PlainRun(s, i, ChainEnd(s, i))
  {
    PrefixPlain();
    forall k | i <= k < ChainEnd(s, i)
      ensures Plain(s[k])
    {
      if k < i + |PREFIX| {
        assert s[k] == s[i..i + |PREFIX|][k - i];
        assert Plain(PREFIX[k - i]);
      }
    }
  }

  lemma NoChainAtEnd(s: string, j: nat)
    requires |s| <= j
    ensures !ChainAt(s, j)
  {
  }

  lemma NoneBefore(s: string, chains: seq<nat>, j: nat)
    requires forall k :: k in chains ==> j <= k
    ensures !Covered(s, chains, j)
  {
  }

  lemma CoveredBy(s: string, chains: seq<nat>, i: nat, j: nat)
    requires i in chains && HasPrefix(s, i) && i < j < ChainEnd(s, i)
    ensures Covered(s, chains, j)
  {
    assert Within(s, i, j);
  }

  lemma CoverBeyond(s: string, i: nat, rest: seq<nat>, j: nat)
    requires HasPrefix(s, i) && ChainEnd(s, i) <= j
    ensures Covered(s, [i] + rest, j) <==> Covered(s, rest, j)
  {
    hide HasPrefix, ChainEnd;
    if Covered(s, rest, j) {
      var k :| k in rest && Within(s, k, j);
      assert k in [i] + rest;
    }
  }

  lemma NextAtChain(s: string, i: nat)
    requires i < |s| && ChainAt(s, i)
    ensures HasPrefix(s, i) && Next(s, i, Code) == Move(ChainEnd(s, i), Code)
  {
  }

  lemma WrittenAtChain(s: string, i: nat)
    requires i < |s| && ChainAt(s, i)
    ensures HasPrefix(s, i) && Written(s, i, Code) == ChainText(s, i)
  {
  }

  lemma NextOutsideChain(s: string, i: nat, st: State)
    requires i < |s| && !ChainHere(s, i, st)
    ensures Next(s, i, st) == LexStep(s, i, st)
    ensures Written(s, i, st) == s[i..LexStep(s, i, st).to]
  {
    hide LexStep;
  }

  /** The chains taken are those in code, leftmost first, that no chain taken before them covers. */
  lemma {:induction false} ChainsAreGreedy(s: string, i: nat, st: State, j: nat)
    requires i <= j && i <= |s|
    ensures j in Chains(s, i, st)
       <==> StateAt(s, i, st, j) == Some(Code) && ChainAt(s, j) && !Covered(s, Chains(s, i, st), j)
    decreases |s| - i
  {
    hide Chains, Next, ChainAt, StateAt, LexStep, HasPrefix, PlainRun, Covered, ChainEnd;
    ChainsStep(s, i, st);
    StateStep(s, i, st, j);
    ChainsLieAhead(s, i, st);
    if i == |s| {
      NoChainAtEnd(s, j);
    } else if ChainHere(s, i, st) {
      NextAtChain(s, i);
      var e, all := ChainEnd(s, i), Chains(s, i, st);
      ChainsLieAhead(s, e, Code);
      if j == i {
        NoneBefore(s, all, j);
      } else if j < e {
        CoveredBy(s, all, i, j);
      } else {
        ChainIsPlain(s, i);
        LexAcross(s, i, e, j);
        ChainsAreGreedy(s, e, Code, j);
        CoverBeyond(s, i, Chains(s, e, Code), j);
      }
    } else {
      NextOutsideChain(s, i, st);
      var m := LexStep(s, i, st);
      ChainsLieAhead(s, m.to, m.state);
      if m.to <= j {
        ChainsAreGreedy(s, m.to, m.state, j);
      } else if i < j {
        NotBehind(s, m.to, m.state, j);
      }
    }
  }

  /** For the whole text: what a chain must meet to be taken, for every place. */
  lemma ChainsTaken(s: string, j: nat)
    ensures j in Chains(s, 0, Code)
       <==> InCode(s, j) && ChainAt(s, j) && !Covered(s, Chains(s, 0, Code), j)
  {
    hide Covered, ChainAt;
    ChainsAreGreedy(s, 0, Code, j);
  }

  // ----- What the output is -----

  /** The chains of the list are there, one behind the other from i on. */
  predicate InOrder(s: string, i: nat, chains: seq<nat>)
    decreases |chains|
  {
    i <= |s| &&
    (chains != [] ==>
      i <= chains[0] && HasPrefix(s, chains[0]) && InOrder(s, ChainEnd(s, chains[0]), chains[1..]))
  }

  /** The text from i on, with the hyphenated chains of the list and nothing else rewritten. */
  function Replaced(s: string, i: nat, chains: seq<nat>): string
    requires InOrder(s, i, chains)
    decreases |chains|
  {
    if chains == [] then s[i..]
    else
      s[i..chains[0]] + ChainText(s, chains[0]) + Replaced(s, ChainEnd(s, chains[0]), chains[1..])
  }

  function ChainText(s: string, k: nat): string
    requires HasPrefix(s, k)
  {
    if '-' in Name(s, k) then Bracketed(Name(s, k)) else s[k..ChainEnd(s, k)]
  }

  lemma ReplacedStep(s: string, i: nat, chains: seq<nat>)
    requires InOrder(s, i, chains)
    ensures Replaced(s, i, chains) ==
      if chains == [] then s[i..]
      else s[i..chains[0]] + ChainText(s, chains[0]) + Replaced(s, ChainEnd(s, chains[0]), chains[1..])
  {
    hide HasPrefix, ChainText, ChainEnd;
  }

  lemma ReplacedFrom(s: string, i: nat, m: nat, chains: seq<nat>)
    requires i <= m && InOrder(s, m, chains)
    ensures InOrder(s, i, chains)
    ensures Replaced(s, i, chains) == s[i..m] + Replaced(s, m, chains)
  {
    hide HasPrefix, ChainText, ChainEnd, Replaced;
    ReplacedStep(s, m, chains);
    ReplacedStep(s, i, chains);
    if chains == [] {
      assert s[i..] == s[i..m] + s[m..];
    } else {
      var k := chains[0];
      Lengthen(s, i, m, k, ChainText(s, k), Replaced(s, ChainEnd(s, k), chains[1..]));
    }
  }

  lemma Lengthen(s: string, i: nat, m: nat, k: nat, text: string, rest: string)
    requires i <= m <= k <= |s|
    ensures s[i..k] + text + rest == s[i..m] + (s[m..k] + text + rest)
  {
    assert s[i..k] == s[i..m] + s[m..k];
    Glue(s[i..m] + s[m..k], text, rest);
    Glue(s[m..k], text, rest);
    Glue(s[i..m], s[m..k], text + rest);
  }

  lemma {:induction false} ScanIsReplaced(s: string, i: nat, st: State)
    requires i <= |s|
    ensures InOrder(s, i, Chains(s, i, st))
    ensures Scan(s, i, st) == Replaced(s, i, Chains(s, i, st))
    decreases |s| - i
  {
    hide Scan, Chains, Next, ChainAt, LexStep, HasPrefix, Written, ChainEnd, ChainText;
    ScanStep(s, i, st);
    ChainsStep(s, i, st);
    if i < |s| {
      var m := Next(s, i, st);
      ScanIsReplaced(s, m.to, m.state);
      if ChainHere(s, i, st) {
        NextAtChain(s, i);
        WrittenAtChain(s, i);
        assert Chains(s, i, st)[1..] == Chains(s, m.to, m.state);
        assert s[i..i] == "";
      } else {
        NextOutsideChain(s, i, st);
        ReplacedFrom(s, i, m.to, Chains(s, m.to, m.state));
      }
    }
  }

  /** The output is the input with the hyphenated ones among the chains taken, and nothing else,
      rewritten. */
  lemma OutputIsReplaced(s: string)
    ensures InOrder(s, 0, Chains(s, 0, Code))
    ensures Preprocessed(s) == Replaced(s, 0, Chains(s, 0, Code))
  {
    hide *;
    ScanFromStart(s);
    ScanIsReplaced(s, 0, Code);
    assert "" + Scan(s, 0, Code) == Scan(s, 0, Code);
  }

  /** How many chains of the list have a hyphen. */
  function Hyphenated(s: string, chains: seq<nat>): nat {
    if chains == [] then 0
    else (if Rewritten(s, chains[0]) then 1 else 0) + Hyphenated(s, chains[1..])
  }

  lemma {:induction false} ReplacedLength(s: string, i: nat, chains: seq<nat>)
    requires InOrder(s, i, chains) && forall k :: k in chains ==> ChainAt(s, k)
    ensures |Replaced(s, i, chains)| == |s| - i + 3 * Hyphenated(s, chains)
    decreases |chains|
  {
    if chains != [] {
      ReplacedLength(s, ChainEnd(s, chains[0]), chains[1..]);
    }
  }

  /** Each rewrite makes the text three characters longer. */
  lemma LengthGrows(s: string)
    ensures |Preprocessed(s)| == |s| + 3 * Hyphenated(s, Chains(s, 0, Code))
  {
    hide Preprocessed, Chains, Replaced, ChainAt, InOrder;
    OutputIsReplaced(s);
    ChainsLieAhead(s, 0, Code);
    ReplacedLength(s, 0, Chains(s, 0, Code));
  }

  /** Where no chain of the list has a hyphen, nothing is replaced. */
  lemma {:induction false} NothingReplaced(s: string, i: nat, chains: seq<nat>)
    requires InOrder(s, i, chains) && Hyphenated(s, chains) == 0 && forall k :: k in chains ==> ChainAt(s, k)
    ensures Replaced(s, i, chains) == s[i..]
    decreases |chains|
  {
    hide ChainAt, ChainEnd, HasPrefix, Name;
    if chains != [] {
      var k := chains[0];
      NothingReplaced(s, ChainEnd(s, k), chains[1..]);
      assert s[i..] == s[i..k] + s[k..ChainEnd(s, k)] + s[ChainEnd(s, k)..];
    }
  }

  /** A run changes nothing exactly when no chain that it takes has a hyphen. */
  lemma UnchangedExactly(s: string)
    ensures Preprocessed(s) == s <==> Hyphenated(s, Chains(s, 0, Code)) == 0
  {
    hide Preprocessed, Chains, Replaced, ChainAt, InOrder, Hyphenated;
    LengthGrows(s);
    OutputIsReplaced(s);
    ChainsLieAhead(s, 0, Code);
    if Hyphenated(s, Chains(s, 0, Code)) == 0 {
      NothingReplaced(s, 0, Chains(s, 0, Code));
      assert s[0..] == s;
    }
  }
}
