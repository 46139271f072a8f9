/** A second run of the rewrite: when it leaves the first one's result alone, and what it does
    otherwise. */
module UnitySecondRun {
  import opened Common
  import opened UnityPreprocess
  import opened UnityProperties

  /** Behind blanks, is the next character a slash that opens no comment? */
  predicate SlashAhead(s: string, i: nat)
    decreases |s| - i
  {
    i < |s| &&
    if Blank(s[i]) then SlashAhead(s, i + 1)
    else s[i] == '/' && !Second(s, i, '/') && !Second(s, i, '*')
  }

  /** A slash behind a rewritten chain is a division before and after the rewrite alike: the name does
      not end in a hyphen, or no such slash follows. */
  predicate EndsWell(s: string, k: nat)
    requires HasPrefix(s, k)
  {
    Rewritten(s, k) && s[ChainEnd(s, k) - 1] == '-' ==> !SlashAhead(s, ChainEnd(s, k))
  }

  predicate EndWell(s: string, chains: seq<nat>) {
    forall k :: k in chains ==> HasPrefix(s, k) && EndsWell(s, k)
  }

  /** The scan of out from o stands where the scan of s from i stands: out goes on with what that scan
      has yet to write, and what lies behind them is judged alike wherever it is looked at. */
  predicate Synced(s: string, i: nat, st: State, out: string, o: nat) {
    i <= |s| && o <= |out| && out[o..] == Scan(s, i, st) && SameContext(s, i, st, out, o) && SameBoundary(s, i, out, o)
  }

  predicate SameContext(s: string, i: nat, st: State, out: string, o: nat)
    requires i <= |s| && o <= |out|
  {
    RegexContext(s, i) == RegexContext(out, o) || (st == Code && !SlashAhead(s, i))
  }

  predicate SameBoundary(s: string, i: nat, out: string, o: nat)
    requires i <= |s| && o <= |out|
  {
    i < |s| && s[i] == 'd' ==> Boundary(s, i) == Boundary(out, o)
  }

  /** The n characters are the same, and so is what comes next. */
  predicate Agree(s: string, i: nat, out: string, o: nat, n: nat) {
    i + n <= |s| && o + n <= |out| && out[o..o + n] == s[i..i + n]
    && (i + n == |s| <==> o + n == |out|)
    && (i + n < |s| ==> out[o + n] == s[i + n])
  }

  predicate RewriteHere(s: string, i: nat, st: State) {
    st == Code && Rewritten(s, i)
  }

  // ----- One step -----

  /** What is written begins as what is read. */
  lemma WrittenHead(s: string, i: nat, st: State)
    requires i < |s|
    ensures Written(s, i, st) != "" && Written(s, i, st)[0] == s[i]
  {
    hide Next, RunEnd;
    PrefixBeginsWithD(s, i);
  }

  lemma ScanHead(s: string, i: nat, st: State)
    requires i <= |s|
    ensures Scan(s, i, st) == "" <==> i == |s|
    ensures i < |s| ==> Scan(s, i, st)[0] == s[i]
  {
    hide Scan, Written, Next;
    ScanStep(s, i, st);
    if i < |s| { WrittenHead(s, i, st); }
  }

  lemma WrittenCopy(s: string, i: nat, st: State)
    requires i < |s| && !RewriteHere(s, i, st)
    ensures Written(s, i, st) == s[i..Next(s, i, st).to]
  {
    hide Next, ChainAt;
  }

  lemma CopyAgrees(s: string, i: nat, st: State, out: string, o: nat)
    requires i < |s| && o <= |out| && out[o..] == Scan(s, i, st) && !RewriteHere(s, i, st)
    ensures Agree(s, i, out, o, Next(s, i, st).to - i)
    ensures out[o + Next(s, i, st).to - i..] == Scan(s, Next(s, i, st).to, Next(s, i, st).state)
  {
    hide Scan, Written, Next, Rewritten;
    var m := Next(s, i, st);
    var n := m.to - i;
    ScanStep(s, i, st);
    WrittenCopy(s, i, st);
    var rest := Scan(s, m.to, m.state);
    ScanHead(s, m.to, m.state);
    assert out[o..] == s[i..i + n] + rest;
    assert out[o..][..n] == s[i..i + n] && out[o..][n..] == rest;
    assert out[o + n..] == rest;
    assert out[o..o + n] == out[o..][..n];
  }

  lemma AgreeAt(s: string, i: nat, out: string, o: nat, n: nat, k: nat)
    requires Agree(s, i, out, o, n) && k < n
    ensures out[o + k] == s[i + k]
  {
    assert out[o + k] == out[o..o + n][k] == s[i..i + n][k];
  }

  lemma AgreeSlices(s: string, i: nat, out: string, o: nat, n: nat, k: nat)
    requires Agree(s, i, out, o, n) && k <= n
    ensures out[o..o + k] == s[i..i + k] && out[o + k..o + n] == s[i + k..i + n]
  {
    var t := s[i..i + n];
    assert out[o..o + k] == t[..k] && s[i..i + k] == t[..k];
    assert out[o + k..o + n] == t[k..] && s[i + k..i + n] == t[k..];
  }

  lemma FlagsAgree(s: string, i: nat, out: string, o: nat)
    requires i < |s| && Agree(s, i, out, o, RunEnd(s, i + 1, Alpha) - i)
    ensures o < |out| && RunEnd(out, o + 1, Alpha) == o + RunEnd(s, i + 1, Alpha) - i
  {
    hide Alpha;
    var n := RunEnd(s, i + 1, Alpha) - i;
    forall k | o + 1 <= k < o + n
      ensures Alpha(out[k])
    {
      AgreeAt(s, i, out, o, n, k - o);
    }
    RunEndIs(out, o + 1, Alpha, o + n);
  }

  /** The lexer takes the same step when it sees the same text and context. */
  lemma LexAgrees(s: string, i: nat, st: State, out: string, o: nat)
    requires i < |s| && Agree(s, i, out, o, LexStep(s, i, st).to - i)
    requires SameContext(s, i, st, out, o)
    ensures o < |out|
    ensures LexStep(out, o, st) == Move(o + LexStep(s, i, st).to - i, LexStep(s, i, st).state)
  {
    hide RegexContext, RunEnd;
    var n := LexStep(s, i, st).to - i;
    AgreeAt(s, i, out, o, n, 0);
    if st == Regex && s[i] == '/' {
      FlagsAgree(s, i, out, o);
    } else {
      if n == 2 { AgreeAt(s, i, out, o, n, 1); }
    }
  }

  // ----- Chains in the output -----

  predicate Begins(t: string, w: string) {
    |w| <= |t| && t[..|w|] == w
  }

  /** The letter that every rewrite begins with is not in w. */
  predicate NoD(w: string) {
    forall k :: 0 <= k < |w| ==> w[k] != 'd'
  }

  lemma RewriteBeginsWithD(s: string, i: nat, st: State)
    requires i < |s| && RewriteHere(s, i, st)
    ensures s[i] == 'd'
  {
    PrefixBeginsWithD(s, i);
  }

  lemma BeginsJoin(t: string, w: string, rest: string)
    requires t != ""
    ensures |w| <= |t| ==> (Begins(t + rest, w) <==> Begins(t, w))
    ensures |w| > |t| ==> (Begins(t + rest, w) <==> w[..|t|] == t && Begins(rest, w[|t|..]))
  {
    if |w| <= |t| {
      assert (t + rest)[..|w|] == t[..|w|];
    } else if |w| <= |t + rest| {
      assert (t + rest)[..|w|] == t + rest[..|w| - |t|];
      assert w == w[..|t|] + w[|t|..];
      if Begins(t + rest, w) {
        assert w[..|t|] == t;
        assert w[|t|..] == rest[..|w| - |t|];
      }
    }
  }

  /** Text without a d is in the output only where it is in the input: no rewrite has made it. */
  lemma {:induction false} TextBack(s: string, i: nat, st: State, w: string)
    requires i <= |s| && NoD(w) && Begins(Scan(s, i, st), w)
    ensures Begins(s[i..], w)
    decreases |s| - i, 1
  {
    hide Scan, Written, Next, RewriteHere, Begins;
    if w == "" {
      BeginsNothing(s[i..]);
    } else {
      ScanHead(s, i, st);
      BeginsHead(Scan(s, i, st), w);
      assert w[0] != 'd';
      if RewriteHere(s, i, st) {
        RewriteBeginsWithD(s, i, st);
        assert false;
      } else {
        StepBack(s, i, st, w);
      }
    }
  }

  lemma {:induction false} StepBack(s: string, i: nat, st: State, w: string)
    requires i < |s| && !RewriteHere(s, i, st) && w != "" && NoD(w[1..]) && Begins(Scan(s, i, st), w)
    ensures Begins(s[i..], w)
    decreases |s| - i, 0
  {
    hide Scan, Written, Next, RewriteHere, Begins;
    CopyBack(s, i, st, w);
    var m := Next(s, i, st);
    var n := m.to - i;
    if n < |w| {
      assert w[n..] == w[1..][n - 1..];
      TextBack(s, m.to, m.state, w[n..]);
    }
    SplitAt(s, i, n);
    BeginsJoin(s[i..m.to], w, s[m.to..]);
  }

  lemma BeginsNothing(t: string)
    ensures Begins(t, "")
  {
  }

  lemma BeginsHead(t: string, w: string)
    requires w != "" && Begins(t, w)
    ensures t != "" && t[0] == w[0]
  {
    assert t[0] == t[..|w|][0];
  }

  lemma CopyBack(s: string, i: nat, st: State, w: string)
    requires i < |s| && !RewriteHere(s, i, st) && Begins(Scan(s, i, st), w)
    ensures var m := Next(s, i, st); var n := m.to - i;
      if |w| <= n then Begins(s[i..m.to], w)
      else (w[..n] == s[i..m.to] && Begins(Scan(s, m.to, m.state), w[n..]))
  {
    hide Scan, Next, Written, RewriteHere, Begins;
    ScanStep(s, i, st);
    WrittenCopy(s, i, st);
    var m := Next(s, i, st);
    BeginsJoin(s[i..m.to], w, Scan(s, m.to, m.state));
  }

  /** The prefix is in the output only where it is in the input. */
  lemma PrefixBack(s: string, i: nat, st: State)
    requires i < |s| && !RewriteHere(s, i, st) && Begins(Scan(s, i, st), PREFIX)
    ensures HasPrefix(s, i)
  {
    hide Scan, Next, Written, RewriteHere, Begins;
    NoLaterD();
    StepBack(s, i, st, PREFIX);
    PrefixThere(s, i);
  }

  lemma NoLaterD()
    ensures NoD(PREFIX[1..])
  {
  }

  lemma PrefixThere(s: string, i: nat)
    requires i <= |s|
    ensures Begins(s[i..], PREFIX) <==> HasPrefix(s, i)
  {
    if i + |PREFIX| <= |s| { assert s[i..][..|PREFIX|] == s[i..i + |PREFIX|]; }
  }

  lemma NoNewChain(s: string, i: nat, st: State, out: string, o: nat)
    requires i < |s| && Synced(s, i, st, out, o) && !ChainHere(s, i, st)
    ensures !ChainHere(out, o, st)
  {
    hide Scan, RegexContext, SlashAhead, Boundary, SameContext, Begins, HasPrefix, Name;
    if ChainHere(out, o, st) {
      PrefixThere(out, o);
      PrefixBack(s, i, st);
      PrefixBeginsWithD(s, i);
      assert false;
    }
  }

  /** A chain that was left as it is is left again. */
  lemma ChainKept(s: string, i: nat, out: string, o: nat)
    requires i < |s| && o <= |out| && ChainAt(s, i) && !Rewritten(s, i) && SameBoundary(s, i, out, o)
    requires Agree(s, i, out, o, ChainEnd(s, i) - i)
    ensures ChainAt(out, o) && ChainEnd(out, o) == o + ChainEnd(s, i) - i && !Rewritten(out, o)
  {
    hide Boundary, NameChar;
    var n := ChainEnd(s, i) - i;
    var w := |PREFIX|;
    PrefixBeginsWithD(s, i);
    AgreeSlices(s, i, out, o, n, w);
    forall k | o + w <= k < o + n
      ensures NameChar(out[k])
    {
      AgreeAt(s, i, out, o, n, k - o);
    }
    RunEndIs(out, o + w, NameChar, o + n);
  }

  // ----- Context -----

  lemma ContextStep(s: string, i: nat)
    requires i < |s|
    ensures RegexContext(s, i + 1) == if Blank(s[i]) then RegexContext(s, i) else Opens(s[i])
  {
  }

  /** The same text behind keeps an equal context equal, and makes it equal once it is not all blank. */
  lemma {:induction false} ContextAfter(s: string, i: nat, out: string, o: nat, n: nat)
    requires i + n <= |s| && o + n <= |out| && out[o..o + n] == s[i..i + n]
    requires RegexContext(s, i) == RegexContext(out, o) || (n > 0 && !Blank(s[i]))
    ensures RegexContext(s, i + n) == RegexContext(out, o + n)
    decreases n
  {
    hide RegexContext, Opens, Blank;
    if n > 0 {
      ContextStep(s, i);
      ContextStep(out, o);
      assert out[o] == out[o..o + n][0] == s[i..i + n][0];
      assert out[o + 1..o + n] == out[o..o + n][1..] == s[i..i + n][1..] == s[i + 1..i + n];
      ContextAfter(s, i + 1, out, o + 1, n - 1);
    }
  }

  lemma SyncedAfterCopy(s: string, i: nat, st: State, out: string, o: nat)
    requires i < |s| && Synced(s, i, st, out, o) && !RewriteHere(s, i, st)
    ensures var m := Next(s, i, st);
      o + m.to - i <= |out| && Synced(s, m.to, m.state, out, o + m.to - i)
  {
    hide Scan, RegexContext, Next, RewriteHere;
    CopyAgrees(s, i, st, out, o);
    var m := Next(s, i, st);
    var n := m.to - i;
    assert out[o + n - 1] == out[o..o + n][n - 1] == s[i..i + n][n - 1] == s[m.to - 1];
    if RegexContext(s, i) != RegexContext(out, o) && Blank(s[i]) {
      BlankStep(s, i);
    } else {
      ContextAfter(s, i, out, o, n);
    }
  }

  lemma BlankStep(s: string, i: nat)
    requires i < |s| && Blank(s[i])
    ensures Next(s, i, Code) == Move(i + 1, Code)
  {
    hide RegexContext, RunEnd;
    PrefixBeginsWithD(s, i);
  }

  // ----- The text of a rewrite, read again -----

  /** From i to e the scan copies one character at a time and stays in its state. */
  predicate Steady(s: string, i: nat, e: nat, st: State) {
    i <= e <= |s| && forall k :: i <= k < e ==> Next(s, k, st) == Move(k + 1, st) && Written(s, k, st) == [s[k]]
  }

  lemma {:induction false} SteadyScan(s: string, i: nat, e: nat, st: State)
    requires Steady(s, i, e, st)
    ensures Scan(s, i, st) == s[i..e] + Scan(s, e, st)
    decreases e - i
  {
    hide Scan, Next, Written;
    if i == e {
      assert s[i..e] == "";
    } else {
      ScanStep(s, i, st);
      SteadyScan(s, i + 1, e, st);
      assert s[i..e] == [s[i]] + s[i + 1..e];
      Glue([s[i]], s[i + 1..e], Scan(s, e, st));
    }
  }

  lemma PlainStep(s: string, i: nat)
    requires i < |s| && Plain(s[i]) && !HasPrefix(s, i)
    ensures Next(s, i, Code) == Move(i + 1, Code) && Written(s, i, Code) == [s[i]]
  {
    hide LexStep;
    PlainLex(s, i);
  }

  lemma QuotedStep(s: string, i: nat)
    requires i < |s| && NameChar(s[i])
    ensures Next(s, i, DoubleQuote) == Move(i + 1, DoubleQuote) && Written(s, i, DoubleQuote) == [s[i]]
  {
  }

  lemma QuoteSteps(s: string, i: nat)
    requires i < |s| && s[i] == '"'
    ensures Next(s, i, Code) == Move(i + 1, DoubleQuote) && Written(s, i, Code) == [s[i]]
    ensures Next(s, i, DoubleQuote) == Move(i + 1, Code) && Written(s, i, DoubleQuote) == [s[i]]
  {
    hide RegexContext, RunEnd;
    PrefixBeginsWithD(s, i);
  }

  predicate Named(name: string) {
    forall k :: 0 <= k < |name| ==> NameChar(name[k])
  }

  const HEAD := "dynamic.unity.assembly["

  lemma HeadFacts()
    ensures |HEAD| == |PREFIX| && HEAD[|HEAD| - 1] != PREFIX[|HEAD| - 1]
    ensures forall k :: 0 <= k < |HEAD| ==> Plain(HEAD[k])
    ensures forall k :: 0 < k < |HEAD| ==> HEAD[k] != 'd'
  {
  }

  lemma HeadSteady(s: string, o: nat)
    requires o + |HEAD| <= |s| && s[o..o + |HEAD|] == HEAD
    ensures Steady(s, o, o + |HEAD|, Code)
  {
    hide Next, Written, Plain, HasPrefix;
    HeadFacts();
    forall k | o <= k < o + |HEAD|
      ensures Next(s, k, Code) == Move(k + 1, Code) && Written(s, k, Code) == [s[k]]
    {
      assert s[k] == s[o..o + |HEAD|][k - o] == HEAD[k - o];
      if k > o {
        PrefixBeginsWithD(s, k);
      } else {
        NoPrefixAtHead(s, o);
      }
      PlainStep(s, k);
    }
  }

  lemma NoPrefixAtHead(s: string, o: nat)
    requires o + |HEAD| <= |s| && s[o..o + |HEAD|] == HEAD
    ensures !HasPrefix(s, o)
  {
    HeadFacts();
    assert s[o..o + |HEAD|][|HEAD| - 1] == HEAD[|HEAD| - 1];
  }

  /** The text of a rewrite is copied: its head and its last bracket are plain code, and the name is
      inside a string. */
  lemma BracketedAgain(s: string, o: nat, name: string)
    requires Named(name) && o + |Bracketed(name)| <= |s| && s[o..o + |Bracketed(name)|] == Bracketed(name)
    ensures Scan(s, o, Code) == Bracketed(name) + Scan(s, o + |Bracketed(name)|, Code)
  {
    hide Scan, Next, Written, NameChar, Steady, HasPrefix;
    var w, n := |HEAD|, |name|;
    BracketedLayout(s, o, name);
    HeadSteady(s, o);
    SteadyScan(s, o, o + w, Code);
    var q := o + w;
    QuoteSteps(s, q);
    ScanStep(s, q, Code);
    NameSteady(s, q + 1, name);
    SteadyScan(s, q + 1, q + 1 + n, DoubleQuote);
    QuoteSteps(s, q + 1 + n);
    ScanStep(s, q + 1 + n, DoubleQuote);
    PrefixBeginsWithD(s, q + 2 + n);
    PlainStep(s, q + 2 + n);
    ScanStep(s, q + 2 + n, Code);
    var rest := Scan(s, q + 3 + n, Code);
    assert HEAD + (['"'] + (name + (['"'] + ([']'] + rest)))) == Bracketed(name) + rest by {
      Reassociate(name, rest);
    }
  }

  lemma Reassociate(name: string, rest: string)
    ensures HEAD + (['"'] + (name + (['"'] + ([']'] + rest)))) == Bracketed(name) + rest
  {
    var tail: string := ['"'] + ([']'] + rest);
    assert tail == "\"]" + rest;
    Glue(name, "\"]", rest);
    assert HEAD + (['"'] + (name + tail)) == "dynamic.unity.assembly[\"" + (name + tail) by {
      Glue(HEAD, ['"'], name + tail);
      assert HEAD + ['"'] == "dynamic.unity.assembly[\"";
    }
    Glue("dynamic.unity.assembly[\"", name + "\"]", rest);
    Glue("dynamic.unity.assembly[\"", name, "\"]");
  }

  lemma BracketedLayout(s: string, o: nat, name: string)
    requires o + |Bracketed(name)| <= |s| && s[o..o + |Bracketed(name)|] == Bracketed(name)
    ensures |Bracketed(name)| == |HEAD| + 3 + |name|
    ensures s[o..o + |HEAD|] == HEAD && s[o + |HEAD|] == '"'
    ensures s[o + |HEAD| + 1..o + |HEAD| + 1 + |name|] == name
    ensures s[o + |HEAD| + 1 + |name|] == '"' && s[o + |HEAD| + 2 + |name|] == ']'
  {
    var b, w, n := Bracketed(name), |HEAD|, |name|;
    var t := s[o..o + |b|];
    assert b == HEAD + "\"" + name + "\"]";
    assert t[..w] == HEAD;
    assert s[o..o + w] == t[..w];
    assert s[o + w] == t[w];
    assert t[w + 1..w + 1 + n] == name;
    assert s[o + w + 1..o + w + 1 + n] == t[w + 1..w + 1 + n];
    assert s[o + w + 1 + n] == t[w + 1 + n];
    assert s[o + w + 2 + n] == t[w + 2 + n];
  }

  lemma NameSteady(s: string, i: nat, name: string)
    requires Named(name) && i + |name| <= |s| && s[i..i + |name|] == name
    ensures Steady(s, i, i + |name|, DoubleQuote)
  {
    hide Next, Written, NameChar;
    forall k | i <= k < i + |name|
      ensures Next(s, k, DoubleQuote) == Move(k + 1, DoubleQuote) && Written(s, k, DoubleQuote) == [s[k]]
    {
      assert s[k] == s[i..i + |name|][k - i];
      QuotedStep(s, k);
    }
  }

  // ----- The whole run -----

  lemma NameFacts(s: string, i: nat)
    requires Rewritten(s, i)
    ensures HasPrefix(s, i)
    ensures Named(Name(s, i)) && Name(s, i) != ""
    ensures i < ChainEnd(s, i) && NameChar(s[ChainEnd(s, i) - 1])
    ensures ChainEnd(s, i) < |s| ==> !NameChar(s[ChainEnd(s, i)])
  {
    hide NameChar, Boundary;
  }

  lemma SyncedAfterRewrite(s: string, i: nat, out: string, o: nat)
    requires i < |s| && Rewritten(s, i) && EndsWell(s, i) && Synced(s, i, Code, out, o)
    ensures var b := Bracketed(Name(s, i));
      o + |b| <= |out| && out[o..o + |b|] == b && Synced(s, ChainEnd(s, i), Code, out, o + |b|)
  {
    hide Scan, SlashAhead, ChainEnd, Boundary, HasPrefix, Name, SameContext, Bracketed;
    var b, e := Bracketed(Name(s, i)), ChainEnd(s, i);
    NameFacts(s, i);
    RewriteStep(s, i);
    SplitOutput(out, o, b, Scan(s, e, Code));
    BracketedLayout(out, o, Name(s, i));
    ContextAfterRewrite(s, e, out, o + |b|);
  }

  lemma SplitOutput(out: string, o: nat, b: string, rest: string)
    requires o <= |out| && out[o..] == b + rest
    ensures o + |b| <= |out| && out[o..o + |b|] == b && out[o + |b|..] == rest
  {
    assert out[o..][..|b|] == out[o..o + |b|] && out[o..][|b|..] == out[o + |b|..];
  }

  lemma RewriteStep(s: string, i: nat)
    requires i < |s| && Rewritten(s, i)
    ensures Next(s, i, Code) == Move(ChainEnd(s, i), Code)
    ensures Scan(s, i, Code) == Bracketed(Name(s, i)) + Scan(s, ChainEnd(s, i), Code)
  {
    hide Scan, ChainEnd, HasPrefix;
    ScanStep(s, i, Code);
  }

  lemma ContextAfterRewrite(s: string, e: nat, out: string, o: nat)
    requires 0 < e <= |s| && 0 < o <= |out| && NameChar(s[e - 1]) && out[o - 1] == ']'
    requires s[e - 1] == '-' ==> !SlashAhead(s, e)
    ensures SameContext(s, e, Code, out, o)
  {
    hide SlashAhead;
  }

  lemma CopiedAgain(s: string, i: nat, st: State, out: string, o: nat)
    requires i < |s| && Synced(s, i, st, out, o) && !RewriteHere(s, i, st)
    ensures var m := Next(s, i, st);
      o < |out| && o + m.to - i <= |out|
      && Next(out, o, st) == Move(o + m.to - i, m.state) && Written(out, o, st) == out[o..o + m.to - i]
  {
    hide Scan, RegexContext, LexStep, SlashAhead, Boundary, HasPrefix, ChainEnd, Name;
    CopyAgrees(s, i, st, out, o);
    if ChainHere(s, i, st) {
      NextAtChain(s, i);
      ChainKept(s, i, out, o);
      NextAtChain(out, o);
      WrittenCopy(out, o, st);
    } else {
      NextOutsideChain(s, i, st);
      LexAgrees(s, i, st, out, o);
      NoNewChain(s, i, st, out, o);
      NextOutsideChain(out, o, st);
    }
  }

  /** Wherever the first scan copies, the scan of its output takes the same step into the same state. */
  predicate InStep(s: string, i: nat, st: State, out: string, o: nat)
    requires i <= |s|
    decreases |s| - i
  {
    i < |s| ==>
      if RewriteHere(s, i, st) then
        InStep(s, Next(s, i, st).to, Next(s, i, st).state, out, o + |Bracketed(Name(s, i))|)
      else
        o < |out| && Next(out, o, st) == Move(o + Next(s, i, st).to - i, Next(s, i, st).state)
        && InStep(s, Next(s, i, st).to, Next(s, i, st).state, out, o + Next(s, i, st).to - i)
  }

  lemma InStepUnfolded(s: string, i: nat, st: State, out: string, o: nat)
    requires i <= |s|
    ensures i == |s| ==> InStep(s, i, st, out, o)
    ensures i < |s| && RewriteHere(s, i, st) ==>
      InStep(s, i, st, out, o)
        == InStep(s, Next(s, i, st).to, Next(s, i, st).state, out, o + |Bracketed(Name(s, i))|)
    ensures i < |s| && !RewriteHere(s, i, st) ==>
      InStep(s, i, st, out, o)
        == (o < |out| && Next(out, o, st) == Move(o + Next(s, i, st).to - i, Next(s, i, st).state)
            && InStep(s, Next(s, i, st).to, Next(s, i, st).state, out, o + Next(s, i, st).to - i))
  {
    hide Next, Bracketed, Name, Rewritten;
  }

  lemma {:induction false} ScansAlike(s: string, i: nat, st: State, out: string, o: nat)
    requires Synced(s, i, st, out, o) && EndWell(s, Chains(s, i, st))
    ensures Scan(out, o, st) == out[o..] && InStep(s, i, st, out, o)
    decreases |s| - i
  {
    hide InStep, Scan, Chains, Next, Written, ChainAt, ChainEnd, Bracketed, Name, SlashAhead, SameContext, SameBoundary,
      HasPrefix, EndsWell, EndWell;
    ScanHead(s, i, st);
    InStepUnfolded(s, i, st, out, o);
    if i == |s| {
      ScanStep(out, o, st);
    } else {
      var m := Next(s, i, st);
      RestEndsWell(s, i, st);
      if RewriteHere(s, i, st) {
        NameFacts(s, i);
        SyncedAfterRewrite(s, i, out, o);
        RewriteStep(s, i);
        var b := Bracketed(Name(s, i));
        ScansAlike(s, m.to, Code, out, o + |b|);
        BracketedAgain(out, o, Name(s, i));
        SplitAt(out, o, |b|);
      } else {
        var n := m.to - i;
        SyncedAfterCopy(s, i, st, out, o);
        CopiedAgain(s, i, st, out, o);
        ScanStep(out, o, st);
        ScansAlike(s, m.to, m.state, out, o + n);
        SplitAt(out, o, n);
      }
    }
  }

  lemma SplitAt(s: string, o: nat, n: nat)
    requires o + n <= |s|
    ensures s[o..] == s[o..o + n] + s[o + n..]
  {
  }

  lemma RestEndsWell(s: string, i: nat, st: State)
    requires i < |s| && EndWell(s, Chains(s, i, st))
    ensures EndWell(s, Chains(s, Next(s, i, st).to, Next(s, i, st).state))
    ensures ChainHere(s, i, st) ==> EndsWell(s, i)
  {
    hide Chains, Next, EndsWell, HasPrefix, Boundary;
    ChainsStep(s, i, st);
    if ChainHere(s, i, st) {
      assert i in Chains(s, i, st);
    }
  }

  /** With a hyphen behind it the slash begins a regular expression; with a bracket it divides. */
  lemma {:induction false} StepsPart(s: string, i: nat, out: string, o: nat)
    requires i <= |s| && o <= |out| && out[o..] == Scan(s, i, Code)
    requires RegexContext(s, i) && !RegexContext(out, o) && SlashAhead(s, i)
    ensures !InStep(s, i, Code, out, o)
    decreases |s| - i
  {
    hide InStep, Scan, Next, Written, Rewritten;
    PrefixBeginsWithD(s, i);
    NotRewritten(s, i);
    InStepUnfolded(s, i, Code, out, o);
    CopyAgrees(s, i, Code, out, o);
    if Blank(s[i]) {
      BlankStep(s, i);
      AgreeAt(s, i, out, o, 1, 0);
      StepsPart(s, i + 1, out, o + 1);
    } else {
      RegexOpens(s, i);
      AgreeAt(s, i, out, o, 1, 0);
      Divides(out, o);
    }
  }

  lemma NotRewritten(s: string, i: nat)
    requires i < |s| && s[i] != 'd'
    ensures !RewriteHere(s, i, Code)
  {
    PrefixBeginsWithD(s, i);
  }

  lemma RegexOpens(s: string, i: nat)
    requires i < |s| && s[i] == '/' && !Second(s, i, '/') && !Second(s, i, '*') && RegexContext(s, i)
    ensures Next(s, i, Code) == Move(i + 1, Regex)
  {
    hide RegexContext;
    PrefixBeginsWithD(s, i);
  }

  lemma Divides(s: string, i: nat)
    requires i < |s| && s[i] == '/' && !RegexContext(s, i)
    ensures Next(s, i, Code).state != Regex
  {
    hide RegexContext;
    PrefixBeginsWithD(s, i);
  }

  /** The first chain that does not end well is where the scans part. */
  lemma {:induction false} ScansPart(s: string, i: nat, st: State, out: string, o: nat)
    requires Synced(s, i, st, out, o) && !EndWell(s, Chains(s, i, st))
    ensures !InStep(s, i, st, out, o)
    decreases |s| - i
  {
    hide InStep, Scan, Chains, Next, Written, ChainAt, ChainEnd, Bracketed, Name, SlashAhead, SameContext,
      SameBoundary, HasPrefix, EndsWell, EndWell;
    InStepUnfolded(s, i, st, out, o);
    NotAllEndWell(s, i, st);
    var m := Next(s, i, st);
    if RewriteHere(s, i, st) {
      NameFacts(s, i);
      RewriteStep(s, i);
      if EndsWell(s, i) {
        SyncedAfterRewrite(s, i, out, o);
        ScansPart(s, m.to, Code, out, o + |Bracketed(Name(s, i))|);
      } else {
        PartAfterRewrite(s, i, out, o);
      }
    } else {
      SyncedAfterCopy(s, i, st, out, o);
      ScansPart(s, m.to, m.state, out, o + m.to - i);
    }
  }

  lemma PartAfterRewrite(s: string, i: nat, out: string, o: nat)
    requires i < |s| && o <= |out| && Rewritten(s, i) && !EndsWell(s, i) && out[o..] == Scan(s, i, Code)
    ensures !InStep(s, ChainEnd(s, i), Code, out, o + |Bracketed(Name(s, i))|)
  {
    hide InStep, Scan, SlashAhead, ChainEnd, Boundary, HasPrefix, Name, Bracketed;
    var b, e := Bracketed(Name(s, i)), ChainEnd(s, i);
    NameFacts(s, i);
    RewriteStep(s, i);
    SplitOutput(out, o, b, Scan(s, e, Code));
    BracketedLayout(out, o, Name(s, i));
    AfterHyphen(s, e);
    AfterBracket(out, o + |b|);
    StepsPart(s, e, out, o + |b|);
  }

  lemma NotAllEndWell(s: string, i: nat, st: State)
    requires i <= |s| && !EndWell(s, Chains(s, i, st))
    ensures i < |s|
    ensures EndWell(s, Chains(s, Next(s, i, st).to, Next(s, i, st).state)) ==>
      RewriteHere(s, i, st) && !EndsWell(s, i)
  {
    hide Chains, Next, Boundary, HasPrefix, SlashAhead;
    ChainsStep(s, i, st);
  }

  /** Exactly when every chain ends well does a second run read the text as the first one did. */
  lemma RunsInStep(s: string)
    ensures InStep(s, 0, Code, Preprocessed(s), 0) <==> EndWell(s, Chains(s, 0, Code))
  {
    hide Scan, Chains, EndWell, InStep;
    var out := Preprocessed(s);
    assert out[0..] == out;
    assert Synced(s, 0, Code, out, 0);
    if EndWell(s, Chains(s, 0, Code)) {
      ScansAlike(s, 0, Code, out, 0);
    } else {
      ScansPart(s, 0, Code, out, 0);
    }
  }

  /** A second run changes nothing exactly when the text that the first one wrote has no hyphenated
      chain that a run takes. */
  lemma SecondRunExactly(s: string)
    ensures var once := Preprocessed(s);
      Preprocessed(once) == once <==> Hyphenated(once, Chains(once, 0, Code)) == 0
  {
    hide Preprocessed, Chains, Hyphenated;
    UnchangedExactly(Preprocessed(s));
  }

  /** A second run changes nothing, unless a name that ends in a hyphen was rewritten before a slash. */
  lemma SecondRunKeeps(s: string)
    requires EndWell(s, Chains(s, 0, Code))
    ensures Preprocessed(Preprocessed(s)) == Preprocessed(s)
  {
    hide Scan, Chains, EndWell;
    var out := Preprocessed(s);
    assert out[0..] == out;
    assert Synced(s, 0, Code, out, 0);
    ScansAlike(s, 0, Code, out, 0);
  }

  // ----- When it does not -----

  /** Two chains, the first with a hyphen at its end, and a slash behind each. */
  function TwoChains(a: string, b: string): string {
    PREFIX + a + "/" + PREFIX + b + "/"
  }

  lemma ChainIs(s: string, i: nat, name: string)
    requires i + |PREFIX| + |name| < |s| && s[i..i + |PREFIX|] == PREFIX && Boundary(s, i) && Named(name)
    requires s[i + |PREFIX|..i + |PREFIX| + |name|] == name && !NameChar(s[i + |PREFIX| + |name|])
    ensures ChainAt(s, i) && ChainEnd(s, i) == i + |PREFIX| + |name| && Name(s, i) == name
  {
    hide NameChar, Boundary;
    var w, e := i + |PREFIX|, i + |PREFIX| + |name|;
    forall k | w <= k < e
      ensures NameChar(s[k])
    {
      assert s[k] == s[w..e][k - w];
    }
    RunEndIs(s, w, NameChar, e);
  }

  lemma ChainWritten(s: string, i: nat, name: string)
    requires i + |PREFIX| + |name| < |s| && s[i..i + |PREFIX|] == PREFIX && Boundary(s, i) && Named(name)
    requires s[i + |PREFIX|..i + |PREFIX| + |name|] == name && !NameChar(s[i + |PREFIX| + |name|])
    requires '-' in name
    ensures Scan(s, i, Code) == Bracketed(name) + Scan(s, i + |PREFIX| + |name|, Code)
  {
    hide NameChar, Boundary, Scan, ChainEnd, Name, Bracketed, Named;
    ChainIs(s, i, name);
    RewriteStep(s, i);
  }

  /** A slash that ends the text, or that plain text follows, is read as itself. */
  lemma SlashStep(s: string, i: nat)
    requires i < |s| && s[i] == '/' && !Second(s, i, '/') && !Second(s, i, '*')
    ensures Scan(s, i, Code) == "/" + Scan(s, i + 1, if RegexContext(s, i) then Regex else Code)
  {
    hide RegexContext, Scan, RunEnd;
    ScanStep(s, i, Code);
    PrefixBeginsWithD(s, i);
    assert s[i..i + 1] == "/";
  }

  lemma RegexCopies(s: string, i: nat, e: nat)
    requires PlainRun(s, i, e) && forall k :: i <= k < e ==> s[k] != '['
    ensures Scan(s, i, Regex) == s[i..e] + Scan(s, e, Regex)
  {
    hide Scan, RunEnd;
    forall k | i <= k < e
      ensures Next(s, k, Regex) == Move(k + 1, Regex) && Written(s, k, Regex) == [s[k]]
    {
      assert Plain(s[k]);
    }
    SteadyScan(s, i, e, Regex);
  }

  lemma RegexEnds(s: string)
    requires s != "" && s[|s| - 1] == '/'
    ensures Scan(s, |s| - 1, Regex) == "/"
  {
    hide Scan;
    ScanStep(s, |s| - 1, Regex);
    ScanStep(s, |s|, Code);
  }

  lemma LastSlash(s: string)
    requires s != "" && s[|s| - 1] == '/'
    ensures Scan(s, |s| - 1, Code) == "/"
  {
    hide Scan, RegexContext;
    SlashStep(s, |s| - 1);
    ScanStep(s, |s|, Code);
    ScanStep(s, |s|, Regex);
  }

  lemma SlashedLayout(x: string, b: string)
    ensures var s := x + "/" + PREFIX + b + "/"; var e := |x|; var w := e + 1 + |PREFIX|; var f := w + |b|;
      |s| == f + 1 && s[0..e] == x && s[e] == '/' && s[e + 1] == 'd' && s[e + 1..w] == PREFIX && s[w..f] == b
      && s[e + 1..f] == PREFIX + b && s[f] == '/'
  {
    var s := x + "/" + PREFIX + b + "/";
    assert s[|x| + 1] == PREFIX[0];
  }

  lemma Slashed(first: string, second: string)
    ensures first + ("/" + (second + "/")) == first + "/" + second + "/"
  {
  }

  /** Of two such chains the first run takes the slash for the beginning of a regular expression, whose
      text it keeps; the second run, which has a bracket before the slash, takes it for a division. */
  lemma FirstRun(a: string, b: string)
    requires Named(a) && a != "" && a[|a| - 1] == '-' && Named(b)
    ensures Preprocessed(TwoChains(a, b)) == Bracketed(a) + "/" + PREFIX + b + "/"
  {
    hide Scan, NameChar, Named, Bracketed, RegexContext;
    var s := TwoChains(a, b);
    var w, e := |PREFIX|, |PREFIX| + |a|;
    SlashedLayout(PREFIX + a, b);
    assert s[0..w] == s[0..e][..w] == PREFIX && s[w..e] == s[0..e][w..] == a;
    SlashNoName();
    ChainWritten(s, 0, a);
    assert s[e - 1] == s[w..e][|a| - 1];
    TakenForRegex(s, e, b);
    ScanFromStart(s);
    Slashed(Bracketed(a), PREFIX + b);
    Glue(Bracketed(a) + "/", PREFIX, b);
  }

  lemma TakenForRegex(s: string, e: nat, b: string)
    requires Named(b) && 0 < e && e + 2 + |PREFIX| + |b| == |s|
    requires s[e - 1] == '-' && s[e] == '/' && s[e + 1] == 'd' && s[|s| - 1] == '/'
    requires s[e + 1..|s| - 1] == PREFIX + b
    ensures Scan(s, e, Code) == "/" + ((PREFIX + b) + "/")
  {
    hide Scan, NameChar, Named, RegexContext, PlainRun;
    AfterHyphen(s, e);
    SlashStep(s, e);
    PrefixedIsPlain(s, e + 1, b);
    RegexCopies(s, e + 1, |s| - 1);
    RegexEnds(s);
  }

  lemma SecondRun(a: string, b: string)
    requires Named(a) && Named(b) && '-' in b
    ensures Preprocessed(Bracketed(a) + "/" + PREFIX + b + "/") == Bracketed(a) + "/" + Bracketed(b) + "/"
  {
    hide Scan, NameChar, Named, RegexContext, Bracketed;
    var s := Bracketed(a) + "/" + PREFIX + b + "/";
    var e := |Bracketed(a)|;
    var w := e + 1 + |PREFIX|;
    var f := w + |b|;
    SlashedLayout(Bracketed(a), b);
    SlashNoName();
    BracketedAgain(s, 0, a);
    BracketedLayout(s, 0, a);
    AfterBracket(s, e);
    SlashStep(s, e);
    ChainWritten(s, e + 1, b);
    LastSlash(s);
    ScanFromStart(s);
    Slashed(Bracketed(a), Bracketed(b));
  }

  lemma SlashNoName()
    ensures !NameChar('/') && !IdentChar('/')
  {
  }

  lemma AfterHyphen(s: string, e: nat)
    requires 0 < e <= |s| && s[e - 1] == '-'
    ensures RegexContext(s, e)
  {
  }

  lemma AfterBracket(s: string, e: nat)
    requires 0 < e <= |s| && s[e - 1] == ']'
    ensures !RegexContext(s, e)
  {
  }

  lemma PrefixedIsPlain(s: string, i: nat, name: string)
    requires Named(name) && i + |PREFIX| + |name| <= |s|
    requires s[i..i + |PREFIX| + |name|] == PREFIX + name
    ensures PlainRun(s, i, i + |PREFIX| + |name|)
    ensures forall k :: i <= k < i + |PREFIX| + |name| ==> s[k] != '['
  {
    var e := i + |PREFIX| + |name|;
    PrefixPlain();
    forall k | i <= k < e
      ensures Plain(s[k]) && s[k] != '['
    {
      assert s[k] == (PREFIX + name)[k - i];
      if k - i < |PREFIX| {
        NoBracketInPrefix(k - i);
      } else {
        assert NameChar(name[k - i - |PREFIX|]);
      }
    }
  }

  lemma NoBracketInPrefix(k: nat)
    requires k < |PREFIX|
    ensures PREFIX[k] != '[' && Plain(PREFIX[k])
  {
  }

  /** So the condition of SecondRunKeeps cannot be dropped: for every two such names the second run
      rewrites what the first one left alone. */
  lemma SecondRunChanges(a: string, b: string)
    requires Named(a) && a != "" && a[|a| - 1] == '-' && Named(b) && '-' in b
    ensures var once := Preprocessed(TwoChains(a, b)); |Preprocessed(once)| == |once| + 3
  {
    hide Preprocessed, Named, TwoChains;
    FirstRun(a, b);
    SecondRun(a, b);
  }
}
