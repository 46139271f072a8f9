/** The two-row edit distance used to rank completion candidates, proved to be the
    minimum cost over all edit scripts and a metric on case-folded strings. */
module Levenshtein {
  import opened Common

  // ----- Edit scripts: what the distance measures -----

  datatype Edit = Keep | Replace(c: char) | Delete | Insert(c: char)

  type Script = seq<Edit>

  /** How many characters an edit consumes. */
  function Takes(e: Edit): nat { if e.Insert? then 0 else 1 }

  /** What an edit writes for the characters it consumed. */
  function Emits(e: Edit, taken: string): string {
    match e
    case Keep => taken
    case Delete => []
    case Replace(c) => [c]
    case Insert(c) => [c]
  }

  /** Plays a script from left to right; None when it does not fit the string. */
  function Play(script: Script, s: string): Option<string> {
    if script == [] then (if s == [] then Some([]) else None)
    else
      var n := Takes(script[0]);
      if |s| < n then None
      else
        var rest := Play(script[1..], s[n..]);
        if rest.None? then None else Some(Emits(script[0], s[..n]) + rest.value)
  }

  lemma PlayStep(script: Script, s: string)
    ensures Play(script, s) ==
      if script == [] then (if s == [] then Some([]) else None)
      else if |s| < Takes(script[0]) then None
      else
        var rest := Play(script[1..], s[Takes(script[0])..]);
        if rest.None? then None else Some(Emits(script[0], s[..Takes(script[0])]) + rest.value)
  {
    hide Emits;
  }

  function Cost(script: Script): nat {
    if script == [] then 0 else (if script[0].Keep? then 0 else 1) + Cost(script[1..])
  }

  // ----- The recurrence of the dynamic programme -----

  function Min3(a: nat, b: nat, c: nat): nat {
    if a <= b && a <= c then a else if b <= c then b else c
  }

  function Abs(x: int): nat { if x < 0 then -x else x }

  function Max(a: nat, b: nat): nat { if a < b then b else a }

  /** The distance between the prefixes a[..i] and b[..j]. */
  function PrefixDist(a: string, b: string, i: nat, j: nat): nat
    requires i <= |a| && j <= |b|
  {
    if i == 0 then j
    else if j == 0 then i
    else Min3(PrefixDist(a, b, i - 1, j) + 1, PrefixDist(a, b, i, j - 1) + 1,
              PrefixDist(a, b, i - 1, j - 1) + if a[i - 1] == b[j - 1] then 0 else 1)
  }

  lemma Recurrence(a: string, b: string, i: nat, j: nat)
    requires i <= |a| && j <= |b|
    ensures i == 0 ==> PrefixDist(a, b, i, j) == j
    ensures j == 0 ==> PrefixDist(a, b, i, j) == i
    ensures i != 0 && j != 0 ==>
      PrefixDist(a, b, i, j) ==
      Min3(PrefixDist(a, b, i - 1, j) + 1, PrefixDist(a, b, i, j - 1) + 1,
           PrefixDist(a, b, i - 1, j - 1) + if a[i - 1] == b[j - 1] then 0 else 1)
  {
  }

  function Dist(a: string, b: string): nat {
    PrefixDist(a, b, |a|, |b|)
  }

  // ----- Dist is the minimum cost of a script -----

  lemma {:induction false} PlayAppend(p: Script, q: Script, s: string, t: string)
    requires Play(p, s).Some? && Play(q, t).Some?
    ensures Play(p + q, s + t) == Some(Play(p, s).value + Play(q, t).value)
    ensures Cost(p + q) == Cost(p) + Cost(q)
    decreases |p|
  {
    hide Play, Emits;
    PlayStep([], s);
    if p == [] {
      assert p + q == q && s + t == t && [] + Play(q, t).value == Play(q, t).value;
    } else {
      assert (p + q)[1..] == p[1..] + q;
      PlayStep(p, s);
      PlayStep(p + q, s + t);
      var n := Takes(p[0]);
      assert (s + t)[n..] == s[n..] + t && (s + t)[..n] == s[..n];
      PlayAppend(p[1..], q, s[n..], t);
      Glue(Emits(p[0], s[..n]), Play(p[1..], s[n..]).value, Play(q, t).value);
    }
  }

  /** Splits a played script before its last edit. */
  lemma {:induction false} PlaySplit(p: Script, e: Edit, s: string) returns (k: nat)
    requires Play(p + [e], s).Some?
    ensures k <= |s| && Play(p, s[..k]).Some? && Play([e], s[k..]).Some?
    ensures Play(p + [e], s).value == Play(p, s[..k]).value + Play([e], s[k..]).value
    decreases |p|
  {
    hide Play, Emits;
    if p == [] {
      k := 0;
      PlayStep([], s[..0]);
      assert p + [e] == [e] && s[0..] == s;
    } else {
      assert (p + [e])[1..] == p[1..] + [e];
      PlayStep(p + [e], s);
      var n := Takes(p[0]);
      var k' := PlaySplit(p[1..], e, s[n..]);
      k := k' + n;
      assert s[..k][n..] == s[n..][..k'] && s[k..] == s[n..][k'..] && s[..k][..n] == s[..n];
      PlayStep(p, s[..k]);
      Glue(Emits(p[0], s[..n]), Play(p[1..], s[n..][..k']).value, Play([e], s[k..]).value);
    }
  }

  lemma {:induction false} CostSnoc(p: Script, e: Edit)
    ensures Cost(p + [e]) == Cost(p) + if e.Keep? then 0 else 1
  {
    if p != [] {
      assert (p + [e])[1..] == p[1..] + [e];
      CostSnoc(p[1..], e);
    }
  }

  /** Undoes the last edit of a script that rewrites the prefix a[..i] into b[..j]. */
  lemma DropLast(p: Script, e: Edit, a: string, b: string, i: nat, j: nat) returns (k: nat, l: nat)
    requires i <= |a| && j <= |b| && Play(p + [e], a[..i]) == Some(b[..j])
    ensures k + Takes(e) == i && l + (if e.Delete? then 0 else 1) == j
    ensures Play(p, a[..k]) == Some(b[..l])
    ensures e.Keep? ==> a[k] == b[l]
  {
    k := PlaySplit(p, e, a[..i]);
    PlayOne(e, a[..i][k..]);
    hide Play;
    var tail, front := Emits(e, a[..i][k..]), Play(p, a[..i][..k]).value;
    assert a[..i][..k] == a[..k] && b[..j] == front + tail;
    l := |front|;
    assert front == b[..j][..l] == b[..l];
    if e.Keep? {
      assert b[l] == b[..j][l] == tail[0] == a[..i][k..][0] == a[k];
    }
  }

  /** One more edit moves the prefix distance by at most its cost. */
  lemma OneEdit(a: string, b: string, e: Edit, k: nat, l: nat)
    requires k + Takes(e) <= |a| && l + (if e.Delete? then 0 else 1) <= |b|
    requires e.Keep? ==> a[k] == b[l]
    ensures PrefixDist(a, b, k + Takes(e), l + if e.Delete? then 0 else 1)
         <= PrefixDist(a, b, k, l) + if e.Keep? then 0 else 1
  {
    hide PrefixDist;
    Recurrence(a, b, k, l);
    Recurrence(a, b, k + Takes(e), l + if e.Delete? then 0 else 1);
  }

  /** No script is cheaper than Dist. */
  lemma {:induction false} DistIsLowerBound(script: Script, a: string, b: string, i: nat, j: nat)
    requires i <= |a| && j <= |b| && Play(script, a[..i]) == Some(b[..j])
    ensures PrefixDist(a, b, i, j) <= Cost(script)
    decreases |script|
  {
    if script != [] {
      hide *;
      var p, e := script[..|script| - 1], script[|script| - 1];
      assert script == p + [e];
      CostSnoc(p, e);
      var k, l := DropLast(p, e, a, b, i, j);
      DistIsLowerBound(p, a, b, k, l);
      OneEdit(a, b, e, k, l);
    }
  }

  /** The edit that ends a cheapest script for the prefixes. */
  function LastEdit(a: string, b: string, i: nat, j: nat): Edit
    requires i <= |a| && j <= |b| && (i != 0 || j != 0)
  {
    if i == 0 || (j != 0 && PrefixDist(a, b, i, j) == PrefixDist(a, b, i, j - 1) + 1) then Insert(b[j - 1])
    else if j == 0 || PrefixDist(a, b, i, j) == PrefixDist(a, b, i - 1, j) + 1 then Delete
    else if a[i - 1] == b[j - 1] then Keep
    else Replace(b[j - 1])
  }

  lemma LastEditCost(a: string, b: string, i: nat, j: nat)
    requires i <= |a| && j <= |b| && (i != 0 || j != 0)
    ensures var e := LastEdit(a, b, i, j); var l := if e.Delete? then j else j - 1;
      && Takes(e) <= i && 0 <= l
      && PrefixDist(a, b, i, j) == PrefixDist(a, b, i - Takes(e), l) + if e.Keep? then 0 else 1
  {
    hide PrefixDist;
    Recurrence(a, b, i, j);
    if j != 0 { Recurrence(a, b, i, j - 1); }
    if i != 0 { Recurrence(a, b, i - 1, j); }
  }

  /** Some script reaches Dist. */
  lemma {:induction false} DistIsReached(a: string, b: string, i: nat, j: nat) returns (script: Script)
    requires i <= |a| && j <= |b|
    ensures Play(script, a[..i]) == Some(b[..j]) && Cost(script) == PrefixDist(a, b, i, j)
  {
    hide PrefixDist, Play, Cost;
    if i == 0 && j == 0 {
      script := [];
      Recurrence(a, b, i, j);
      EmptyScript();
      assert a[..i] == [] && b[..j] == [];
    } else {
      LastEditCost(a, b, i, j);
      var e := LastEdit(a, b, i, j);
      script := DistIsReached(a, b, i - Takes(e), if e.Delete? then j else j - 1);
      script := ExtendPrefix(script, e, a, b, i, j);
    }
  }

  lemma EmptyScript()
    ensures Play([], "") == Some("") && Cost([]) == 0
  {
  }

  lemma ExtendPrefix(p: Script, e: Edit, a: string, b: string, i: nat, j: nat) returns (script: Script)
    requires Takes(e) <= i <= |a| && (if e.Delete? then 0 else 1) <= j <= |b|
    requires Play(p, a[..i - Takes(e)]) == Some(b[..if e.Delete? then j else j - 1])
    requires match e
      case Keep => a[i - 1] == b[j - 1]
      case Delete => true
      case Replace(c) => c == b[j - 1]
      case Insert(c) => c == b[j - 1]
    ensures Cost(script) == Cost(p) + if e.Keep? then 0 else 1
    ensures Play(script, a[..i]) == Some(b[..j])
  {
    hide Play, Cost;
    var k := i - Takes(e);
    script := Extend(p, e, a[..k], a[k..i]);
    assert a[..k] + a[k..i] == a[..i];
    assert b[..if e.Delete? then j else j - 1] + Emits(e, a[k..i]) == b[..j];
  }

  /** Adds one edit at the end of a script; the edit consumes `tail`. */
  lemma Extend(p: Script, e: Edit, s: string, tail: string) returns (script: Script)
    requires Play(p, s).Some?
    requires |tail| == Takes(e)
    ensures Cost(script) == Cost(p) + if e.Keep? then 0 else 1
    ensures Play(script, s + tail) == Some(Play(p, s).value + Emits(e, tail))
  {
    script := p + [e];
    PlayOne(e, tail);
    CostSnoc(p, e);
    PlayAppend(p, [e], s, tail);
  }

  lemma PlayOne(e: Edit, s: string)
    ensures Play([e], s) == if |s| == Takes(e) then Some(Emits(e, s)) else None
  {
    var n := Takes(e);
    if n <= |s| {
      assert s[n..] == [] <==> |s| == n;
      assert |s| == n ==> s[..n] == s;
      assert [e][1..] == [] && Emits(e, s[..n]) + [] == Emits(e, s[..n]);
    }
  }

  ghost predicate IsMinimumCost(d: nat, a: string, b: string) {
    && (exists script :: Play(script, a) == Some(b) && Cost(script) == d)
    && (forall script :: Play(script, a) == Some(b) ==> d <= Cost(script))
  }

  lemma DistIsMinimumCost(a: string, b: string)
    ensures IsMinimumCost(Dist(a, b), a, b)
  {
    assert a[..|a|] == a && b[..|b|] == b;
    var best := DistIsReached(a, b, |a|, |b|);
    assert Play(best, a) == Some(b) && Cost(best) == Dist(a, b);
    forall script | Play(script, a) == Some(b) ensures Dist(a, b) <= Cost(script) {
      DistIsLowerBound(script, a, b, |a|, |b|);
    }
  }

  // ----- Dist is a metric -----

  lemma {:induction false} PrefixSymmetric(a: string, b: string, i: nat, j: nat)
    requires i <= |a| && j <= |b|
    ensures PrefixDist(a, b, i, j) == PrefixDist(b, a, j, i)
  {
    hide PrefixDist;
    Recurrence(a, b, i, j);
    Recurrence(b, a, j, i);
    if i != 0 && j != 0 {
      PrefixSymmetric(a, b, i - 1, j);
      PrefixSymmetric(a, b, i, j - 1);
      PrefixSymmetric(a, b, i - 1, j - 1);
    }
  }

  lemma {:induction false} PrefixBounds(a: string, b: string, i: nat, j: nat)
    requires i <= |a| && j <= |b|
    ensures Abs(i - j) <= PrefixDist(a, b, i, j) <= Max(i, j)
  {
    hide PrefixDist;
    Recurrence(a, b, i, j);
    if i != 0 && j != 0 {
      PrefixBounds(a, b, i - 1, j);
      PrefixBounds(a, b, i, j - 1);
      PrefixBounds(a, b, i - 1, j - 1);
    }
  }

  lemma {:induction false} PrefixZero(a: string, b: string, i: nat, j: nat)
    requires i <= |a| && j <= |b|
    ensures PrefixDist(a, b, i, j) == 0 <==> i == j && forall k :: 0 <= k < i ==> a[k] == b[k]
  {
    hide PrefixDist;
    Recurrence(a, b, i, j);
    if i != 0 && j != 0 {
      PrefixZero(a, b, i - 1, j - 1);
    }
  }

  lemma {:induction false} PrefixTriangle(a: string, b: string, c: string, i: nat, j: nat, k: nat)
    requires i <= |a| && j <= |b| && k <= |c|
    ensures PrefixDist(a, c, i, k) <= PrefixDist(a, b, i, j) + PrefixDist(b, c, j, k)
  {
    hide PrefixDist;
    PrefixBounds(a, b, i, j);
    PrefixBounds(b, c, j, k);
    PrefixBounds(a, c, i, k);
    Recurrence(a, b, i, j);
    Recurrence(b, c, j, k);
    Recurrence(a, c, i, k);
    if i != 0 && j != 0 && k != 0 {
      if PrefixDist(a, b, i, j) == PrefixDist(a, b, i - 1, j) + 1 {
        PrefixTriangle(a, b, c, i - 1, j, k);
      } else if PrefixDist(b, c, j, k) == PrefixDist(b, c, j, k - 1) + 1 {
        PrefixTriangle(a, b, c, i, j, k - 1);
      } else if PrefixDist(a, b, i, j) == PrefixDist(a, b, i, j - 1) + 1 {
        PrefixTriangle(a, b, c, i, j - 1, k);
        PrefixTriangle(a, b, c, i, j - 1, k - 1);
      } else {
        PrefixTriangle(a, b, c, i - 1, j - 1, k);
        PrefixTriangle(a, b, c, i - 1, j - 1, k - 1);
      }
    }
  }

  /** The distance is a metric, and lies between the length difference and the longer length. */
  lemma DistIsMetric(a: string, b: string, c: string)
    ensures Dist(a, b) == Dist(b, a)
    ensures Dist(a, b) == 0 <==> a == b
    ensures Dist(a, c) <= Dist(a, b) + Dist(b, c)
    ensures Abs(|a| - |b|) <= Dist(a, b) <= Max(|a|, |b|)
  {
    PrefixSymmetric(a, b, |a|, |b|);
    PrefixZero(a, b, |a|, |b|);
    PrefixTriangle(a, b, c, |a|, |b|, |c|);
    PrefixBounds(a, b, |a|, |b|);
  }

  // ----- The implementation -----

  /** std::tolower of the "C" locale. */
  function ToLower(c: char): char {
    if 'A' <= c <= 'Z' then (c as int + 32) as char else c
  }

  /** Letter by letter, and nothing else changes. */
  lemma ToLowerIs(c: char)
    ensures forall k :: 0 <= k < 26 ==> ToLower("ABCDEFGHIJKLMNOPQRSTUVWXYZ"[k]) == "abcdefghijklmnopqrstuvwxyz"[k]
    ensures c !in "ABCDEFGHIJKLMNOPQRSTUVWXYZ" ==> ToLower(c) == c
  {
    var upper := "ABCDEFGHIJKLMNOPQRSTUVWXYZ";
    if 'A' <= c <= 'Z' { assert upper[c as int - 65] == c; }
  }

  function FoldChar(c: char, caseSensitive: bool): char {
    if caseSensitive then c else ToLower(c)
  }

  function Fold(s: string, caseSensitive: bool): (r: string)
    ensures |r| == |s| && forall k :: 0 <= k < |s| ==> r[k] == FoldChar(s[k], caseSensitive)
  {
    seq(|s|, i requires 0 <= i < |s| => FoldChar(s[i], caseSensitive))
  }

  /** The array holds row i of the programme. */
  ghost predicate IsRow(row: array<nat>, a: string, b: string, i: nat)
    reads row
  {
    row.Length == |b| + 1 && i <= |a| && forall k :: 0 <= k <= |b| ==> row[k] == PrefixDist(a, b, i, k)
  }

  /** The inner loop: row i of the programme from row i - 1. */
  method FillRow(prev: array<nat>, curr: array<nat>, c1: char, s2: string, caseSensitive: bool,
                 ghost f1: string, i: nat)
    requires prev != curr && curr.Length == prev.Length
    requires 0 < i <= |f1| && f1[i - 1] == c1
    requires IsRow(prev, f1, Fold(s2, caseSensitive), i - 1)
    modifies curr
    ensures IsRow(curr, f1, Fold(s2, caseSensitive), i)
  {
    hide PrefixDist, Fold;
    ghost var f2 := Fold(s2, caseSensitive);
    curr[0] := i;
    Recurrence(f1, f2, i, 0);
    for j := 1 to |s2| + 1
      invariant forall k :: 0 <= k < j ==> curr[k] == PrefixDist(f1, f2, i, k)
    {
      var c2 := FoldChar(s2[j - 1], caseSensitive);
      var cost := if c1 == c2 then 0 else 1;
      Recurrence(f1, f2, i, j);
      curr[j] := Min3(prev[j] + 1, curr[j - 1] + 1, prev[j - 1] + cost);
    }
  }

  method LevenshteinDistance(s1: string, s2: string, caseSensitive: bool) returns (d: nat)
    ensures IsMinimumCost(d, Fold(s1, caseSensitive), Fold(s2, caseSensitive))
    ensures d == Dist(Fold(s1, caseSensitive), Fold(s2, caseSensitive))
  {
    ghost var f1, f2 := Fold(s1, caseSensitive), Fold(s2, caseSensitive);
    DistIsMinimumCost(f1, f2);
    var len1, len2 := |s1|, |s2|;
    hide PrefixDist, IsMinimumCost, Fold;
    Recurrence(f1, f2, len1, len2);
    if len1 == 0 { return len2; }
    if len2 == 0 { return len1; }

    var prev, curr := new nat[len2 + 1], new nat[len2 + 1];
    for j := 0 to len2 + 1
      invariant forall k :: 0 <= k < j ==> prev[k] == PrefixDist(f1, f2, 0, k)
    {
      prev[j] := j;
      Recurrence(f1, f2, 0, j);
    }
    for i := 1 to len1 + 1
      invariant IsRow(prev, f1, f2, i - 1)
    {
      FillRow(prev, curr, FoldChar(s1[i - 1], caseSensitive), s2, caseSensitive, f1, i);
      forall k | 0 <= k <= len2 { prev[k] := curr[k]; }
    }
    return prev[len2];
  }

  /** The value of LevenshteinSimilarity over the reals. */
  function Similarity(a: string, b: string): real {
    if a == [] && b == [] then 1.0
    else 1.0 - Dist(a, b) as real / Max(|a|, |b|) as real
  }

  lemma SimilarityScale(a: string, b: string)
    ensures 0.0 <= Similarity(a, b) <= 1.0
    ensures Similarity(a, b) == Similarity(b, a)
    ensures Similarity(a, b) == 1.0 <==> a == b
  {
    DistIsMetric(a, b, a);
    if a != [] || b != [] {
      Ratio(Dist(a, b), Max(|a|, |b|));
    }
  }

  /** The similarity is the part of the longer length that needs no edit. */
  lemma SimilarityIs(a: string, b: string)
    requires a != "" || b != ""
    ensures Similarity(a, b) * Max(|a|, |b|) as real == (Max(|a|, |b|) - Dist(a, b)) as real
  {
    hide Dist;
    DistIsMetric(a, b, a);
    PartOf(Dist(a, b), Max(|a|, |b|));
  }

  lemma PartOf(d: nat, m: nat)
    requires d <= m && 0 < m
    ensures (1.0 - d as real / m as real) * m as real == (m - d) as real
  {
    var x, y := d as real, m as real;
    assert x / y * y == x;
    assert (1.0 - x / y) * y == y - x / y * y;
  }

  lemma Ratio(d: nat, m: nat)
    requires d <= m && 0 < m
    ensures 0.0 <= d as real / m as real <= 1.0
    ensures d as real / m as real == 0.0 <==> d == 0
  {
    var q := d as real / m as real;
    assert q * m as real == d as real;
  }

  method LevenshteinSimilarity(s1: string, s2: string, caseSensitive: bool) returns (r: real)
    ensures r == Similarity(Fold(s1, caseSensitive), Fold(s2, caseSensitive))
    ensures 0.0 <= r <= 1.0
    ensures r == 1.0 <==> Fold(s1, caseSensitive) == Fold(s2, caseSensitive)
  {
    SimilarityScale(Fold(s1, caseSensitive), Fold(s2, caseSensitive));
    if |s1| == 0 && |s2| == 0 { return 1.0; }
    var maxLen := Max(|s1|, |s2|);
    var dist := LevenshteinDistance(s1, s2, caseSensitive);
    return 1.0 - dist as real / maxLen as real;
  }
}
