/** The masked byte-pattern scanner: which addresses it reports, and that no larger set of
    non-overlapping matches exists. */
module Scanner {
  import opened Common

  /** Readable memory: bytes[i] is the byte at address first + i. */
  datatype Region = Region(first: nat, bytes: string)
  {
    predicate Covers(start: nat, end: nat) {
      first <= start && end <= first + |bytes|
    }

    function At(address: nat): char
      requires Covers(address, address + 1)
    {
      bytes[address - first]
    }
  }

  /** The mask is a std::string read as a C string: comparison stops at the first NUL. */
  function CLength(mask: string): (n: nat)
    ensures n <= |mask|
    ensures forall k :: 0 <= k < n ==> mask[k] != '\0'
    ensures n < |mask| ==> mask[n] == '\0'
  {
    if mask == "" || mask[0] == '\0' then 0 else 1 + CLength(mask[1..])
  }

  /** What a search looks for. */
  datatype Query = Query(mem: Region, pattern: string, mask: string)
  {
    /** The pattern pointer must hold a byte for each mask character that is compared. A range that
        is not empty must be readable, and no window that begins in it may pass the end of the
        address space; SumsAreRight shows that the code's test needs exactly this. */
    predicate Valid(start: nat, end: nat) {
      && CLength(mask) <= |pattern| && start < TWO64 && end < TWO64
      && (start < end ==> mem.Covers(start, end) && end + |mask| <= TWO64)
    }
  }

  /** The bytes at p agree with the pattern wherever the mask says x. */
  ghost predicate Match(q: Query, p: nat) {
    && q.mem.Covers(p, p + CLength(q.mask)) && CLength(q.mask) <= |q.pattern|
    && forall k :: 0 <= k < CLength(q.mask) && q.mask[k] == 'x' ==> q.mem.At(p + k) == q.pattern[k]
  }

  /** A match whose whole mask fits between start and end. */
  ghost predicate Hit(q: Query, start: nat, end: nat, p: nat) {
    start <= p && p + |q.mask| <= end && Match(q, p)
  }

  ghost predicate NoHit(q: Query, start: nat, end: nat) {
    forall p: nat :: !Hit(q, start, end, p)
  }

  ghost predicate FirstHit(q: Query, start: nat, end: nat, found: nat) {
    Hit(q, start, end, found) && forall p: nat :: Hit(q, start, end, p) ==> found <= p
  }

  method Compare(q: Query, p: nat) returns (equal: bool)
    requires q.mem.Covers(p, p + CLength(q.mask)) && CLength(q.mask) <= |q.pattern|
    ensures equal == Match(q, p)
  {
    var i := 0;
    while i < |q.mask| && q.mask[i] != '\0'
      invariant i <= CLength(q.mask)
      invariant forall k :: 0 <= k < i && q.mask[k] == 'x' ==> q.mem.At(p + k) == q.pattern[k]
    {
      if q.mask[i] == 'x' && q.mem.At(p + i) != q.pattern[i] {
        return false;
      }
      i := i + 1;
    }
    return true;
  }

  /** The 64-bit test of window i gives the true answer. */
  predicate SumRight(start: nat, end: nat, n: nat, i: nat) {
    (start + i + n) % TWO64 > end <==> start + i + n > end
  }

  /** The sums of a search are right for every window exactly when the last one does not wrap. */
  lemma SumsAreRight(start: nat, end: nat, n: nat)
    requires start < end < TWO64 && 0 < n < TWO64
    ensures (forall i: nat :: i < end - start ==> SumRight(start, end, n, i)) <==> end + n <= TWO64
  {
    if end + n > TWO64 {
      assert end - 1 + n - TWO64 < TWO64;
      assert !SumRight(start, end, n, end - 1 - start);
    }
  }

  /** The first hit, or 0: the code cannot tell a hit at address 0 from none. */
  method FindInRange(q: Query, start: nat, end: nat) returns (found: nat)
    requires q.Valid(start, end) && (end < start ==> start + |q.mask| < TWO64)
    ensures q.mask == "" ==> found == 0
    ensures found != 0 ==> FirstHit(q, start, end, found)
    ensures found == 0 && q.mask != "" ==>
      NoHit(q, start, end) || (start == 0 && Hit(q, start, end, 0))
  {
    hide Match;
    var scanSize := |q.mask|;
    if scanSize < 1 || (start + scanSize) % TWO64 > end {
      return 0;
    }
    var length := (end - start) % TWO64;
    for i := 0 to length
      invariant forall p :: start <= p < start + i ==> !Hit(q, start, end, p)
    {
      var currentEnd := (start + i + scanSize) % TWO64;
      if currentEnd > end {
        break;
      }
      var equal := Compare(q, start + i);
      if !equal {
        continue;
      }
      return start + i;
    }
    return 0;
  }

  /** The addresses ascend, at least n apart. */
  ghost predicate Apart(list: seq<nat>, n: nat) {
    forall i, j :: 0 <= i < j < |list| ==> list[i] + n <= list[j]
  }

  /** p lies in one of the windows of n bytes that start at the listed addresses. */
  ghost predicate Covered(list: seq<nat>, n: nat, p: nat) {
    exists i :: 0 <= i < |list| && list[i] <= p < list[i] + n
  }

  /** Every hit below the bound overlaps a reported one that starts no later. */
  ghost predicate Exhaustive(q: Query, start: nat, end: nat, list: seq<nat>, bound: nat) {
    forall p: nat :: Hit(q, start, end, p) && p < bound ==> Covered(list, |q.mask|, p)
  }

  /** Hits that do not overlap each other. */
  ghost predicate Disjoint(q: Query, start: nat, end: nat, hits: set<nat>) {
    && (forall p :: p in hits ==> Hit(q, start, end, p))
    && Separate(hits, |q.mask|)
  }

  ghost predicate Separate(hits: set<nat>, n: nat) {
    forall p, r :: p in hits && r in hits && p < r ==> p + n <= r
  }

  /** The reported addresses are hits in ascending order that do not overlap. Together they
      overlap every hit, and are as many as non-overlapping hits can be, exactly when the search
      does not begin at address 0 with a hit right there. */
  method FindBytesAll(q: Query, start: nat, end: nat) returns (list: seq<nat>)
    requires q.Valid(start, end)
    ensures forall i :: 0 <= i < |list| ==> Hit(q, start, end, list[i])
    ensures Apart(list, |q.mask|)
    ensures q.mask == "" ==> list == []
    ensures q.mask != "" ==>
      (Exhaustive(q, start, end, list, end) <==> !(start == 0 && Hit(q, start, end, 0)))
    ensures q.mask != "" && !(start == 0 && Hit(q, start, end, 0)) ==>
      forall hits :: Disjoint(q, start, end, hits) ==> |hits| <= |list|
  {
    hide Match, Hit, Covered, Exhaustive, Disjoint;
    HitRange(q);
    NothingBelow(q, start, end);
    list := [];
    if start < end {
      var current := start;
      var scanSize := |q.mask|;
      while true
        invariant start <= current <= end
        invariant if list == [] then current == start
                  else current == list[|list| - 1] + scanSize && scanSize > 0
        invariant list != [] && start == 0 ==> !Hit(q, start, end, 0)
        invariant forall i :: 0 <= i < |list| ==> Hit(q, start, end, list[i])
        invariant Apart(list, scanSize)
        invariant Exhaustive(q, start, end, list, current)
        decreases end - current
      {
        if list != [] {
          current := list[|list| - 1] + scanSize;
        }
        var found := FindInRange(q, current, end);
        if found == 0 {
          break;
        }
        Extend(q, start, end, list, current, found);
        list := list + [found];
        current := found + scanSize;
      }
      Finish(q, start, end, list, current);
    }
    Conclude(q, start, end, list);
  }

  /** When the search from current finds nothing, every hit is covered. */
  lemma Finish(q: Query, start: nat, end: nat, list: seq<nat>, current: nat)
    requires start <= current && Exhaustive(q, start, end, list, current)
    requires q.mask != "" ==> NoHit(q, current, end) || (current == 0 && Hit(q, 0, end, 0))
    ensures q.mask != "" && NoHit(q, current, end) ==> Exhaustive(q, start, end, list, end)
  {
    forall p: nat | Hit(q, start, end, p) && current <= p ensures Hit(q, current, end, p) { }
  }

  lemma Conclude(q: Query, start: nat, end: nat, list: seq<nat>)
    requires q.mask != "" && !(start == 0 && Hit(q, start, end, 0)) ==> Exhaustive(q, start, end, list, end)
    ensures q.mask != "" && !(start == 0 && Hit(q, start, end, 0)) ==>
      forall hits :: Disjoint(q, start, end, hits) ==> |hits| <= |list|
    ensures q.mask != "" && start == 0 && Hit(q, start, end, 0) && list == [] ==>
      !Exhaustive(q, start, end, list, end)
  {
    if q.mask != "" && !(start == 0 && Hit(q, start, end, 0)) {
      forall hits | Disjoint(q, start, end, hits) ensures |hits| <= |list| {
        GreedyIsOptimal(q, start, end, list, hits);
      }
    }
  }

  lemma HitRange(q: Query)
    ensures forall start: nat, end: nat, p: nat :: Hit(q, start, end, p) ==> start <= p && p + |q.mask| <= end
    ensures forall start: nat, current: nat, end: nat, p: nat ::
      Hit(q, current, end, p) && start <= current ==> Hit(q, start, end, p)
  {
  }

  lemma NothingBelow(q: Query, start: nat, end: nat)
    ensures Exhaustive(q, start, end, [], start)
    ensures end <= start ==> q.mask != "" ==> Exhaustive(q, start, end, [], end) && !Hit(q, start, end, 0)
  {
  }

  /** One more reported hit moves the bound behind its window. */
  lemma Extend(q: Query, start: nat, end: nat, list: seq<nat>, current: nat, found: nat)
    requires start <= current && Exhaustive(q, start, end, list, current)
    requires FirstHit(q, current, end, found)
    ensures Exhaustive(q, start, end, list + [found], found + |q.mask|)
  {
    var list' := list + [found];
    forall p: nat | Hit(q, start, end, p) && p < found + |q.mask| ensures Covered(list', |q.mask|, p) {
      if p < current {
        var i :| 0 <= i < |list| && list[i] <= p < list[i] + |q.mask|;
        assert list'[i] == list[i];
      } else {
        assert Hit(q, current, end, p);
        assert list'[|list|] == found;
      }
    }
  }

  // ----- The greedy choice is optimal -----

  /** No set of non-overlapping hits is larger than an exhaustive list of them. */
  lemma GreedyIsOptimal(q: Query, start: nat, end: nat, list: seq<nat>, hits: set<nat>)
    requires q.mask != "" && Exhaustive(q, start, end, list, end) && Disjoint(q, start, end, hits)
    ensures |hits| <= |list|
  {
    Injection(list, |q.mask|, hits);
  }

  /** Each reported window holds the start of at most one of the hits. */
  lemma {:induction false} Injection(list: seq<nat>, n: nat, hits: set<nat>)
    requires (forall p :: p in hits ==> Covered(list, n, p)) && Separate(hits, n)
    ensures |hits| <= |list|
  {
    hide Covered, Separate;
    if list == [] {
      NoWindows(n, hits);
    } else {
      var front, last := list[..|list| - 1], list[|list| - 1];
      var inLast := set p | p in hits && last <= p < last + n;
      PartSeparate(hits, inLast, n);
      PartSeparate(hits, hits - inLast, n);
      AtMostOne(inLast, last, n);
      var rest := hits - inLast;
      forall r | r in rest ensures Covered(front, n, r) {
        NotInLast(list, n, r);
      }
      Injection(front, n, rest);
      SplitCount(hits, inLast);
    }
  }

  lemma PartSeparate(hits: set<nat>, part: set<nat>, n: nat)
    requires Separate(hits, n) && part <= hits
    ensures Separate(part, n)
  {
  }

  lemma SplitCount(hits: set<nat>, part: set<nat>)
    requires part <= hits
    ensures |hits| == |hits - part| + |part|
  {
    assert hits == (hits - part) + part;
  }

  lemma NoWindows(n: nat, hits: set<nat>)
    requires forall p :: p in hits ==> Covered([], n, p)
    ensures hits == {}
  {
    forall p: nat ensures !Covered([], n, p) { }
    assert forall p :: p !in hits;
  }

  lemma AtMostOne(hits: set<nat>, last: nat, n: nat)
    requires Separate(hits, n) && forall p :: p in hits ==> last <= p < last + n
    ensures |hits| <= 1
  {
    if hits != {} {
      var p :| p in hits;
      assert hits == {p};
    }
  }

  lemma NotInLast(list: seq<nat>, n: nat, r: nat)
    requires list != [] && Covered(list, n, r)
    requires !(list[|list| - 1] <= r < list[|list| - 1] + n)
    ensures Covered(list[..|list| - 1], n, r)
  {
    var i :| 0 <= i < |list| && list[i] <= r < list[i] + n;
    assert list[..|list| - 1][i] == list[i];
  }
}
