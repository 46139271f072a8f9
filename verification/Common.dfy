/** What several modules need: word sizes, machine bytes, optional values, and two laws of
    concatenation. */
module Common {

  const TWO32: nat := 0x1_0000_0000
  const TWO64: nat := 0x1_0000_0000_0000_0000

  /** A byte on which the code works bit by bit. */
  type Octet = bv8

  datatype Option<T> = None | Some(value: T)

  lemma Glue<T>(a: seq<T>, b: seq<T>, c: seq<T>)
    ensures (a + b) + c == a + (b + c)
  {
  }

  lemma AddNothing<T>(a: seq<T>)
    ensures a + [] == a
  {
  }

  /** Quotient and remainder from a decomposition. */
  lemma DivModIs(n: nat, q: nat, r: nat, d: nat)
    requires d > 0 && n == q * d + r && r < d
    ensures n / d == q && n % d == r
  {
    var k: int := n / d - q;
    var multiple: int := d * (n / d);
    assert multiple == n - n % d;
    assert multiple == d * (q + k);
    Multiple(d, k);
  }

  lemma Multiple(d: nat, k: int)
    ensures k >= 1 ==> d * k >= d
    ensures k <= -1 ==> d * k + d <= 0
  {
    if k >= 1 {
      assert d * k == d * (k - 1) + d;
    } else if k <= -1 {
      assert d * k + d == -(d * (-k - 1));
    }
  }
}
