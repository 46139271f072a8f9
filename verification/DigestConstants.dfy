/** What the constants of SHA-256 and SHA-1 are: digits of roots of small numbers. */
module DigestConstants {
  import opened Common
  import opened BlockHash
  import Sha1
  import Sha256
  import Sha256Answer

  // ----- Primes -----

  predicate Divides(d: nat, n: nat)
    requires d > 0
  {
    n % d == 0
  }

  predicate IsPrime(n: nat) {
    n >= 2 && forall d :: 2 <= d < n ==> !Divides(d, n)
  }

  function PrimesBelow(n: nat): nat {
    if n == 0 then 0 else PrimesBelow(n - 1) + if IsPrime(n - 1) then 1 else 0
  }

  /** p is the prime with the given number, counted from 0. */
  predicate IsPrimeNumber(p: nat, t: nat) {
    IsPrime(p) && PrimesBelow(p) == t
  }

  /** No prime up to 17, except n itself, divides n. */
  predicate NoSmallDivisor(n: nat) {
    && n >= 2 && (n == 2 || n % 2 != 0) && (n == 3 || n % 3 != 0) && (n == 5 || n % 5 != 0)
    && (n == 7 || n % 7 != 0) && (n == 11 || n % 11 != 0) && (n == 13 || n % 13 != 0) && (n == 17 || n % 17 != 0)
  }

  lemma SmallPrime(n: nat)
    requires n < 324
    ensures IsPrime(n) <==> NoSmallDivisor(n)
  {
    hide NoSmallDivisor;
    if n >= 2 && NoSmallDivisor(n) {
      forall d | 2 <= d < n ensures !Divides(d, n) {
        if Divides(d, n) {
          CoDivisor(d, n);
          var small := if d < 18 then d else n / d;
          SmallDivisor(small, n);
          assert false;
        }
      }
    }
    if n < 2 || !NoSmallDivisor(n) {
      SomeSmallDivisor(n);
      TooSmall(n);
    }
  }

  lemma TooSmall(n: nat)
    ensures n < 2 ==> !NoSmallDivisor(n)
  {
  }

  lemma SomeSmallDivisor(n: nat)
    requires n < 2 || !NoSmallDivisor(n)
    ensures !IsPrime(n)
  {
    assert n < 2 || Divides(2, n) || Divides(3, n) || Divides(5, n) || Divides(7, n) || Divides(11, n)
        || Divides(13, n) || Divides(17, n);
  }

  lemma CoDivisor(d: nat, n: nat)
    requires 2 <= d < n < 324 && Divides(d, n)
    ensures 2 <= n / d < n && Divides(n / d, n) && (d < 18 || n / d < 18)
  {
    hide Divides;
    var e := n / d;
    assert n == d * e by { DividesIs(d, n); }
    TooLarge(d, e);
    Between(d, e);
    DivModIs(n, d, 0, e);
    DividesIs(e, n);
  }

  lemma DividesIs(d: nat, n: nat)
    requires d > 0
    ensures Divides(d, n) <==> n % d == 0
    ensures Divides(d, n) ==> n == d * (n / d) == n / d * d
  {
  }

  lemma Between(d: nat, e: nat)
    requires 2 <= d < d * e
    ensures 2 <= e < d * e
  {
    assert e <= 1 ==> d * e <= d;
    assert d * e == 2 * e + (d - 2) * e;
  }

  lemma TooLarge(d: nat, e: nat)
    ensures d >= 18 && e >= 18 ==> d * e >= 324
  {
    if d >= 18 && e >= 18 {
      assert d * e == (d - 18) * e + 18 * e;
    }
  }

  lemma SmallDivisor(d: nat, n: nat)
    requires 2 <= d < 18 && d < n && Divides(d, n)
    ensures !NoSmallDivisor(n)
  {
    hide Divides;
    var q := SmallPrimeIn(d);
    Through(q, d, n);
  }

  /** A prime up to 17 in a number up to 17. */
  function SmallPrimeIn(d: nat): (q: nat)
    requires 2 <= d < 18
    ensures (q == 2 || q == 3 || q == 5 || q == 7 || q == 11 || q == 13 || q == 17) && q <= d && d % q == 0
  {
    if d % 2 == 0 then 2 else if d % 3 == 0 then 3 else if d % 5 == 0 then 5 else d
  }

  lemma Through(q: nat, d: nat, n: nat)
    requires q > 0 && d > 0 && d % q == 0 && Divides(d, n)
    ensures n % q == 0
  {
    var a, b := d / q, n / d;
    assert n == d * b && d == q * a;
    assert n == (a * b) * q by { Regroup(q, a, b); }
    DivModIs(n, a * b, 0, q);
  }

  lemma Regroup(q: nat, a: nat, b: nat)
    ensures q * a * b == (a * b) * q
  {
  }

  lemma {:induction false} PrimesBelowGrows(p: nat, q: nat)
    requires p < q && IsPrime(p)
    ensures PrimesBelow(p) < PrimesBelow(q)
    decreases q
  {
    hide IsPrime;
    if p < q - 1 { PrimesBelowGrows(p, q - 1); }
  }

  lemma PrimeNumberUnique(p: nat, q: nat, t: nat)
    requires IsPrimeNumber(p, t) && IsPrimeNumber(q, t)
    ensures p == q
  {
    hide IsPrime, PrimesBelow;
    if p < q {
      PrimesBelowGrows(p, q);
    } else if q < p {
      PrimesBelowGrows(q, p);
    }
  }

  lemma {:induction false} NoneBetween(p: nat, n: nat)
    requires p < n && IsPrime(p) && forall k :: p < k < n ==> !IsPrime(k)
    ensures PrimesBelow(n) == PrimesBelow(p) + 1
    decreases n
  {
    hide IsPrime;
    if p < n - 1 { NoneBetween(p, n - 1); }
  }

  predicate NotPrimeBelow(k: nat, q: nat) {
    k >= q || !NoSmallDivisor(k)
  }

  /** The numbers between p and q, at most thirteen, have small divisors. */
  predicate Gap(p: nat, q: nat) {
    && p < q <= p + 14
    && NotPrimeBelow(p + 1, q) && NotPrimeBelow(p + 2, q) && NotPrimeBelow(p + 3, q) && NotPrimeBelow(p + 4, q)
    && NotPrimeBelow(p + 5, q) && NotPrimeBelow(p + 6, q) && NotPrimeBelow(p + 7, q)
    && NotPrimeBelow(p + 8, q) && NotPrimeBelow(p + 9, q) && NotPrimeBelow(p + 10, q)
    && NotPrimeBelow(p + 11, q) && NotPrimeBelow(p + 12, q) && NotPrimeBelow(p + 13, q)
  }

  lemma GapIs(p: nat, q: nat, k: nat)
    requires Gap(p, q) && p < k < q
    ensures !NoSmallDivisor(k)
  {
    hide NoSmallDivisor;
  }

  lemma NextPrime(p: nat, t: nat, q: nat)
    requires IsPrimeNumber(p, t) && q < 324 && NoSmallDivisor(q) && Gap(p, q)
    ensures IsPrimeNumber(q, t + 1)
  {
    hide IsPrime, PrimesBelow, NoSmallDivisor, Gap;
    GapBounds(p, q);
    SmallPrime(q);
    forall k | p < k < q ensures !IsPrime(k) {
      GapIs(p, q, k);
      SmallPrime(k);
    }
    NoneBetween(p, q);
  }

  lemma GapBounds(p: nat, q: nat)
    requires Gap(p, q)
    ensures p < q
  {
  }

  lemma FirstPrime()
    ensures IsPrimeNumber(2, 0)
  {
    assert !IsPrime(0) && !IsPrime(1);
    assert PrimesBelow(1) == 0;
  }

  // ----- Roots -----

  /** x is the whole part of the square root, or of the cube root, of n. */
  predicate IsRoot2(x: nat, n: nat) { x * x <= n < (x + 1) * (x + 1) }

  predicate IsRoot3(x: nat, n: nat) { x * x * x <= n < (x + 1) * (x + 1) * (x + 1) }

  const TWO96: nat := 0x1_0000_0000_0000_0000_0000_0000

  /** k is the first 32 bits behind the point of the cube root of p. */
  ghost predicate Cubic(p: nat, k: Word) {
    exists c: nat :: IsRoot3(c, p) && IsRoot3(c * TWO32 + ToNat(k), p * TWO96)
  }

  /** k is the first 32 bits behind the point of the square root of p. */
  ghost predicate Quadratic(p: nat, k: Word) {
    exists c: nat :: IsRoot2(c, p) && IsRoot2(c * TWO32 + ToNat(k), p * TWO64)
  }

  function ToNat(k: Word): nat { k as int }

  lemma CubicIs(p: nat, c: nat, k: Word, n: nat, x: nat)
    requires ToNat(k) == n && x == c * TWO32 + n && IsRoot3(c, p) && IsRoot3(x, p * TWO96)
    ensures Cubic(p, k)
  {
    hide IsRoot3, ToNat;
  }

  lemma QuadraticIs(p: nat, c: nat, k: Word, n: nat, x: nat)
    requires ToNat(k) == n && x == c * TWO32 + n && IsRoot2(c, p) && IsRoot2(x, p * TWO64)
    ensures Quadratic(p, k)
  {
    hide IsRoot2, ToNat;
  }

  lemma Primes0()
    ensures IsPrimeNumber(2, 0) && IsPrimeNumber(3, 1) && IsPrimeNumber(5, 2) && IsPrimeNumber(7, 3) && IsPrimeNumber(11, 4)
  {
    hide IsPrimeNumber;
    FirstPrime();
    NextPrime(2, 0, 3);
    NextPrime(3, 1, 5);
    NextPrime(5, 2, 7);
    NextPrime(7, 3, 11);
  }

  lemma Primes1()
    requires IsPrimeNumber(11, 4)
    ensures IsPrimeNumber(11, 4) && IsPrimeNumber(13, 5) && IsPrimeNumber(17, 6) && IsPrimeNumber(19, 7) && IsPrimeNumber(23, 8)
  {
    hide IsPrimeNumber;
    NextPrime(11, 4, 13);
    NextPrime(13, 5, 17);
    NextPrime(17, 6, 19);
    NextPrime(19, 7, 23);
  }

  lemma Primes2()
    requires IsPrimeNumber(23, 8)
    ensures IsPrimeNumber(23, 8) && IsPrimeNumber(29, 9) && IsPrimeNumber(31, 10) && IsPrimeNumber(37, 11) && IsPrimeNumber(41, 12)
  {
    hide IsPrimeNumber;
    NextPrime(23, 8, 29);
    NextPrime(29, 9, 31);
    NextPrime(31, 10, 37);
    NextPrime(37, 11, 41);
  }

  lemma Primes3()
    requires IsPrimeNumber(41, 12)
    ensures IsPrimeNumber(41, 12) && IsPrimeNumber(43, 13) && IsPrimeNumber(47, 14) && IsPrimeNumber(53, 15) && IsPrimeNumber(59, 16)
  {
    hide IsPrimeNumber;
    NextPrime(41, 12, 43);
    NextPrime(43, 13, 47);
    NextPrime(47, 14, 53);
    NextPrime(53, 15, 59);
  }

  lemma Primes4()
    requires IsPrimeNumber(59, 16)
    ensures IsPrimeNumber(59, 16) && IsPrimeNumber(61, 17) && IsPrimeNumber(67, 18) && IsPrimeNumber(71, 19) && IsPrimeNumber(73, 20)
  {
    hide IsPrimeNumber;
    NextPrime(59, 16, 61);
    NextPrime(61, 17, 67);
    NextPrime(67, 18, 71);
    NextPrime(71, 19, 73);
  }

  lemma Primes5()
    requires IsPrimeNumber(73, 20)
    ensures IsPrimeNumber(73, 20) && IsPrimeNumber(79, 21) && IsPrimeNumber(83, 22) && IsPrimeNumber(89, 23) && IsPrimeNumber(97, 24)
  {
    hide IsPrimeNumber;
    NextPrime(73, 20, 79);
    NextPrime(79, 21, 83);
    NextPrime(83, 22, 89);
    NextPrime(89, 23, 97);
  }

  lemma Primes6()
    requires IsPrimeNumber(97, 24)
    ensures IsPrimeNumber(97, 24) && IsPrimeNumber(101, 25) && IsPrimeNumber(103, 26) && IsPrimeNumber(107, 27) && IsPrimeNumber(109, 28)
  {
    hide IsPrimeNumber;
    NextPrime(97, 24, 101);
    NextPrime(101, 25, 103);
    NextPrime(103, 26, 107);
    NextPrime(107, 27, 109);
  }

  lemma Primes7()
    requires IsPrimeNumber(109, 28)
    ensures IsPrimeNumber(109, 28) && IsPrimeNumber(113, 29) && IsPrimeNumber(127, 30) && IsPrimeNumber(131, 31) && IsPrimeNumber(137, 32)
  {
    hide IsPrimeNumber;
    NextPrime(109, 28, 113);
    NextPrime(113, 29, 127);
    NextPrime(127, 30, 131);
    NextPrime(131, 31, 137);
  }

  lemma Primes8()
    requires IsPrimeNumber(137, 32)
    ensures IsPrimeNumber(137, 32) && IsPrimeNumber(139, 33) && IsPrimeNumber(149, 34) && IsPrimeNumber(151, 35) && IsPrimeNumber(157, 36)
  {
    hide IsPrimeNumber;
    NextPrime(137, 32, 139);
    NextPrime(139, 33, 149);
    NextPrime(149, 34, 151);
    NextPrime(151, 35, 157);
  }

  lemma Primes9()
    requires IsPrimeNumber(157, 36)
    ensures IsPrimeNumber(157, 36) && IsPrimeNumber(163, 37) && IsPrimeNumber(167, 38) && IsPrimeNumber(173, 39) && IsPrimeNumber(179, 40)
  {
    hide IsPrimeNumber;
    NextPrime(157, 36, 163);
    NextPrime(163, 37, 167);
    NextPrime(167, 38, 173);
    NextPrime(173, 39, 179);
  }

  lemma Primes10()
    requires IsPrimeNumber(179, 40)
    ensures IsPrimeNumber(179, 40) && IsPrimeNumber(181, 41) && IsPrimeNumber(191, 42) && IsPrimeNumber(193, 43) && IsPrimeNumber(197, 44)
  {
    hide IsPrimeNumber;
    NextPrime(179, 40, 181);
    NextPrime(181, 41, 191);
    NextPrime(191, 42, 193);
    NextPrime(193, 43, 197);
  }

  lemma Primes11()
    requires IsPrimeNumber(197, 44)
    ensures IsPrimeNumber(197, 44) && IsPrimeNumber(199, 45) && IsPrimeNumber(211, 46) && IsPrimeNumber(223, 47) && IsPrimeNumber(227, 48)
  {
    hide IsPrimeNumber;
    NextPrime(197, 44, 199);
    NextPrime(199, 45, 211);
    NextPrime(211, 46, 223);
    NextPrime(223, 47, 227);
  }

  lemma Primes12()
    requires IsPrimeNumber(227, 48)
    ensures IsPrimeNumber(227, 48) && IsPrimeNumber(229, 49) && IsPrimeNumber(233, 50) && IsPrimeNumber(239, 51) && IsPrimeNumber(241, 52)
  {
    hide IsPrimeNumber;
    NextPrime(227, 48, 229);
    NextPrime(229, 49, 233);
    NextPrime(233, 50, 239);
    NextPrime(239, 51, 241);
  }

  lemma Primes13()
    requires IsPrimeNumber(241, 52)
    ensures IsPrimeNumber(241, 52) && IsPrimeNumber(251, 53) && IsPrimeNumber(257, 54) && IsPrimeNumber(263, 55) && IsPrimeNumber(269, 56)
  {
    hide IsPrimeNumber;
    NextPrime(241, 52, 251);
    NextPrime(251, 53, 257);
    NextPrime(257, 54, 263);
    NextPrime(263, 55, 269);
  }

  lemma Primes14()
    requires IsPrimeNumber(269, 56)
    ensures IsPrimeNumber(269, 56) && IsPrimeNumber(271, 57) && IsPrimeNumber(277, 58) && IsPrimeNumber(281, 59) && IsPrimeNumber(283, 60)
  {
    hide IsPrimeNumber;
    NextPrime(269, 56, 271);
    NextPrime(271, 57, 277);
    NextPrime(277, 58, 281);
    NextPrime(281, 59, 283);
  }

  lemma Primes15()
    requires IsPrimeNumber(283, 60)
    ensures IsPrimeNumber(283, 60) && IsPrimeNumber(293, 61) && IsPrimeNumber(307, 62) && IsPrimeNumber(311, 63)
  {
    hide IsPrimeNumber;
    NextPrime(283, 60, 293);
    NextPrime(293, 61, 307);
    NextPrime(307, 62, 311);
  }

  lemma Roots0(t: nat, p: nat)
    requires 0 <= t < 8 && IsPrimeNumber(p, t) && IsPrimeNumber(2, 0)
    ensures Cubic(p, Sha256.K(t))
  {
    hide IsPrimeNumber, Cubic, Sha256.K;
    Primes0();
    Primes1();
    Sha256Answer.Constants0();
    if t == 0 {
      PrimeNumberUnique(p, 2, t);
      CubicIs(2, 1, 0x428a2f98, 0x428a2f98, 0x1428a2f98);
    }
    if t == 1 {
      PrimeNumberUnique(p, 3, t);
      CubicIs(3, 1, 0x71374491, 0x71374491, 0x171374491);
    }
    if t == 2 {
      PrimeNumberUnique(p, 5, t);
      CubicIs(5, 1, 0xb5c0fbcf, 0xb5c0fbcf, 0x1b5c0fbcf);
    }
    if t == 3 {
      PrimeNumberUnique(p, 7, t);
      CubicIs(7, 1, 0xe9b5dba5, 0xe9b5dba5, 0x1e9b5dba5);
    }
    if t == 4 {
      PrimeNumberUnique(p, 11, t);
      CubicIs(11, 2, 0x3956c25b, 0x3956c25b, 0x23956c25b);
    }
    if t == 5 {
      PrimeNumberUnique(p, 13, t);
      CubicIs(13, 2, 0x59f111f1, 0x59f111f1, 0x259f111f1);
    }
    if t == 6 {
      PrimeNumberUnique(p, 17, t);
      CubicIs(17, 2, 0x923f82a4, 0x923f82a4, 0x2923f82a4);
    }
    if t == 7 {
      PrimeNumberUnique(p, 19, t);
      CubicIs(19, 2, 0xab1c5ed5, 0xab1c5ed5, 0x2ab1c5ed5);
    }
  }

  lemma Roots1(t: nat, p: nat)
    requires 8 <= t < 16 && IsPrimeNumber(p, t) && IsPrimeNumber(23, 8)
    ensures Cubic(p, Sha256.K(t))
  {
    hide IsPrimeNumber, Cubic, Sha256.K;
    Primes2();
    Primes3();
    Sha256Answer.Constants0();
    if t == 8 {
      PrimeNumberUnique(p, 23, t);
      CubicIs(23, 2, 0xd807aa98, 0xd807aa98, 0x2d807aa98);
    }
    if t == 9 {
      PrimeNumberUnique(p, 29, t);
      CubicIs(29, 3, 0x12835b01, 0x12835b01, 0x312835b01);
    }
    if t == 10 {
      PrimeNumberUnique(p, 31, t);
      CubicIs(31, 3, 0x243185be, 0x243185be, 0x3243185be);
    }
    if t == 11 {
      PrimeNumberUnique(p, 37, t);
      CubicIs(37, 3, 0x550c7dc3, 0x550c7dc3, 0x3550c7dc3);
    }
    if t == 12 {
      PrimeNumberUnique(p, 41, t);
      CubicIs(41, 3, 0x72be5d74, 0x72be5d74, 0x372be5d74);
    }
    if t == 13 {
      PrimeNumberUnique(p, 43, t);
      CubicIs(43, 3, 0x80deb1fe, 0x80deb1fe, 0x380deb1fe);
    }
    if t == 14 {
      PrimeNumberUnique(p, 47, t);
      CubicIs(47, 3, 0x9bdc06a7, 0x9bdc06a7, 0x39bdc06a7);
    }
    if t == 15 {
      PrimeNumberUnique(p, 53, t);
      CubicIs(53, 3, 0xc19bf174, 0xc19bf174, 0x3c19bf174);
    }
  }

  lemma Roots2(t: nat, p: nat)
    requires 16 <= t < 24 && IsPrimeNumber(p, t) && IsPrimeNumber(59, 16)
    ensures Cubic(p, Sha256.K(t))
  {
    hide IsPrimeNumber, Cubic, Sha256.K;
    Primes4();
    Primes5();
    Sha256Answer.Constants1();
    if t == 16 {
      PrimeNumberUnique(p, 59, t);
      CubicIs(59, 3, 0xe49b69c1, 0xe49b69c1, 0x3e49b69c1);
    }
    if t == 17 {
      PrimeNumberUnique(p, 61, t);
      CubicIs(61, 3, 0xefbe4786, 0xefbe4786, 0x3efbe4786);
    }
    if t == 18 {
      PrimeNumberUnique(p, 67, t);
      CubicIs(67, 4, 0x0fc19dc6, 0x0fc19dc6, 0x40fc19dc6);
    }
    if t == 19 {
      PrimeNumberUnique(p, 71, t);
      CubicIs(71, 4, 0x240ca1cc, 0x240ca1cc, 0x4240ca1cc);
    }
    if t == 20 {
      PrimeNumberUnique(p, 73, t);
      CubicIs(73, 4, 0x2de92c6f, 0x2de92c6f, 0x42de92c6f);
    }
    if t == 21 {
      PrimeNumberUnique(p, 79, t);
      CubicIs(79, 4, 0x4a7484aa, 0x4a7484aa, 0x44a7484aa);
    }
    if t == 22 {
      PrimeNumberUnique(p, 83, t);
      CubicIs(83, 4, 0x5cb0a9dc, 0x5cb0a9dc, 0x45cb0a9dc);
    }
    if t == 23 {
      PrimeNumberUnique(p, 89, t);
      CubicIs(89, 4, 0x76f988da, 0x76f988da, 0x476f988da);
    }
  }

  lemma Roots3(t: nat, p: nat)
    requires 24 <= t < 32 && IsPrimeNumber(p, t) && IsPrimeNumber(97, 24)
    ensures Cubic(p, Sha256.K(t))
  {
    hide IsPrimeNumber, Cubic, Sha256.K;
    Primes6();
    Primes7();
    Sha256Answer.Constants1();
    if t == 24 {
      PrimeNumberUnique(p, 97, t);
      CubicIs(97, 4, 0x983e5152, 0x983e5152, 0x4983e5152);
    }
    if t == 25 {
      PrimeNumberUnique(p, 101, t);
      CubicIs(101, 4, 0xa831c66d, 0xa831c66d, 0x4a831c66d);
    }
    if t == 26 {
      PrimeNumberUnique(p, 103, t);
      CubicIs(103, 4, 0xb00327c8, 0xb00327c8, 0x4b00327c8);
    }
    if t == 27 {
      PrimeNumberUnique(p, 107, t);
      CubicIs(107, 4, 0xbf597fc7, 0xbf597fc7, 0x4bf597fc7);
    }
    if t == 28 {
      PrimeNumberUnique(p, 109, t);
      CubicIs(109, 4, 0xc6e00bf3, 0xc6e00bf3, 0x4c6e00bf3);
    }
    if t == 29 {
      PrimeNumberUnique(p, 113, t);
      CubicIs(113, 4, 0xd5a79147, 0xd5a79147, 0x4d5a79147);
    }
    if t == 30 {
      PrimeNumberUnique(p, 127, t);
      CubicIs(127, 5, 0x06ca6351, 0x06ca6351, 0x506ca6351);
    }
    if t == 31 {
      PrimeNumberUnique(p, 131, t);
      CubicIs(131, 5, 0x14292967, 0x14292967, 0x514292967);
    }
  }

  lemma Roots4(t: nat, p: nat)
    requires 32 <= t < 40 && IsPrimeNumber(p, t) && IsPrimeNumber(137, 32)
    ensures Cubic(p, Sha256.K(t))
  {
    hide IsPrimeNumber, Cubic, Sha256.K;
    Primes8();
    Primes9();
    Sha256Answer.Constants2();
    if t == 32 {
      PrimeNumberUnique(p, 137, t);
      CubicIs(137, 5, 0x27b70a85, 0x27b70a85, 0x527b70a85);
    }
    if t == 33 {
      PrimeNumberUnique(p, 139, t);
      CubicIs(139, 5, 0x2e1b2138, 0x2e1b2138, 0x52e1b2138);
    }
    if t == 34 {
      PrimeNumberUnique(p, 149, t);
      CubicIs(149, 5, 0x4d2c6dfc, 0x4d2c6dfc, 0x54d2c6dfc);
    }
    if t == 35 {
      PrimeNumberUnique(p, 151, t);
      CubicIs(151, 5, 0x53380d13, 0x53380d13, 0x553380d13);
    }
    if t == 36 {
      PrimeNumberUnique(p, 157, t);
      CubicIs(157, 5, 0x650a7354, 0x650a7354, 0x5650a7354);
    }
    if t == 37 {
      PrimeNumberUnique(p, 163, t);
      CubicIs(163, 5, 0x766a0abb, 0x766a0abb, 0x5766a0abb);
    }
    if t == 38 {
      PrimeNumberUnique(p, 167, t);
      CubicIs(167, 5, 0x81c2c92e, 0x81c2c92e, 0x581c2c92e);
    }
    if t == 39 {
      PrimeNumberUnique(p, 173, t);
      CubicIs(173, 5, 0x92722c85, 0x92722c85, 0x592722c85);
    }
  }

  lemma Roots5(t: nat, p: nat)
    requires 40 <= t < 48 && IsPrimeNumber(p, t) && IsPrimeNumber(179, 40)
    ensures Cubic(p, Sha256.K(t))
  {
    hide IsPrimeNumber, Cubic, Sha256.K;
    Primes10();
    Primes11();
    Sha256Answer.Constants2();
    if t == 40 {
      PrimeNumberUnique(p, 179, t);
      CubicIs(179, 5, 0xa2bfe8a1, 0xa2bfe8a1, 0x5a2bfe8a1);
    }
    if t == 41 {
      PrimeNumberUnique(p, 181, t);
      CubicIs(181, 5, 0xa81a664b, 0xa81a664b, 0x5a81a664b);
    }
    if t == 42 {
      PrimeNumberUnique(p, 191, t);
      CubicIs(191, 5, 0xc24b8b70, 0xc24b8b70, 0x5c24b8b70);
    }
    if t == 43 {
      PrimeNumberUnique(p, 193, t);
      CubicIs(193, 5, 0xc76c51a3, 0xc76c51a3, 0x5c76c51a3);
    }
    if t == 44 {
      PrimeNumberUnique(p, 197, t);
      CubicIs(197, 5, 0xd192e819, 0xd192e819, 0x5d192e819);
    }
    if t == 45 {
      PrimeNumberUnique(p, 199, t);
      CubicIs(199, 5, 0xd6990624, 0xd6990624, 0x5d6990624);
    }
    if t == 46 {
      PrimeNumberUnique(p, 211, t);
      CubicIs(211, 5, 0xf40e3585, 0xf40e3585, 0x5f40e3585);
    }
    if t == 47 {
      PrimeNumberUnique(p, 223, t);
      CubicIs(223, 6, 0x106aa070, 0x106aa070, 0x6106aa070);
    }
  }

  lemma Roots6(t: nat, p: nat)
    requires 48 <= t < 56 && IsPrimeNumber(p, t) && IsPrimeNumber(227, 48)
    ensures Cubic(p, Sha256.K(t))
  {
    hide IsPrimeNumber, Cubic, Sha256.K;
    Primes12();
    Primes13();
    Sha256Answer.Constants3();
    if t == 48 {
      PrimeNumberUnique(p, 227, t);
      CubicIs(227, 6, 0x19a4c116, 0x19a4c116, 0x619a4c116);
    }
    if t == 49 {
      PrimeNumberUnique(p, 229, t);
      CubicIs(229, 6, 0x1e376c08, 0x1e376c08, 0x61e376c08);
    }
    if t == 50 {
      PrimeNumberUnique(p, 233, t);
      CubicIs(233, 6, 0x2748774c, 0x2748774c, 0x62748774c);
    }
    if t == 51 {
      PrimeNumberUnique(p, 239, t);
      CubicIs(239, 6, 0x34b0bcb5, 0x34b0bcb5, 0x634b0bcb5);
    }
    if t == 52 {
      PrimeNumberUnique(p, 241, t);
      CubicIs(241, 6, 0x391c0cb3, 0x391c0cb3, 0x6391c0cb3);
    }
    if t == 53 {
      PrimeNumberUnique(p, 251, t);
      CubicIs(251, 6, 0x4ed8aa4a, 0x4ed8aa4a, 0x64ed8aa4a);
    }
    if t == 54 {
      PrimeNumberUnique(p, 257, t);
      CubicIs(257, 6, 0x5b9cca4f, 0x5b9cca4f, 0x65b9cca4f);
    }
    if t == 55 {
      PrimeNumberUnique(p, 263, t);
      CubicIs(263, 6, 0x682e6ff3, 0x682e6ff3, 0x6682e6ff3);
    }
  }

  lemma Roots7(t: nat, p: nat)
    requires 56 <= t < 64 && IsPrimeNumber(p, t) && IsPrimeNumber(269, 56)
    ensures Cubic(p, Sha256.K(t))
  {
    hide IsPrimeNumber, Cubic, Sha256.K;
    Primes14();
    Primes15();
    Sha256Answer.Constants3();
    if t == 56 {
      PrimeNumberUnique(p, 269, t);
      CubicIs(269, 6, 0x748f82ee, 0x748f82ee, 0x6748f82ee);
    }
    if t == 57 {
      PrimeNumberUnique(p, 271, t);
      CubicIs(271, 6, 0x78a5636f, 0x78a5636f, 0x678a5636f);
    }
    if t == 58 {
      PrimeNumberUnique(p, 277, t);
      CubicIs(277, 6, 0x84c87814, 0x84c87814, 0x684c87814);
    }
    if t == 59 {
      PrimeNumberUnique(p, 281, t);
      CubicIs(281, 6, 0x8cc70208, 0x8cc70208, 0x68cc70208);
    }
    if t == 60 {
      PrimeNumberUnique(p, 283, t);
      CubicIs(283, 6, 0x90befffa, 0x90befffa, 0x690befffa);
    }
    if t == 61 {
      PrimeNumberUnique(p, 293, t);
      CubicIs(293, 6, 0xa4506ceb, 0xa4506ceb, 0x6a4506ceb);
    }
    if t == 62 {
      PrimeNumberUnique(p, 307, t);
      CubicIs(307, 6, 0xbef9a3f7, 0xbef9a3f7, 0x6bef9a3f7);
    }
    if t == 63 {
      PrimeNumberUnique(p, 311, t);
      CubicIs(311, 6, 0xc67178f2, 0xc67178f2, 0x6c67178f2);
    }
  }

  /** Constant t of SHA-256, for each of the 64, is the first 32 bits behind the point of the cube root of
      prime number t. */
  lemma ConstantsAreRoots(t: nat, p: nat)
    requires t < 64 && IsPrimeNumber(p, t)
    ensures Cubic(p, Sha256.K(t))
  {
    hide IsPrimeNumber, Cubic, Sha256.K;
    FirstPrime();
    Primes0();
    Primes1();
    Primes2();
    Primes3();
    Primes4();
    Primes5();
    Primes6();
    Primes7();
    Primes8();
    Primes9();
    Primes10();
    Primes11();
    Primes12();
    Primes13();
    if t < 8 {
      Roots0(t, p);
    } else if t < 16 {
      Roots1(t, p);
    } else if t < 24 {
      Roots2(t, p);
    } else if t < 32 {
      Roots3(t, p);
    } else if t < 40 {
      Roots4(t, p);
    } else if t < 48 {
      Roots5(t, p);
    } else if t < 56 {
      Roots6(t, p);
    } else {
      Roots7(t, p);
    }
  }

  function InitialWord(t: nat): Word
    requires t < 8
  {
    var s := Sha256.INITIAL;
    if t == 0 then s.a else if t == 1 then s.b else if t == 2 then s.c else if t == 3 then s.d
    else if t == 4 then s.e else if t == 5 then s.f else if t == 6 then s.g else s.h
  }

  /** The initial state of SHA-256 is made of the same digits of the square roots. */
  lemma InitialIsRoots(t: nat, p: nat)
    requires t < 8 && IsPrimeNumber(p, t)
    ensures Quadratic(p, InitialWord(t))
  {
    hide IsPrimeNumber, Quadratic;
    FirstPrime();
    Primes0();
    Primes1();
    if t == 0 {
      PrimeNumberUnique(p, 2, t);
      QuadraticIs(2, 1, InitialWord(0), 0x6a09e667, 0x16a09e667);
    }
    if t == 1 {
      PrimeNumberUnique(p, 3, t);
      QuadraticIs(3, 1, InitialWord(1), 0xbb67ae85, 0x1bb67ae85);
    }
    if t == 2 {
      PrimeNumberUnique(p, 5, t);
      QuadraticIs(5, 2, InitialWord(2), 0x3c6ef372, 0x23c6ef372);
    }
    if t == 3 {
      PrimeNumberUnique(p, 7, t);
      QuadraticIs(7, 2, InitialWord(3), 0xa54ff53a, 0x2a54ff53a);
    }
    if t == 4 {
      PrimeNumberUnique(p, 11, t);
      QuadraticIs(11, 3, InitialWord(4), 0x510e527f, 0x3510e527f);
    }
    if t == 5 {
      PrimeNumberUnique(p, 13, t);
      QuadraticIs(13, 3, InitialWord(5), 0x9b05688c, 0x39b05688c);
    }
    if t == 6 {
      PrimeNumberUnique(p, 17, t);
      QuadraticIs(17, 4, InitialWord(6), 0x1f83d9ab, 0x41f83d9ab);
    }
    if t == 7 {
      PrimeNumberUnique(p, 19, t);
      QuadraticIs(19, 4, InitialWord(7), 0x5be0cd19, 0x45be0cd19);
    }
  }

  /** The four constants of SHA-1 are the first 30 bits behind the point of a quarter of a square root,
      that is of root n divided by four. */
  lemma Sha1ConstantsAreRoots()
    ensures IsRoot2(ToNat(Sha1.K(0)), 2 * TWO60) && IsRoot2(ToNat(Sha1.K(20)), 3 * TWO60)
    ensures IsRoot2(ToNat(Sha1.K(40)), 5 * TWO60) && IsRoot2(ToNat(Sha1.K(60)), 10 * TWO60)
  {
    assert ToNat(Sha1.K(0)) == 0x5A827999 && ToNat(Sha1.K(20)) == 0x6ED9EBA1;
    assert ToNat(Sha1.K(40)) == 0x8F1BBCDC && ToNat(Sha1.K(60)) == 0xCA62C1D6;
  }

  const TWO60: nat := 0x1000_0000_0000_0000
}
