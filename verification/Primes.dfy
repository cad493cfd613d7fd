/** The first eighty primes, from which FIPS 180-4 derives the constants of SHA-384. */
module Primes {
  import opened MachineInts

  const COUNT: nat := 80

  /** The first eighty primes. */
  function PrimeRow(g: nat): (r: seq<nat>)
    requires g < 10
    ensures |r| == 8
  {
    match g
    case 0 => [2, 3, 5, 7, 11, 13, 17, 19]
    case 1 => [23, 29, 31, 37, 41, 43, 47, 53]
    case 2 => [59, 61, 67, 71, 73, 79, 83, 89]
    case 3 => [97, 101, 103, 107, 109, 113, 127, 131]
    case 4 => [137, 139, 149, 151, 157, 163, 167, 173]
    case 5 => [179, 181, 191, 193, 197, 199, 211, 223]
    case 6 => [227, 229, 233, 239, 241, 251, 257, 263]
    case 7 => [269, 271, 277, 281, 283, 293, 307, 311]
    case 8 => [313, 317, 331, 337, 347, 349, 353, 359]
    case _ => [367, 373, 379, 383, 389, 397, 401, 409]
  }

  function Prime(t: nat): nat
    requires t < COUNT
  {
    PrimeRow(t / 8)[t % 8]
  }

  /** A prime number. */
  ghost predicate IsPrime(n: nat) {
    n >= 2 && forall d :: 2 <= d < n ==> !Divides(d, n)
  }

  ghost predicate Divides(d: nat, n: nat) {
    d > 0 && n % d == 0
  }

  /** No prime up to 19 divides n, unless it is n. */
  predicate NoSmallFactor(n: nat) {
    && (n % 2 != 0 || n == 2) && (n % 3 != 0 || n == 3) && (n % 5 != 0 || n == 5) && (n % 7 != 0 || n == 7)
    && (n % 11 != 0 || n == 11) && (n % 13 != 0 || n == 13) && (n % 17 != 0 || n == 17) && (n % 19 != 0 || n == 19)
  }

  /** Below 23 * 23 that is enough. */
  lemma PrimeIffNoSmallFactor(n: nat)
    requires 2 <= n < 441
    ensures IsPrime(n) <==> NoSmallFactor(n)
  {
    hide NoSmallFactor;
    if IsPrime(n) {
      PrimeHasNoSmallFactor(n);
    }
    if NoSmallFactor(n) {
      forall d | 2 <= d < n
        ensures !Divides(d, n)
      {
        if Divides(d, n) {
          var q := n / d;
          assert n == q * d;
          CofactorIsBetween(n, d, q);
          if d <= 20 {
            SmallFactor(n, d, q);
          } else {
            AboveTwenty(n, d, q);
            SmallFactor(n, q, d);
          }
        }
      }
    }
  }

  lemma PrimeHasNoSmallFactor(n: nat)
    requires IsPrime(n)
    ensures NoSmallFactor(n)
  {
    assert 2 < n ==> !Divides(2, n);
    assert 3 < n ==> !Divides(3, n);
    assert 5 < n ==> !Divides(5, n);
    assert 7 < n ==> !Divides(7, n);
    assert 11 < n ==> !Divides(11, n);
    assert 13 < n ==> !Divides(13, n);
    assert 17 < n ==> !Divides(17, n);
    assert 19 < n ==> !Divides(19, n);
  }

  lemma CofactorIsBetween(n: nat, d: nat, q: nat)
    requires n == q * d && 2 <= d < n
    ensures 2 <= q < n
  {
    assert q <= 1 ==> q * d <= d;
    assert q * d >= q * 2;
  }

  lemma AboveTwenty(n: nat, d: nat, q: nat)
    requires n == q * d && n < 441 && d > 20
    ensures q <= 20 && n == d * q
  {
    assert q > 20 ==> q * d >= 21 * 21;
  }

  /** A proper factor of at most 20 has a prime factor of at most 19. */
  lemma SmallFactor(n: nat, d: nat, q: nat)
    requires n == q * d && 2 <= d <= 20 && d < n
    ensures !NoSmallFactor(n)
  {
    if d % 2 == 0 {
      Multiple(n, q, d, 2);
    } else if d % 3 == 0 {
      Multiple(n, q, d, 3);
    } else if d % 5 == 0 {
      Multiple(n, q, d, 5);
    } else {
      assert d == 7 || d == 11 || d == 13 || d == 17 || d == 19;
      Multiple(n, q, d, d);
    }
  }

  lemma Multiple(n: nat, q: nat, d: nat, s: nat)
    requires s > 0 && n == q * d && d % s == 0
    ensures n % s == 0
  {
    var t := d / s;
    assert d == t * s;
    assert q * (t * s) == (q * t) * s;
    ModIs(n, s, q * t, 0);
  }

  predicate InRow(g: nat, n: nat)
    requires g < 10
  {
    || PrimeRow(g)[0] == n || PrimeRow(g)[1] == n || PrimeRow(g)[2] == n || PrimeRow(g)[3] == n
    || PrimeRow(g)[4] == n || PrimeRow(g)[5] == n || PrimeRow(g)[6] == n || PrimeRow(g)[7] == n
  }

  /** Of the n numbers from lo on, exactly those in row g have no small prime factor. */
  predicate Lists(g: nat, lo: nat, n: nat)
    requires g < 10
    decreases n
  {
    n == 0 || ((NoSmallFactor(lo) <==> InRow(g, lo)) && Lists(g, lo + 1, n - 1))
  }

  lemma {:induction false} ListedIff(g: nat, lo: nat, count: nat, n: nat)
    requires g < 10 && Lists(g, lo, count) && lo <= n < lo + count
    ensures NoSmallFactor(n) <==> InRow(g, n)
    decreases count
  {
    hide NoSmallFactor, InRow;
    if lo < n {
      ListedIff(g, lo + 1, count - 1, n);
    }
  }

  lemma {:induction false} Join(g: nat, lo: nat, a: nat, b: nat)
    requires g < 10 && Lists(g, lo, a) && Lists(g, lo + a, b)
    ensures Lists(g, lo, a + b)
    decreases a
  {
    hide NoSmallFactor, InRow;
    if a > 0 {
      Join(g, lo + 1, a - 1, b);
    }
  }

  /** Where row g begins; row 10 would begin after the last of the table. */
  function RowStart(g: nat): nat
    requires g <= 10
  {
    match g
    case 0 => 2 case 1 => 23 case 2 => 59 case 3 => 97 case 4 => 137 case 5 => 179
    case 6 => 227 case 7 => 269 case 8 => 313 case 9 => 367 case _ => 410
  }

  lemma Row0Head()
    ensures Lists(0, 2, 16)
  {
    assert Lists(0, 2, 8) && Lists(0, 10, 8);
    Join(0, 2, 8, 8);
  }

  lemma Row0Tail()
    ensures Lists(0, 18, 5)
  {
    assert Lists(0, 18, 5);
  }

  lemma Row1Head()
    ensures Lists(1, 23, 16)
  {
    assert Lists(1, 23, 8) && Lists(1, 31, 8);
    Join(1, 23, 8, 8);
  }

  lemma Row1Tail()
    ensures Lists(1, 39, 20)
  {
    assert Lists(1, 39, 8) && Lists(1, 47, 8) && Lists(1, 55, 4);
    Join(1, 39, 8, 8);
    Join(1, 39, 16, 4);
  }

  lemma Row2Head()
    ensures Lists(2, 59, 16)
  {
    assert Lists(2, 59, 8) && Lists(2, 67, 8);
    Join(2, 59, 8, 8);
  }

  lemma Row2Tail()
    ensures Lists(2, 75, 22)
  {
    assert Lists(2, 75, 8) && Lists(2, 83, 8) && Lists(2, 91, 6);
    Join(2, 75, 8, 8);
    Join(2, 75, 16, 6);
  }

  lemma Row3Head()
    ensures Lists(3, 97, 16)
  {
    assert Lists(3, 97, 8) && Lists(3, 105, 8);
    Join(3, 97, 8, 8);
  }

  lemma Row3Tail()
    ensures Lists(3, 113, 24)
  {
    assert Lists(3, 113, 8) && Lists(3, 121, 8) && Lists(3, 129, 8);
    Join(3, 113, 8, 8);
    Join(3, 113, 16, 8);
  }

  lemma Row4Head()
    ensures Lists(4, 137, 16)
  {
    assert Lists(4, 137, 8) && Lists(4, 145, 8);
    Join(4, 137, 8, 8);
  }

  lemma Row4Tail()
    ensures Lists(4, 153, 26)
  {
    assert Lists(4, 153, 8) && Lists(4, 161, 8) && Lists(4, 169, 8) && Lists(4, 177, 2);
    Join(4, 153, 8, 8);
    Join(4, 153, 16, 8);
    Join(4, 153, 24, 2);
  }

  lemma Row5Head()
    ensures Lists(5, 179, 24)
  {
    assert Lists(5, 179, 8) && Lists(5, 187, 8) && Lists(5, 195, 8);
    Join(5, 179, 8, 8);
    Join(5, 179, 16, 8);
  }

  lemma Row5Tail()
    ensures Lists(5, 203, 24)
  {
    assert Lists(5, 203, 8) && Lists(5, 211, 8) && Lists(5, 219, 8);
    Join(5, 203, 8, 8);
    Join(5, 203, 16, 8);
  }

  lemma Row6Head()
    ensures Lists(6, 227, 16)
  {
    assert Lists(6, 227, 8) && Lists(6, 235, 8);
    Join(6, 227, 8, 8);
  }

  lemma Row6Tail()
    ensures Lists(6, 243, 26)
  {
    assert Lists(6, 243, 8) && Lists(6, 251, 8) && Lists(6, 259, 8) && Lists(6, 267, 2);
    Join(6, 243, 8, 8);
    Join(6, 243, 16, 8);
    Join(6, 243, 24, 2);
  }

  lemma Row7Head()
    ensures Lists(7, 269, 24)
  {
    assert Lists(7, 269, 8) && Lists(7, 277, 8) && Lists(7, 285, 8);
    Join(7, 269, 8, 8);
    Join(7, 269, 16, 8);
  }

  lemma Row7Tail()
    ensures Lists(7, 293, 20)
  {
    assert Lists(7, 293, 8) && Lists(7, 301, 8) && Lists(7, 309, 4);
    Join(7, 293, 8, 8);
    Join(7, 293, 16, 4);
  }

  lemma Row8Head()
    ensures Lists(8, 313, 24)
  {
    assert Lists(8, 313, 8) && Lists(8, 321, 8) && Lists(8, 329, 8);
    Join(8, 313, 8, 8);
    Join(8, 313, 16, 8);
  }

  lemma Row8Tail()
    ensures Lists(8, 337, 30)
  {
    assert Lists(8, 337, 8) && Lists(8, 345, 8) && Lists(8, 353, 8) && Lists(8, 361, 6);
    Join(8, 337, 8, 8);
    Join(8, 337, 16, 8);
    Join(8, 337, 24, 6);
  }

  lemma Row9Head()
    ensures Lists(9, 367, 16)
  {
    assert Lists(9, 367, 8) && Lists(9, 375, 8);
    Join(9, 367, 8, 8);
  }

  lemma Row9Tail()
    ensures Lists(9, 383, 27)
  {
    assert Lists(9, 383, 8) && Lists(9, 391, 8) && Lists(9, 399, 8) && Lists(9, 407, 3);
    Join(9, 383, 8, 8);
    Join(9, 383, 16, 8);
    Join(9, 383, 24, 3);
  }

  lemma RowLists(g: nat)
    requires g < 10
    ensures RowStart(g) <= RowStart(g + 1) && Lists(g, RowStart(g), RowStart(g + 1) - RowStart(g))
  {
    hide Lists;
    match g
    case 0 =>
      Row0Head();
      Row0Tail();
      Join(0, 2, 16, 5);
    case 1 =>
      Row1Head();
      Row1Tail();
      Join(1, 23, 16, 20);
    case 2 =>
      Row2Head();
      Row2Tail();
      Join(2, 59, 16, 22);
    case 3 =>
      Row3Head();
      Row3Tail();
      Join(3, 97, 16, 24);
    case 4 =>
      Row4Head();
      Row4Tail();
      Join(4, 137, 16, 26);
    case 5 =>
      Row5Head();
      Row5Tail();
      Join(5, 179, 24, 24);
    case 6 =>
      Row6Head();
      Row6Tail();
      Join(6, 227, 16, 26);
    case 7 =>
      Row7Head();
      Row7Tail();
      Join(7, 269, 24, 20);
    case 8 =>
      Row8Head();
      Row8Tail();
      Join(8, 313, 24, 30);
    case _ =>
      Row9Head();
      Row9Tail();
      Join(9, 367, 16, 27);
  }

  /** The numbers of a row rise, from the start of the row to that of the next. */
  lemma RowRises(g: nat)
    requires g < 10
    ensures forall i, j :: 0 <= i < j < 8 ==> PrimeRow(g)[i] < PrimeRow(g)[j]
    ensures RowStart(g) == PrimeRow(g)[0] && PrimeRow(g)[7] < RowStart(g + 1)
  {
  }

  lemma {:induction false} RowsRise(g: nat, h: nat)
    requires g < h <= 10
    ensures RowStart(g) < RowStart(h)
    decreases h
  {
    hide PrimeRow, RowStart;
    RowRises(h - 1);
    if g < h - 1 {
      RowsRise(g, h - 1);
    }
  }

  /** The eighty numbers are the first eighty primes in order: they rise, and below 410 exactly
      they are prime. */
  lemma PrimesAreTheFirst(n: nat)
    ensures forall t, u :: 0 <= t < u < COUNT ==> Prime(t) < Prime(u) < 410
    ensures 2 <= n < 410 ==> (IsPrime(n) <==> exists t :: 0 <= t < COUNT && Prime(t) == n)
  {
    hide Prime, IsPrime, NoSmallFactor;
    forall t, u | 0 <= t < u < COUNT
      ensures Prime(t) < Prime(u) < 410
    {
      PrimesRise(t, u);
    }
    if 2 <= n < 410 {
      PrimeIffNoSmallFactor(n);
      ListedSomewhere(n);
    }
  }

  lemma PrimeInRow(t: nat)
    requires t < COUNT
    ensures t / 8 < 10 && RowStart(t / 8) <= Prime(t) < RowStart(t / 8 + 1) && InRow(t / 8, Prime(t))
  {
    hide PrimeRow, RowStart;
    RowRises(t / 8);
  }

  lemma PrimesRise(t: nat, u: nat)
    requires t < u < COUNT
    ensures Prime(t) < Prime(u) < 410
  {
    hide PrimeRow, RowStart;
    RowRises(t / 8);
    PrimeInRow(t);
    PrimeInRow(u);
    assert RowStart(10) == 410 by { TableEnd(); }
    if t / 8 < u / 8 && t / 8 + 1 < u / 8 {
      RowsRise(t / 8 + 1, u / 8);
    }
    if u / 8 + 1 < 10 {
      RowsRise(u / 8 + 1, 10);
    }
  }

  lemma TableEnd()
    ensures RowStart(10) == 410
  {
  }

  /** Every number below 410 that no small prime divides stands in its row. */
  lemma ListedSomewhere(n: nat)
    requires 2 <= n < 410
    ensures NoSmallFactor(n) <==> exists t :: 0 <= t < COUNT && Prime(t) == n
  {
    hide PrimeRow, Lists, NoSmallFactor, InRow;
    var g := RowOf(n);
    RowLists(g);
    ListedIff(g, RowStart(g), RowStart(g + 1) - RowStart(g), n);
    if NoSmallFactor(n) {
      var t := PlaceInRow(g, n);
    }
    if t :| 0 <= t < COUNT && Prime(t) == n {
      PrimeInRow(t);
      SameRow(t / 8, g, n);
    }
  }

  lemma RowOf(n: nat) returns (g: nat)
    requires 2 <= n < 410
    ensures g < 10 && RowStart(g) <= n < RowStart(g + 1)
  {
    g := if n < 23 then 0 else if n < 59 then 1 else if n < 97 then 2 else if n < 137 then 3 else if n < 179 then 4
         else if n < 227 then 5 else if n < 269 then 6 else if n < 313 then 7 else if n < 367 then 8 else 9;
  }

  lemma SameRow(g: nat, h: nat, n: nat)
    requires g < 10 && h < 10 && RowStart(g) <= n < RowStart(g + 1) && RowStart(h) <= n < RowStart(h + 1)
    ensures g == h
  {
  }

  lemma PlaceInRow(g: nat, n: nat) returns (t: nat)
    requires g < 10 && InRow(g, n)
    ensures t < COUNT && Prime(t) == n
  {
    hide PrimeRow;
    var r := PrimeRow(g);
    var k := if r[0] == n then 0 else if r[1] == n then 1 else if r[2] == n then 2 else if r[3] == n then 3
             else if r[4] == n then 4 else if r[5] == n then 5 else if r[6] == n then 6 else 7;
    t := 8 * g + k;
    assert t / 8 == g && t % 8 == k;
  }
}
