/** The constants of SHA-384, and where they come from. */
module Sha384Constants {
  import opened MachineInts
  import opened Primes

  const ROUNDS: nat := 80

  /** The table K of the source, eight words at a time. */
  function KRow(g: nat): (r: seq<U64>)
    requires g < 10
    ensures |r| == 8
  {
    match g
    case 0 =>
      [0x428A2F98D728AE22, 0x7137449123EF65CD, 0xB5C0FBCFEC4D3B2F, 0xE9B5DBA58189DBBC,
       0x3956C25BF348B538, 0x59F111F1B605D019, 0x923F82A4AF194F9B, 0xAB1C5ED5DA6D8118]
    case 1 =>
      [0xD807AA98A3030242, 0x12835B0145706FBE, 0x243185BE4EE4B28C, 0x550C7DC3D5FFB4E2,
       0x72BE5D74F27B896F, 0x80DEB1FE3B1696B1, 0x9BDC06A725C71235, 0xC19BF174CF692694]
    case 2 =>
      [0xE49B69C19EF14AD2, 0xEFBE4786384F25E3, 0x0FC19DC68B8CD5B5, 0x240CA1CC77AC9C65,
       0x2DE92C6F592B0275, 0x4A7484AA6EA6E483, 0x5CB0A9DCBD41FBD4, 0x76F988DA831153B5]
    case 3 =>
      [0x983E5152EE66DFAB, 0xA831C66D2DB43210, 0xB00327C898FB213F, 0xBF597FC7BEEF0EE4,
       0xC6E00BF33DA88FC2, 0xD5A79147930AA725, 0x06CA6351E003826F, 0x142929670A0E6E70]
    case 4 =>
      [0x27B70A8546D22FFC, 0x2E1B21385C26C926, 0x4D2C6DFC5AC42AED, 0x53380D139D95B3DF,
       0x650A73548BAF63DE, 0x766A0ABB3C77B2A8, 0x81C2C92E47EDAEE6, 0x92722C851482353B]
    case 5 =>
      [0xA2BFE8A14CF10364, 0xA81A664BBC423001, 0xC24B8B70D0F89791, 0xC76C51A30654BE30,
       0xD192E819D6EF5218, 0xD69906245565A910, 0xF40E35855771202A, 0x106AA07032BBD1B8]
    case 6 =>
      [0x19A4C116B8D2D0C8, 0x1E376C085141AB53, 0x2748774CDF8EEB99, 0x34B0BCB5E19B48A8,
       0x391C0CB3C5C95A63, 0x4ED8AA4AE3418ACB, 0x5B9CCA4F7763E373, 0x682E6FF3D6B2B8A3]
    case 7 =>
      [0x748F82EE5DEFB2FC, 0x78A5636F43172F60, 0x84C87814A1F0AB72, 0x8CC702081A6439EC,
       0x90BEFFFA23631E28, 0xA4506CEBDE82BDE9, 0xBEF9A3F7B2C67915, 0xC67178F2E372532B]
    case 8 =>
      [0xCA273ECEEA26619C, 0xD186B8C721C0C207, 0xEADA7DD6CDE0EB1E, 0xF57D4F7FEE6ED178,
       0x06F067AA72176FBA, 0x0A637DC5A2C898A6, 0x113F9804BEF90DAE, 0x1B710B35131C471B]
    case _ =>
      [0x28DB77F523047D84, 0x32CAAB7B40C72493, 0x3C9EBE0A15C9BEBC, 0x431D67C49C100D4C,
       0x4CC5D4BECB3E42B6, 0x597F299CFC657E2A, 0x5FCB6FAB3AD6FAEC, 0x6C44198C4A475817]
  }

  function K(t: nat): U64
    requires t < ROUNDS
  {
    KRow(t / 8)[t % 8]
  }

  /** The initial state of the source. */
  const INITIAL: seq<U64> := [
    0xCBBB9D5DC1059ED8, 0x629A292A367CD507, 0x9159015A3070DD17, 0x152FECD8F70E5939,
    0x67332667FFC00B31, 0x8EB44A8768581511, 0xDB0C2E0D64F98FA7, 0x47B5481DBEFA4FA4
  ]

  // ---------- FIPS 180-4, sections 4.2.3 and 5.3.4 ----------

  /** The integer part of the cube root of p, for p below 512. */
  function CubeRootOf(p: nat): nat {
    if p < 8 then 1 else if p < 27 then 2 else if p < 64 then 3 else if p < 125 then 4
    else if p < 216 then 5 else if p < 343 then 6 else 7
  }

  /** The integer part of the square root of p, for 16 <= p < 64. */
  function SquareRootOf(p: nat): nat {
    if p < 25 then 4 else if p < 36 then 5 else if p < 49 then 6 else 7
  }

  function Cube(x: nat): nat {
    x * x * x
  }

  function Square(x: nat): nat {
    x * x
  }

  /** k is the first 64 bits of the fractional part of the cube root of p. */
  predicate IsCubeRootFraction(p: nat, k: U64) {
    Cube(CubeRootOf(p) * TWO_64 + k) <= p * Cube(TWO_64) < Cube(CubeRootOf(p) * TWO_64 + k + 1)
  }

  /** k is the first 64 bits of the fractional part of the square root of p. */
  predicate IsSquareRootFraction(p: nat, k: U64) {
    Square(SquareRootOf(p) * TWO_64 + k) <= p * Square(TWO_64) < Square(SquareRootOf(p) * TWO_64 + k + 1)
  }

  /** Four constants in a row of the table, from place i on, come from the primes in their places. */
  predicate FourCubeRoots(g: nat, i: nat)
    requires g < 10 && i <= 4
  {
    && IsCubeRootFraction(PrimeRow(g)[i], KRow(g)[i]) && IsCubeRootFraction(PrimeRow(g)[i + 1], KRow(g)[i + 1])
    && IsCubeRootFraction(PrimeRow(g)[i + 2], KRow(g)[i + 2]) && IsCubeRootFraction(PrimeRow(g)[i + 3], KRow(g)[i + 3])
  }

  lemma Row0From0()
    ensures FourCubeRoots(0, 0)
  {
  }

  lemma Row0From4()
    ensures FourCubeRoots(0, 4)
  {
  }

  lemma Row1From0()
    ensures FourCubeRoots(1, 0)
  {
  }

  lemma Row1From4()
    ensures FourCubeRoots(1, 4)
  {
  }

  lemma Row2From0()
    ensures FourCubeRoots(2, 0)
  {
  }

  lemma Row2From4()
    ensures FourCubeRoots(2, 4)
  {
  }

  lemma Row3From0()
    ensures FourCubeRoots(3, 0)
  {
  }

  lemma Row3From4()
    ensures FourCubeRoots(3, 4)
  {
  }

  lemma Row4From0()
    ensures FourCubeRoots(4, 0)
  {
  }

  lemma Row4From4()
    ensures FourCubeRoots(4, 4)
  {
  }

  lemma Row5From0()
    ensures FourCubeRoots(5, 0)
  {
  }

  lemma Row5From4()
    ensures FourCubeRoots(5, 4)
  {
  }

  lemma Row6From0()
    ensures FourCubeRoots(6, 0)
  {
  }

  lemma Row6From4()
    ensures FourCubeRoots(6, 4)
  {
  }

  lemma Row7From0()
    ensures FourCubeRoots(7, 0)
  {
  }

  lemma Row7From4()
    ensures FourCubeRoots(7, 4)
  {
  }

  lemma Row8From0()
    ensures FourCubeRoots(8, 0)
  {
  }

  lemma Row8From4()
    ensures FourCubeRoots(8, 4)
  {
  }

  lemma Row9From0()
    ensures FourCubeRoots(9, 0)
  {
  }

  lemma Row9From4()
    ensures FourCubeRoots(9, 4)
  {
  }

  lemma RowIsCubeRoots(g: nat)
    requires g < 10
    ensures FourCubeRoots(g, 0) && FourCubeRoots(g, 4)
  {
    hide FourCubeRoots;
    match g
    case 0 =>
      Row0From0();
      Row0From4();
    case 1 =>
      Row1From0();
      Row1From4();
    case 2 =>
      Row2From0();
      Row2From4();
    case 3 =>
      Row3From0();
      Row3From4();
    case 4 =>
      Row4From0();
      Row4From4();
    case 5 =>
      Row5From0();
      Row5From4();
    case 6 =>
      Row6From0();
      Row6From4();
    case 7 =>
      Row7From0();
      Row7From4();
    case 8 =>
      Row8From0();
      Row8From4();
    case _ =>
      Row9From0();
      Row9From4();
  }

  /** Every round constant is the fraction of the cube root of its prime. */
  lemma RoundConstantsAreCubeRoots(t: nat)
    requires t < ROUNDS
    ensures IsCubeRootFraction(Prime(t), K(t))
  {
    hide KRow, PrimeRow, IsCubeRootFraction;
    RowIsCubeRoots(t / 8);
  }

  /** Every initial word is the fraction of the square root of one of the ninth to sixteenth primes. */
  lemma InitialWordsAreSquareRoots(i: nat)
    requires i < 8
    ensures IsSquareRootFraction(Prime(8 + i), INITIAL[i])
  {
    hide IsSquareRootFraction;
    assert PrimeRow(1) == [23, 29, 31, 37, 41, 43, 47, 53];
    assert IsSquareRootFraction(23, INITIAL[0]) && IsSquareRootFraction(29, INITIAL[1])
        && IsSquareRootFraction(31, INITIAL[2]) && IsSquareRootFraction(37, INITIAL[3])
        && IsSquareRootFraction(41, INITIAL[4]) && IsSquareRootFraction(43, INITIAL[5])
        && IsSquareRootFraction(47, INITIAL[6]) && IsSquareRootFraction(53, INITIAL[7]) by {
      InitialSquares();
    }
  }

  lemma InitialSquares()
    ensures IsSquareRootFraction(23, INITIAL[0]) && IsSquareRootFraction(29, INITIAL[1])
    ensures IsSquareRootFraction(31, INITIAL[2]) && IsSquareRootFraction(37, INITIAL[3])
    ensures IsSquareRootFraction(41, INITIAL[4]) && IsSquareRootFraction(43, INITIAL[5])
    ensures IsSquareRootFraction(47, INITIAL[6]) && IsSquareRootFraction(53, INITIAL[7])
  {
  }
}
