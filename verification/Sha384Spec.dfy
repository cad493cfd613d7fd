/** SHA-384 as FIPS 180-4 defines it. */
module Sha384Spec {
  import opened MachineInts
  import opened Primes
  import opened Sha384Constants

  type Word = bv64
  type Octet = bv8

  const BLOCK: nat := 128
  const TWO_128: nat := 0x1_0000_0000_0000_0000_0000_0000_0000_0000

  // ---------- sections 3.2 and 4.1.3 ----------

  /** Addition modulo 2^64. */
  function Add(x: Word, y: Word): Word {
    x + y
  }

  function Ch(x: Word, y: Word, z: Word): Word {
    (x & y) ^ (!x & z)
  }

  function Maj(x: Word, y: Word, z: Word): Word {
    (x & y) ^ (x & z) ^ (y & z)
  }

  /** Bit k of a word, counted from the right; 0 beyond its end. */
  function BitOf(x: Word, k: nat): Word {
    if k == 0 then x & 1 else BitOf(x >> 1, k - 1)
  }

  /** Ch chooses, bit by bit: where x has a one, the bit of y, elsewhere that of z. */
  lemma {:induction false} ChChooses(x: Word, y: Word, z: Word, k: nat)
    ensures BitOf(Ch(x, y, z), k) == if BitOf(x, k) == 1 then BitOf(y, k) else BitOf(z, k)
  {
    hide Ch;
    if k == 0 {
      LowBitOfCh(x, y, z);
    } else {
      ShiftedCh(x, y, z);
      ChChooses(x >> 1, y >> 1, z >> 1, k - 1);
    }
  }

  lemma LowBitOfCh(x: Word, y: Word, z: Word)
    ensures Ch(x, y, z) & 1 == if x & 1 == 1 then y & 1 else z & 1
  {
  }

  lemma ShiftedCh(x: Word, y: Word, z: Word)
    ensures Ch(x, y, z) >> 1 == Ch(x >> 1, y >> 1, z >> 1)
  {
  }

  /** Maj takes, bit by bit, what at least two of its arguments share. */
  lemma {:induction false} MajIsMajority(x: Word, y: Word, z: Word, k: nat)
    ensures BitOf(Maj(x, y, z), k) == if BitOf(x, k) == BitOf(y, k) then BitOf(x, k) else BitOf(z, k)
  {
    hide Maj;
    if k == 0 {
      LowBitOfMaj(x, y, z);
    } else {
      ShiftedMaj(x, y, z);
      MajIsMajority(x >> 1, y >> 1, z >> 1, k - 1);
    }
  }

  lemma LowBitOfMaj(x: Word, y: Word, z: Word)
    ensures Maj(x, y, z) & 1 == if x & 1 == y & 1 then x & 1 else z & 1
  {
  }

  lemma ShiftedMaj(x: Word, y: Word, z: Word)
    ensures Maj(x, y, z) >> 1 == Maj(x >> 1, y >> 1, z >> 1)
  {
  }

  /** Add counts on from x, one step for each step of y, around 2^64; this determines it. */
  lemma AddCountsOn(x: Word, y: Word)
    ensures Add(x, 0) == x && Add(x, y + 1) == Add(x, y) + 1
  {
  }

  /** Every round uses the first 64 bits of the fraction of the cube root of its prime. */
  lemma RoundWordIsCubeRoot(t: nat)
    requires t < ROUNDS
    ensures IsCubeRootFraction(Prime(t), K(t)) && KWord(t) == K(t) as Word
  {
    hide IsCubeRootFraction, Prime, K;
    RoundConstantsAreCubeRoots(t);
  }

  /** Every word of the initial state is the fraction of the square root of its prime. */
  lemma InitialWordIsSquareRoot(i: nat)
    requires i < 8
    ensures IsSquareRootFraction(Prime(8 + i), INITIAL[i])
    ensures InitialState()[i] == InitialWord(i) && InitialWord(i) == INITIAL[i] as Word
  {
    hide IsSquareRootFraction, Prime, InitialWord, InitialState;
    InitialWordsAreSquareRoots(i);
    WordOfState(i);
    WordIsConstant(i);
  }

  lemma WordOfState(i: nat)
    requires i < 8
    ensures InitialState()[i] == InitialWord(i)
  {
    hide InitialWord;
  }

  lemma WordIsConstant(i: nat)
    requires i < 8
    ensures InitialWord(i) == INITIAL[i] as Word
  {
  }

  function BigSigma0(x: Word): Word {
    x.RotateRight(28) ^ x.RotateRight(34) ^ x.RotateRight(39)
  }

  function BigSigma1(x: Word): Word {
    x.RotateRight(14) ^ x.RotateRight(18) ^ x.RotateRight(41)
  }

  function SmallSigma0(x: Word): Word {
    x.RotateRight(1) ^ x.RotateRight(8) ^ (x >> 7)
  }

  function SmallSigma1(x: Word): Word {
    x.RotateRight(19) ^ x.RotateRight(61) ^ (x >> 6)
  }

  // ---------- sections 3.1, 5.2.2 and 6.4.2: one block ----------

  /** A word with one more byte on the right. */
  function Push(w: Word, x: Octet): Word {
    (w << 8) | (x as Word)
  }

  /** Bytes to a word, most significant byte first. */
  function ParseWord(b: seq<Octet>): Word {
    if b == [] then 0 else Push(ParseWord(b[..|b| - 1]), b[|b| - 1])
  }

  /** The message schedule. */
  function Schedule(block: seq<Octet>, t: nat): Word
    requires |block| == BLOCK && t < ROUNDS
  {
    if t < 16 then ParseWord(block[8 * t..8 * t + 8])
    else Add(Add(Add(SmallSigma1(Schedule(block, t - 2)), Schedule(block, t - 7)),
                 SmallSigma0(Schedule(block, t - 15))), Schedule(block, t - 16))
  }

  datatype Vars = Vars(a: Word, b: Word, c: Word, d: Word, e: Word, f: Word, g: Word, h: Word)

  function KWord(t: nat): Word
    requires t < ROUNDS
  {
    K(t) as Word
  }

  function Round(v: Vars, k: Word, w: Word): Vars {
    var t1 := Add(Add(Add(Add(v.h, BigSigma1(v.e)), Ch(v.e, v.f, v.g)), k), w);
    var t2 := Add(BigSigma0(v.a), Maj(v.a, v.b, v.c));
    Vars(Add(t1, t2), v.a, v.b, v.c, Add(v.d, t1), v.e, v.f, v.g)
  }

  /** The working variables after t rounds. */
  function Rounds(v: Vars, block: seq<Octet>, t: nat): Vars
    requires |block| == BLOCK && t <= ROUNDS
  {
    if t == 0 then v else Round(Rounds(v, block, t - 1), KWord(t - 1), Schedule(block, t - 1))
  }

  function Compress(h: seq<Word>, block: seq<Octet>): (r: seq<Word>)
    requires |h| == 8 && |block| == BLOCK
    ensures |r| == 8
  {
    var v := Rounds(Vars(h[0], h[1], h[2], h[3], h[4], h[5], h[6], h[7]), block, ROUNDS);
    [Add(h[0], v.a), Add(h[1], v.b), Add(h[2], v.c), Add(h[3], v.d),
     Add(h[4], v.e), Add(h[5], v.f), Add(h[6], v.g), Add(h[7], v.h)]
  }

  function InitialState(): (h: seq<Word>)
    ensures |h| == 8
  {
    [InitialWord(0), InitialWord(1), InitialWord(2), InitialWord(3),
     InitialWord(4), InitialWord(5), InitialWord(6), InitialWord(7)]
  }

  function InitialWord(i: nat): Word
    requires i < 8
  {
    INITIAL[i] as Word
  }

  /** The hash value after the first n blocks of m. */
  ghost function Chain(m: seq<Octet>, n: nat): (h: seq<Word>)
    requires BLOCK * n <= |m|
    ensures |h| == 8
  {
    if n == 0 then InitialState() else Compress(Chain(m, n - 1), m[BLOCK * (n - 1)..BLOCK * n])
  }

  // ---------- sections 5.1.2 and 6.5: the whole message ----------

  function Zeros(n: nat): (z: seq<Octet>)
    ensures |z| == n && forall i :: 0 <= i < n ==> z[i] == 0
  {
    if n == 0 then [] else Zeros(n - 1) + [0]
  }

  /** The k low bytes of n, most significant first. */
  function BigEndian(n: nat, k: nat): (s: seq<Octet>)
    ensures |s| == k
  {
    if k == 0 then [] else BigEndian(n / 256, k - 1) + [(n % 256) as Octet]
  }

  /** The smallest z for which len + 1 + z leaves room for just the 16 length bytes in the last block. */
  function ZeroCount(len: nat): (z: nat)
    ensures z < BLOCK && (len + 1 + z) % BLOCK == 112
  {
    (111 - len) % BLOCK
  }

  /** Padding with given length bytes. */
  ghost function PadWith(msg: seq<Octet>, lengthBytes: seq<Octet>): (p: seq<Octet>)
    requires |lengthBytes| == 16
    ensures |p| % BLOCK == 0 && |p| == |msg| + 1 + ZeroCount(|msg|) + 16 && msg <= p
  {
    msg + [0x80] + Zeros(ZeroCount(|msg|)) + lengthBytes
  }

  /** The bit length of a message in 128 bits. */
  ghost function BitLength(msg: seq<Octet>): nat {
    8 * |msg| % TWO_128
  }

  function WordBytes(w: Word): (b: seq<Octet>)
    ensures |b| == 8
  {
    [((w >> 56) & 0xFF) as Octet, ((w >> 48) & 0xFF) as Octet, ((w >> 40) & 0xFF) as Octet, ((w >> 32) & 0xFF) as Octet,
     ((w >> 24) & 0xFF) as Octet, ((w >> 16) & 0xFF) as Octet, ((w >> 8) & 0xFF) as Octet, (w & 0xFF) as Octet]
  }

  /** The first n words of a hash value as bytes. */
  function WordsBytes(h: seq<Word>, n: nat): (d: seq<Octet>)
    requires n <= |h|
    ensures |d| == 8 * n
  {
    if n == 0 then [] else WordsBytes(h, n - 1) + WordBytes(h[n - 1])
  }

  /** The hash of an already padded message. */
  ghost function HashPadded(p: seq<Octet>): (d: seq<Octet>)
    requires |p| % BLOCK == 0
  {
    WordsBytes(Chain(p, |p| / BLOCK), 6)
  }

  /** SHA-384. */
  ghost function Sha384Of(msg: seq<Octet>): seq<Octet> {
    HashPadded(PadWith(msg, BigEndian(BitLength(msg), 16)))
  }

  // ---------- properties used by the streaming code ----------

  /** The hash value after n blocks depends on those blocks only. */
  lemma {:induction false} ChainOfPrefix(m: seq<Octet>, m': seq<Octet>, n: nat)
    requires BLOCK * n <= |m| && BLOCK * n <= |m'| && m[..BLOCK * n] == m'[..BLOCK * n]
    ensures Chain(m, n) == Chain(m', n)
  {
    hide Compress, InitialState;
    if n > 0 {
      SameSlices(m, m', BLOCK * (n - 1), BLOCK * n);
      ChainOfPrefix(m, m', n - 1);
    }
  }

  lemma SameSlices(m: seq<Octet>, m': seq<Octet>, i: nat, j: nat)
    requires i <= j <= |m| && j <= |m'| && m[..j] == m'[..j]
    ensures m[..i] == m'[..i] && m[i..j] == m'[i..j]
  {
    assert m[..i] == m[..j][..i] && m'[..i] == m'[..j][..i];
    assert m[i..j] == m[..j][i..] && m'[i..j] == m'[..j][i..];
  }

  /** A word survives being written out and parsed. */
  lemma WordRoundTrip(w: Word)
    ensures ParseWord(WordBytes(w)) == w
  {
    var b := WordBytes(w);
    ParseEight(b);
    assert ((((w >> 56) & 0xFF) << 56) | (((w >> 48) & 0xFF) << 48) | (((w >> 40) & 0xFF) << 40) | (((w >> 32) & 0xFF) << 32)
         | (((w >> 24) & 0xFF) << 24) | (((w >> 16) & 0xFF) << 16) | (((w >> 8) & 0xFF) << 8) | (w & 0xFF)) == w;
  }

  /** Parsing eight bytes, as the shifts and ors of the source. */
  lemma ParseEight(b: seq<Octet>)
    requires |b| == 8
    ensures ParseWord(b) == ((b[0] as Word) << 56) | ((b[1] as Word) << 48) | ((b[2] as Word) << 40) | ((b[3] as Word) << 32)
                          | ((b[4] as Word) << 24) | ((b[5] as Word) << 16) | ((b[6] as Word) << 8) | (b[7] as Word)
  {
    hide ParseWord;
    EightPushes(b);
    PushesShift(b[0], b[1], b[2], b[3], b[4], b[5], b[6], b[7]);
  }

  lemma EightPushes(b: seq<Octet>)
    requires |b| == 8
    ensures ParseWord(b) == Push(Push(Push(Push(Push(Push(Push(Push(0, b[0]), b[1]), b[2]), b[3]), b[4]), b[5]), b[6]), b[7])
  {
    hide Push, ParseWord;
    forall i | 0 <= i < 8
      ensures ParseWord(b[..i + 1]) == Push(ParseWord(b[..i]), b[i])
    {
      PushLast(b[..i], b[i]);
      assert b[..i + 1] == b[..i] + [b[i]];
    }
    assert b[..8] == b && b[..0] == [];
    NothingParsed();
  }

  lemma NothingParsed()
    ensures ParseWord([]) == 0
  {
  }

  lemma PushLast(b: seq<Octet>, x: Octet)
    ensures ParseWord(b + [x]) == Push(ParseWord(b), x)
  {
    hide Push;
    assert (b + [x])[..|b + [x]| - 1] == b;
  }

  lemma PushesShift(x0: Octet, x1: Octet, x2: Octet, x3: Octet, x4: Octet, x5: Octet, x6: Octet, x7: Octet)
    ensures Push(Push(Push(Push(Push(Push(Push(Push(0, x0), x1), x2), x3), x4), x5), x6), x7)
            == ((x0 as Word) << 56) | ((x1 as Word) << 48) | ((x2 as Word) << 40) | ((x3 as Word) << 32)
             | ((x4 as Word) << 24) | ((x5 as Word) << 16) | ((x6 as Word) << 8) | (x7 as Word)
  {
  }

  /** A number in bytes is its high part, then its k low bytes. */
  lemma {:induction false} BigEndianSplit(hi: nat, lo: nat, j: nat, k: nat)
    requires lo < Pow256(k)
    ensures BigEndian(hi * Pow256(k) + lo, j + k) == BigEndian(hi, j) + BigEndian(lo, k)
  {
    if k == 0 {
      assert BigEndian(lo, 0) == [];
    } else {
      ShiftDownOneByte(hi, lo, Pow256(k - 1));
      BigEndianSplit(hi, lo / 256, j, k - 1);
    }
  }

  lemma ShiftDownOneByte(hi: nat, lo: nat, p: nat)
    ensures (hi * (256 * p) + lo) / 256 == hi * p + lo / 256 && (hi * (256 * p) + lo) % 256 == lo % 256
  {
    assert hi * (256 * p) == (hi * p) * 256;
    DivShift(hi * (256 * p) + lo, hi * p, 256, lo);
  }

  /** Byte i of a big-endian word is the word shifted down to it. */
  lemma {:induction false} BigEndianByte(n: nat, k: nat, i: nat)
    requires i < k
    ensures BitAnd(Shr(n, 8 * (k - 1 - i)), 0xFF) < 256
    ensures BigEndian(n, k)[i] == BitAnd(Shr(n, 8 * (k - 1 - i)), 0xFF) as Octet
  {
    var s := 8 * (k - 1 - i);
    assert Pow2(8) == 256;
    AndLowMask(Shr(n, s), 8);
    if i < k - 1 {
      BigEndianByte(n / 256, k - 1, i);
      ShrEight(n, s - 8);
    }
  }

  lemma ShrEight(n: nat, s: nat)
    ensures Shr(n, s + 8) == Shr(n / 256, s)
  {
    assert Shr(n, s + 8) == Shr(n / 2 / 2, s + 6);
    assert Shr(n / 2 / 2, s + 6) == Shr(n / 2 / 2 / 2 / 2, s + 4);
    assert Shr(n / 16, s + 4) == Shr(n / 16 / 2 / 2, s + 2);
    assert Shr(n / 64, s + 2) == Shr(n / 64 / 2 / 2, s);
  }

  /** Padding of a message whose last block has room for the length: one more block. */
  lemma PadInOneBlock(msg: seq<Octet>, lengthBytes: seq<Octet>, q: nat, r: nat)
    requires |lengthBytes| == 16 && |msg| == BLOCK * q + r && r < 112
    ensures var p := PadWith(msg, lengthBytes);
            && |p| == BLOCK * (q + 1)
            && p[BLOCK * q..BLOCK * (q + 1)] == msg[BLOCK * q..] + [0x80] + Zeros(111 - r) + lengthBytes
  {
    ModIs(111 - |msg|, BLOCK, -(q as int), 111 - r);
  }

  /** Padding of a message whose last block has no room: two more blocks. */
  lemma PadInTwoBlocks(msg: seq<Octet>, lengthBytes: seq<Octet>, q: nat, r: nat)
    requires |lengthBytes| == 16 && |msg| == BLOCK * q + r && 112 <= r < BLOCK
    ensures var p := PadWith(msg, lengthBytes);
            && |p| == BLOCK * (q + 2)
            && p[BLOCK * q..BLOCK * (q + 1)] == msg[BLOCK * q..] + [0x80] + Zeros(127 - r)
            && p[BLOCK * (q + 1)..BLOCK * (q + 2)] == Zeros(112) + lengthBytes
  {
    ModIs(111 - |msg|, BLOCK, -(q as int) - 1, 239 - r);
  }
}
