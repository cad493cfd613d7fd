/** The streaming SHA-384 of the UEFI boot loader, proved against FIPS 180-4. */
module Sha384 {
  import opened MachineInts
  import opened Sha384Constants
  import opened Sha384Spec

  // ---------- the round macros ----------

  function CH(x: Word, y: Word, z: Word): Word {
    (x & y) ^ (!x & z)
  }

  function MAJ(x: Word, y: Word, z: Word): Word {
    (x & y) ^ (x & z) ^ (y & z)
  }

  function EP0(x: Word): Word {
    ((x >> 28) | (x << 36)) ^ ((x >> 34) | (x << 30)) ^ ((x >> 39) | (x << 25))
  }

  function EP1(x: Word): Word {
    ((x >> 14) | (x << 50)) ^ ((x >> 18) | (x << 46)) ^ ((x >> 41) | (x << 23))
  }

  function SIG0(x: Word): Word {
    ((x >> 1) | (x << 63)) ^ ((x >> 8) | (x << 56)) ^ (x >> 7)
  }

  function SIG1(x: Word): Word {
    ((x >> 19) | (x << 45)) ^ ((x >> 61) | (x << 3)) ^ (x >> 6)
  }

  /** The macros are the functions of the standard. */
  lemma MacrosAreStandard(x: Word)
    ensures forall y: Word, z: Word :: CH(x, y, z) == Ch(x, y, z) && MAJ(x, y, z) == Maj(x, y, z)
    ensures EP0(x) == BigSigma0(x) && EP1(x) == BigSigma1(x) && SIG0(x) == SmallSigma0(x) && SIG1(x) == SmallSigma1(x)
  {
  }

  // ---------- the length counter ----------

  /** The high count word after a further `len` bytes. */
  function CountHigh(high: U64, low: U64, len: nat): U64 {
    var carry := if Wrap(low + Wrap(8 * len)) < Wrap(8 * len) then 1 else 0;
    Wrap(high + carry + len / 0x2000_0000)
  }

  /** The two count words hold the bit length of len bytes. */
  ghost predicate ExactCount(high: U64, low: U64, len: nat) {
    high * TWO_64 + low == 8 * len % TWO_128
  }

  /** An exact count stays exact exactly for updates below 2^29 bytes: the code adds len >> 29
      to the high word where the bits above 2^64 are len >> 61. */
  lemma CountStaysExactIff(high: U64, low: U64, len: nat, more: nat)
    requires ExactCount(high, low, len) && more < TWO_64
    ensures ExactCount(CountHigh(high, low, more), Wrap(low + Wrap(8 * more)), len + more) <==> more < 0x2000_0000
  {
    hide Wrap;
    var n := 8 * more;
    var lo, hi := Wrap(n), more / 0x2000_0000_0000_0000;
    WrapSplit(n, hi);
    var carry := if Wrap(low + lo) < lo then 1 else 0;
    Carry(low, lo);
    SumSplit(high, low, len, more, hi, lo, carry);
    DifferentHigh(high + carry, hi, more / 0x2000_0000);
    assert hi == more / 0x2000_0000 <==> more < 0x2000_0000;
    DivShift(high * TWO_64 + low, high, TWO_64, low);
  }

  /** The shortest update that goes wrong: 2^29 bytes into a fresh context set the high word to 1. */
  lemma CountGoesWrong()
    ensures CountHigh(0, 0, 0x2000_0000) == 1 && !ExactCount(1, Wrap(0 + Wrap(8 * 0x2000_0000)), 0x2000_0000)
  {
    NothingCounted();
    CountStaysExactIff(0, 0, 0, 0x2000_0000);
  }

  lemma WrapSplit(n: nat, hi: nat)
    requires n % 8 == 0 && hi == n / 8 / 0x2000_0000_0000_0000
    ensures n == hi * TWO_64 + Wrap(n)
  {
  }

  lemma Carry(low: U64, lo: U64)
    ensures low + lo == (if Wrap(low + lo) < lo then 1 else 0) * TWO_64 + Wrap(low + lo)
  {
  }

  /** The exact bit length after the update, in two words. */
  lemma SumSplit(high: U64, low: U64, len: nat, more: nat, hi: nat, lo: U64, carry: nat)
    requires ExactCount(high, low, len) && 8 * more == hi * TWO_64 + lo
    requires low + lo == carry * TWO_64 + Wrap(low + lo)
    ensures 8 * (len + more) % TWO_128 == Wrap(high + carry + hi) * TWO_64 + Wrap(low + lo)
  {
    hide Wrap;
    var q, top := 8 * len / TWO_128, high + carry + hi;
    WrapQuotient(top);
    ModIs(8 * (len + more), TWO_128, q + top / TWO_64, Wrap(top) * TWO_64 + Wrap(low + lo));
  }

  lemma WrapQuotient(x: nat)
    ensures x == x / TWO_64 * TWO_64 + Wrap(x)
  {
  }

  lemma DifferentHigh(x: nat, a: nat, b: nat)
    requires a < TWO_64 && b < TWO_64
    ensures Wrap(x + a) == Wrap(x + b) <==> a == b
  {
  }

  // ---------- one block ----------

  /** The message schedule: sixteen words parsed from the block, then sixty-four computed. */
  method MakeSchedule(block: seq<Octet>) returns (w: array<Word>)
    requires |block| == BLOCK
    ensures w.Length == ROUNDS && fresh(w)
    ensures forall t :: 0 <= t < ROUNDS ==> w[t] == Schedule(block, t)
  {
    hide Schedule, ParseWord, SIG0, SIG1, SmallSigma0, SmallSigma1, Add, WordAt;
    w := new Word[ROUNDS](_ => 0);
    var i := 0;
    while i < 16
      invariant 0 <= i <= 16
      invariant forall t :: 0 <= t < i ==> w[t] == Schedule(block, t)
    {
      w[i] := WordAt(block, 8 * i);
      WordAtParses(block, 8 * i);
      ScheduleStart(block, i);
      i := i + 1;
    }
    while i < ROUNDS
      invariant 16 <= i <= ROUNDS
      invariant forall t :: 0 <= t < i ==> w[t] == Schedule(block, t)
    {
      w[i] := Add(Add(Add(SIG1(w[i - 2]), w[i - 7]), SIG0(w[i - 15])), w[i - 16]);
      MacrosAreStandard(w[i - 2]);
      MacrosAreStandard(w[i - 15]);
      ScheduleStep(block, i);
      i := i + 1;
    }
  }

  /** Eight bytes of the block as the source reads them. */
  function WordAt(block: seq<Octet>, k: nat): Word
    requires k + 8 <= |block|
  {
    ((block[k] as Word) << 56) | ((block[k + 1] as Word) << 48) | ((block[k + 2] as Word) << 40) | ((block[k + 3] as Word) << 32)
    | ((block[k + 4] as Word) << 24) | ((block[k + 5] as Word) << 16) | ((block[k + 6] as Word) << 8) | (block[k + 7] as Word)
  }

  lemma WordAtParses(block: seq<Octet>, k: nat)
    requires k + 8 <= |block|
    ensures WordAt(block, k) == ParseWord(block[k..k + 8])
  {
    hide ParseWord;
    ParseEight(block[k..k + 8]);
  }

  lemma ScheduleStart(block: seq<Octet>, t: nat)
    requires |block| == BLOCK && t < 16
    ensures Schedule(block, t) == ParseWord(block[8 * t..8 * t + 8])
  {
  }

  lemma ScheduleStep(block: seq<Octet>, t: nat)
    requires |block| == BLOCK && 16 <= t < ROUNDS
    ensures Schedule(block, t) == Add(Add(Add(SmallSigma1(Schedule(block, t - 2)), Schedule(block, t - 7)),
                                          SmallSigma0(Schedule(block, t - 15))), Schedule(block, t - 16))
  {
    hide Add, SmallSigma0, SmallSigma1, ParseWord;
  }

  /** The eight working variables rotated through the rounds. */
  method EightyRounds(v0: Vars, w: seq<Word>, block: seq<Octet>) returns (v: Vars)
    requires |block| == BLOCK && |w| == ROUNDS
    requires forall t :: 0 <= t < ROUNDS ==> w[t] == Schedule(block, t)
    ensures v == Rounds(v0, block, ROUNDS)
  {
    hide Schedule, Rounds, KWord, EP0, EP1, BigSigma0, BigSigma1, Ch, Maj, CH, MAJ, Add;
    var a, b, c, d := v0.a, v0.b, v0.c, v0.d;
    var e, f, g, h := v0.e, v0.f, v0.g, v0.h;
    var i := 0;
    RoundsStart(v0, block);
    while i < ROUNDS
      invariant 0 <= i <= ROUNDS
      invariant Vars(a, b, c, d, e, f, g, h) == Rounds(v0, block, i)
    {
      RoundsStep(v0, block, i);
      MacrosAreStandard(a);
      MacrosAreStandard(e);
      var t1 := Add(Add(Add(Add(h, EP1(e)), CH(e, f, g)), KWord(i)), w[i]);
      var t2 := Add(EP0(a), MAJ(a, b, c));
      h := g;
      g := f;
      f := e;
      e := Add(d, t1);
      d := c;
      c := b;
      b := a;
      a := Add(t1, t2);
      i := i + 1;
    }
    v := Vars(a, b, c, d, e, f, g, h);
  }

  lemma RoundsStart(v: Vars, block: seq<Octet>)
    requires |block| == BLOCK
    ensures Rounds(v, block, 0) == v
  {
  }

  lemma RoundsStep(v: Vars, block: seq<Octet>, t: nat)
    requires |block| == BLOCK && t < ROUNDS
    ensures Rounds(v, block, t + 1) == Round(Rounds(v, block, t), KWord(t), Schedule(block, t))
  {
  }

  // ---------- the context ----------

  class Sha384Ctx {
    const state: array<Word>
    const buffer: array<Octet>
    var count0: U64
    var count1: U64
    /** Everything hashed so far. */
    ghost var msg: seq<Octet>

    ghost predicate Shape()
      reads this
    {
      state.Length == 8 && buffer.Length == BLOCK
    }

    /** The state covers the whole blocks of msg, the buffer starts with the rest, and the low
        count word is the bit length modulo 2^64. */
    ghost predicate Valid()
      reads this, state, buffer
    {
      && Shape()
      && state[..] == Chain(msg, |msg| / BLOCK)
      && buffer[..|msg| % BLOCK] == msg[|msg| / BLOCK * BLOCK..]
      && count0 == Wrap(8 * |msg|)
    }

    constructor ()
      ensures Shape() && fresh(state) && fresh(buffer)
    {
      state, buffer := new Word[8](_ => 0), new Octet[BLOCK](_ => 0);
    }

    /** The eight assignments of the initial state. */
    method LoadInitialState()
      requires Shape()
      modifies state
      ensures state[..] == InitialState()
    {
      hide InitialWord, InitialState;
      state[0], state[1] := InitialWord(0), InitialWord(1);
      state[2], state[3] := InitialWord(2), InitialWord(3);
      state[4], state[5] := InitialWord(4), InitialWord(5);
      state[6], state[7] := InitialWord(6), InitialWord(7);
      IsInitialState(state[..]);
    }

    method Init()
      requires Shape()
      modifies this`count0, this`count1, this`msg, state
      ensures Valid() && msg == [] && count0 == 0 && count1 == 0
    {
      hide InitialWord, InitialState, Chain, Wrap;
      LoadInitialState();
      count0, count1, msg := 0, 0, [];
      NothingHashed();
      assert buffer[..0] == [];
    }

    /** One block: the schedule, eighty rounds, and the addition to the state. */
    method Transform(block: seq<Octet>)
      requires Shape() && |block| == BLOCK
      modifies state
      ensures state[..] == Compress(old(state[..]), block)
    {
      hide Schedule, Rounds, Add;
      var w := MakeSchedule(block);
      var v0 := Vars(state[0], state[1], state[2], state[3], state[4], state[5], state[6], state[7]);
      var v := EightyRounds(v0, w[..], block);
      state[0], state[1], state[2], state[3] := Add(state[0], v.a), Add(state[1], v.b), Add(state[2], v.c), Add(state[3], v.d);
      state[4], state[5], state[6], state[7] := Add(state[4], v.e), Add(state[5], v.f), Add(state[6], v.g), Add(state[7], v.h);
    }

    /** MemCpy into the buffer. */
    method Fill(at: nat, data: seq<Octet>)
      requires Shape() && at + |data| <= BLOCK
      modifies buffer
      ensures buffer[..] == old(buffer[..at]) + data + old(buffer[at + |data|..])
    {
      var i := 0;
      while i < |data|
        invariant 0 <= i <= |data|
        invariant forall x :: 0 <= x < BLOCK ==> buffer[x] == if at <= x < at + i then data[x - at] else old(buffer[x])
      {
        buffer[at + i] := data[i];
        i := i + 1;
      }
    }

    /** The number of bytes waiting in the buffer. */
    function Waiting(): (j: nat)
      reads this
    {
      BitAnd(Shr(count0, 3), 127)
    }

    /** Adds data to the message: fills the buffer, hashes whole blocks, keeps the rest. */
    method Update(data: seq<Octet>)
      requires Valid() && |data| < 0x8000_0000_0000_0000
      modifies this`count0, this`count1, this`msg, state, buffer
      ensures Valid() && msg == old(msg) + data
      ensures count0 == (old(count0) + 8 * |data|) % TWO_64
      ensures count1 == (old(count1) + |data| / 0x2000_0000 + if count0 < 8 * |data| % TWO_64 then 1 else 0) % TWO_64
      ensures old(ExactCount(count1, count0, |msg|)) ==>
                (ExactCount(count1, count0, |msg|) <==> |data| < 0x2000_0000)
    {
      hide Chain, ExactCount, BitAnd, Shr, CountHigh, Wrap;
      var len := |data|;
      var j := Waiting();
      WaitingIs(count0, |msg|);
      if ExactCount(count1, count0, |msg|) {
        CountStaysExactIff(count1, count0, |msg|, len);
      }
      LowCount(|msg|, len);
      CountWords(count1, count0, len);
      ghost var high := CountHigh(count1, count0, len);
      count0 := Wrap(count0 + Wrap(8 * len));
      if count0 < Wrap(8 * len) {
        count1 := Wrap(count1 + 1);
      }
      count1 := Wrap(count1 + len / 0x2000_0000);
      assert count1 == high;
      Absorb(data, j);
      msg := msg + data;
    }

    /** Completes the block in the buffer and hashes it and the whole blocks that follow. `i` is how
        much of the data is used up, `n` the number of blocks hashed so far. */
    method HashFilled(data: seq<Octet>, j: nat) returns (i: nat, ghost n: nat)
      requires Shape() && state[..] == Chain(msg, |msg| / BLOCK)
      requires j == |msg| % BLOCK && buffer[..j] == msg[|msg| / BLOCK * BLOCK..] && j + |data| > 127
      modifies state, buffer
      ensures i <= |data| < i + BLOCK && |msg| + i == BLOCK * n && state[..] == Chain(msg + data, n)
    {
      hide Chain, Compress;
      ghost var full, q := msg + data, |msg| / BLOCK;
      assert |msg| == BLOCK * q + j;
      i := BLOCK - j;
      Fill(j, data[..i]);
      CompletedBlock(msg, data, q, j, old(buffer[..j]), buffer[..]);
      ChainGrows(msg, full, q + 1);
      Transform(buffer[..]);
      i, n := HashWhole(data, i, full, q + 1);
    }

    /** The part of Update that moves data: completes the block in the buffer, hashes the whole
        blocks that follow, and leaves the rest in the buffer. */
    method Absorb(data: seq<Octet>, j: nat)
      requires Shape() && state[..] == Chain(msg, |msg| / BLOCK)
      requires j == |msg| % BLOCK && buffer[..j] == msg[|msg| / BLOCK * BLOCK..]
      modifies state, buffer
      ensures state[..] == Chain(msg + data, |msg + data| / BLOCK)
      ensures buffer[..|msg + data| % BLOCK] == (msg + data)[|msg + data| / BLOCK * BLOCK..]
    {
      hide Chain, Compress;
      var len := |data|;
      ghost var full, q := msg + data, |msg| / BLOCK;
      assert |msg| == BLOCK * q + j;
      if j + len > 127 {
        var i;
        ghost var n;
        i, n := HashFilled(data, j);
        ModIs(|full|, BLOCK, n, len - i);
        Fill(0, data[i..]);
        assert full[BLOCK * n..] == data[i..];
      } else {
        ChainOfPrefix(msg, full, q);
        ModIs(|full|, BLOCK, q, j + len);
        Fill(j, data);
        assert full[BLOCK * q..] == msg[BLOCK * q..] + data;
        assert buffer[..j + len] == old(buffer[..j]) + data;
      }
    }

    /** Writes 0x80 and then zeros up to `limit`. */
    method PadTo(index: nat, limit: nat)
      requires Shape() && index < limit <= BLOCK
      modifies buffer
      ensures buffer[..] == old(buffer[..index]) + [0x80] + Zeros(limit - index - 1) + old(buffer[limit..])
    {
      buffer[index] := 0x80;
      var i := index + 1;
      while i < limit
        invariant index < i <= limit
        invariant forall x :: 0 <= x < BLOCK ==>
          buffer[x] == if x == index then 0x80 else if index < x < i then 0 else old(buffer[x])
      {
        buffer[i] := 0;
        i := i + 1;
      }
    }

    /** The sixteen length bytes: both count words, most significant byte first. */
    method LengthBytes() returns (bits: seq<Octet>)
      ensures bits == BigEndian(count1, 8) + BigEndian(count0, 8)
    {
      hide BigEndian, BitAnd, Shr;
      var high, low := [], [];
      var i := 0;
      while i < 8
        invariant 0 <= i <= 8
        invariant high == BigEndian(count1, 8)[..i] && low == BigEndian(count0, 8)[..i]
      {
        BigEndianByte(count1, 8, i);
        BigEndianByte(count0, 8, i);
        high := high + [BitAnd(Shr(count1, 56 - i * 8), 0xFF) as Octet];
        low := low + [BitAnd(Shr(count0, 56 - i * 8), 0xFF) as Octet];
        i := i + 1;
      }
      bits := high + low;
    }

    /** Pads the message with the given length bytes and hashes what is left. */
    method HashRest(bits: seq<Octet>)
      requires Valid() && |bits| == 16
      modifies state, buffer
      ensures state[..] == Chain(PadWith(msg, bits), |PadWith(msg, bits)| / BLOCK)
    {
      hide Chain, Compress, BitAnd, Shr, Wrap, Zeros, PadWith;
      WaitingIs(count0, |msg|);
      var index := Waiting();
      ghost var q, p := |msg| / BLOCK, PadWith(msg, bits);
      assert |msg| == BLOCK * q + index;
      if index < 112 {
        PadTo(index, 112);
        PadInOneBlock(msg, bits, q, index);
        ChainGrows(msg, p, q + 1);
      } else {
        PadTo(index, BLOCK);
        PadInTwoBlocks(msg, bits, q, index);
        assert buffer[..] == p[BLOCK * q..BLOCK * (q + 1)];
        ChainGrows(msg, p, q + 1);
        Transform(buffer[..]);
        Fill(0, Zeros(112));
        q := q + 1;
        ChainStep(p, q + 1);
      }
      Fill(112, bits);
      assert buffer[..] == p[BLOCK * q..BLOCK * (q + 1)];
      Transform(buffer[..]);
      assert |p| / BLOCK == q + 1;
    }

    /** The digest: six words of the state after the padded message. The context is used up. */
    method Final(digest: array<Octet>)
      requires Valid() && digest.Length == 48 && digest != buffer
      modifies state, buffer, digest
      ensures digest[..] == HashPadded(PadWith(msg, BigEndian(count1, 8) + BigEndian(count0, 8)))
      ensures ExactCount(count1, count0, |msg|) ==> digest[..] == Sha384Of(msg)
    {
      hide Chain, BigEndian, WordsBytes, PadWith, ExactCount, Sha384Of, Wrap;
      var bits := LengthBytes();
      HashRest(bits);
      WriteDigest(digest);
      if ExactCount(count1, count0, |msg|) {
        ExactPadding(msg, count1, count0);
      }
    }

    method WriteDigest(digest: array<Octet>)
      requires Shape() && digest.Length == 48 && digest != buffer
      modifies digest
      ensures digest[..] == WordsBytes(state[..], 6)
    {
      hide WordBytes;
      var i := 0;
      while i < 6
        invariant 0 <= i <= 6 && digest[..8 * i] == WordsBytes(state[..], i)
      {
        var b := WordBytes(state[i]);
        ghost var h, before := state[..], digest[..8 * i];
        forall k | 0 <= k < 8 {
          digest[8 * i + k] := b[k];
        }
        assert digest[..8 * (i + 1)] == before + b && state[..] == h;
        i := i + 1;
      }
      assert digest[..] == digest[..48];
    }

    /** Hashes whole blocks straight from the data. */
    method HashWhole(data: seq<Octet>, i0: nat, ghost full: seq<Octet>, ghost n0: nat) returns (i: nat, ghost n: nat)
      requires Shape() && i0 <= |data| <= |full| && full[|full| - |data|..] == data
      requires |full| - |data| + i0 == BLOCK * n0 && state[..] == Chain(full, n0)
      modifies state
      ensures i <= |data| < i + BLOCK && |full| - |data| + i == BLOCK * n && state[..] == Chain(full, n)
    {
      hide Chain, Compress;
      i, n := i0, n0;
      while i + 127 < |data|
        invariant i <= |data| && |full| - |data| + i == BLOCK * n && state[..] == Chain(full, n)
        decreases |data| - i
      {
        SuffixSlice(full, data, i, BLOCK);
        ChainStep(full, n + 1);
        Transform(data[i..i + BLOCK]);
        i := i + BLOCK;
        n := n + 1;
      }
    }
  }

  lemma IsInitialState(h: seq<Word>)
    requires |h| == 8 && h[0] == InitialWord(0) && h[1] == InitialWord(1) && h[2] == InitialWord(2) && h[3] == InitialWord(3)
    requires h[4] == InitialWord(4) && h[5] == InitialWord(5) && h[6] == InitialWord(6) && h[7] == InitialWord(7)
    ensures h == InitialState()
  {
    hide InitialWord;
  }

  lemma NothingHashed()
    ensures Chain([], 0) == InitialState() && Wrap(0) == 0
  {
  }

  lemma SuffixSlice(full: seq<Octet>, data: seq<Octet>, i: nat, n: nat)
    requires |data| <= |full| && full[|full| - |data|..] == data && i + n <= |data|
    ensures full[|full| - |data| + i..|full| - |data| + i + n] == data[i..i + n]
  {
    var off := |full| - |data|;
    assert full[off..][i..i + n] == full[off + i..off + i + n];
  }

  lemma ChainStep(m: seq<Octet>, n: nat)
    requires 0 < n && BLOCK * n <= |m|
    ensures Chain(m, n) == Compress(Chain(m, n - 1), m[BLOCK * (n - 1)..BLOCK * n])
  {
  }

  lemma CompletedBlock(msg: seq<Octet>, data: seq<Octet>, q: nat, j: nat, waiting: seq<Octet>, block: seq<Octet>)
    requires |msg| == BLOCK * q + j && j < BLOCK && BLOCK - j <= |data|
    requires waiting == msg[BLOCK * q..] && block == waiting + data[..BLOCK - j]
    ensures block == (msg + data)[BLOCK * q..BLOCK * (q + 1)]
  {
  }

  /** The first block that new data completes. */
  lemma ChainGrows(msg: seq<Octet>, full: seq<Octet>, n: nat)
    requires msg <= full && 0 < n && BLOCK * (n - 1) <= |msg| && BLOCK * n <= |full|
    ensures Chain(full, n) == Compress(Chain(msg, n - 1), full[BLOCK * (n - 1)..BLOCK * n])
  {
    hide Chain, Compress;
    ChainStep(full, n);
    ChainOfPrefix(msg, full, n - 1);
  }

  lemma WaitingIs(low: U64, len: nat)
    requires low == Wrap(8 * len)
    ensures BitAnd(Shr(low, 3), 127) == len % BLOCK
  {
    assert Pow2(7) == 128 && Pow2(3) == 8;
    ShiftsArePowers(low, 3);
    AndLowMask(low / 8, 7);
    var q := 8 * len / TWO_64;
    DivShift(8 * len, q * 0x2000_0000_0000_0000, 8, low);
    DivShift(len, q * 0x40_0000_0000_0000, BLOCK, low / 8);
  }

  /** The two steps in which the high word is raised, and both words in plain arithmetic. */
  lemma CountWords(high: U64, low: U64, len: nat)
    ensures var low', lo := Wrap(low + Wrap(8 * len)), Wrap(8 * len);
            && CountHigh(high, low, len) == Wrap((if low' < lo then Wrap(high + 1) else high) + len / 0x2000_0000)
            && low' == (low + 8 * len) % TWO_64 && lo == 8 * len % TWO_64
            && CountHigh(high, low, len) == (high + len / 0x2000_0000 + if low' < lo then 1 else 0) % TWO_64
  {
    var c, n := if Wrap(low + Wrap(8 * len)) < Wrap(8 * len) then 1 else 0, len / 0x2000_0000;
    hide Wrap;
    WrapInner(high + c, n);
    WrapInner(8 * len, low);
  }

  lemma WrapInner(x: nat, y: nat)
    ensures Wrap(Wrap(x) + y) == Wrap(x + y) == (x + y) % TWO_64 && Wrap(x) == x % TWO_64
  {
    DivShift(x + y, x / TWO_64, TWO_64, x % TWO_64 + y);
  }

  lemma LowCount(len: nat, more: nat)
    ensures Wrap(Wrap(8 * len) + Wrap(8 * more)) == Wrap(8 * (len + more))
  {
  }

  /** Exact count words are the length bytes of the standard. */
  lemma ExactPadding(msg: seq<Octet>, high: U64, low: U64)
    requires ExactCount(high, low, |msg|)
    ensures Sha384Of(msg) == HashPadded(PadWith(msg, BigEndian(high, 8) + BigEndian(low, 8)))
  {
    hide HashPadded, PadWith, BigEndian;
    Pow256Of8();
    BigEndianSplit(high, low, 8, 8);
  }

  lemma NothingCounted()
    ensures ExactCount(0, 0, 0)
  {
  }

  /** SHA-384 of a whole message in one call. */
  method Sha384(data: seq<Octet>, digest: array<Octet>)
    requires |data| < 0x8000_0000_0000_0000 && digest.Length == 48
    modifies digest
    ensures |data| < 0x2000_0000 ==> digest[..] == Sha384Of(data)
  {
    hide Sha384Of, Chain, CountHigh, HashPadded, PadWith, BigEndian, ExactCount, Wrap;
    var ctx := new Sha384Ctx();
    ctx.Init();
    NothingCounted();
    ctx.Update(data);
    assert [] + data == data;
    ctx.Final(digest);
  }

  /** The pieces of a message one after the other. */
  ghost function Joined(pieces: seq<seq<Octet>>): seq<Octet> {
    if pieces == [] then [] else Joined(pieces[..|pieces| - 1]) + pieces[|pieces| - 1]
  }

  /** A client of the streaming calls: however a message is cut into pieces below 2^29 bytes,
      the digest is that of the whole message. */
  method HashPieces(pieces: seq<seq<Octet>>, digest: array<Octet>)
    requires digest.Length == 48 && forall i :: 0 <= i < |pieces| ==> |pieces[i]| < 0x2000_0000
    modifies digest
    ensures digest[..] == Sha384Of(Joined(pieces))
  {
    hide Sha384Of, Chain, CountHigh, HashPadded, PadWith, BigEndian, ExactCount, Wrap;
    var ctx := new Sha384Ctx();
    ctx.Init();
    NothingCounted();
    for i := 0 to |pieces|
      invariant ctx.Valid() && fresh(ctx) && fresh(ctx.state) && fresh(ctx.buffer)
      invariant ctx.msg == Joined(pieces[..i]) && ExactCount(ctx.count1, ctx.count0, |ctx.msg|)
    {
      ctx.Update(pieces[i]);
      assert pieces[..i + 1][..i] == pieces[..i];
    }
    assert pieces[..|pieces|] == pieces;
    ctx.Final(digest);
  }
}
