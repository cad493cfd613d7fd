/** The block list of the heap allocators as a sequence of tiles. */
module HeapBlocks {

  /** sizeof(mem_block_t), packed. */
  const HEADER: nat := 25

  /** A stretch of the heap: header address, size including the header, and use. */
  datatype Block = Block(at: nat, size: nat, used: bool) {
    ghost function End(): nat {
      at + size
    }
  }

  // ---------- shape ----------

  /** The blocks cover [lo, hi) one after the other. */
  ghost predicate Tiles(bs: seq<Block>, lo: nat, hi: nat) {
    && |bs| > 0 && bs[0].at == lo && bs[|bs| - 1].End() == hi
    && (forall k :: 0 <= k < |bs| ==> bs[k].size >= HEADER)
    && forall k :: 0 < k < |bs| ==> bs[k].at == bs[k - 1].End()
  }

  ghost predicate NoFreeNeighbours(bs: seq<Block>) {
    forall k :: 0 < k < |bs| ==> bs[k - 1].used || bs[k].used
  }

  ghost predicate Canonical(bs: seq<Block>, lo: nat, hi: nat) {
    Tiles(bs, lo, hi) && NoFreeNeighbours(bs)
  }

  ghost function UsedSet(bs: seq<Block>): set<Block> {
    set b | b in bs && b.used
  }

  ghost function Bytes(bs: seq<Block>, used: bool): nat {
    if bs == [] then 0 else (if bs[0].used == used then bs[0].size else 0) + Bytes(bs[1..], used)
  }

  lemma {:induction false} TilesAreOrdered(bs: seq<Block>, lo: nat, hi: nat, i: nat, j: nat)
    requires Tiles(bs, lo, hi) && i < j < |bs|
    ensures bs[i].End() <= bs[j].at
    decreases j
  {
    if i < j - 1 {
      TilesAreOrdered(bs, lo, hi, i, j - 1);
    }
  }

  lemma TilesWithin(bs: seq<Block>, lo: nat, hi: nat, i: nat)
    requires Tiles(bs, lo, hi) && i < |bs|
    ensures lo <= bs[i].at && bs[i].End() <= hi
  {
    if i > 0 {
      TilesAreOrdered(bs, lo, hi, 0, i);
    }
    if i < |bs| - 1 {
      TilesAreOrdered(bs, lo, hi, i, |bs| - 1);
    }
  }

  lemma SameAddressSameBlock(bs: seq<Block>, lo: nat, hi: nat, i: nat, j: nat)
    requires Tiles(bs, lo, hi) && i < |bs| && j < |bs| && bs[i].at == bs[j].at
    ensures i == j
  {
    if i < j {
      TilesAreOrdered(bs, lo, hi, i, j);
    } else if j < i {
      TilesAreOrdered(bs, lo, hi, j, i);
    }
  }

  lemma TilesTail(bs: seq<Block>, lo: nat, hi: nat)
    requires Canonical(bs, lo, hi) && |bs| > 1
    ensures Canonical(bs[1..], bs[0].End(), hi)
  {
    var t := bs[1..];
    assert forall k :: 0 < k < |t| ==> t[k] == bs[k + 1] && t[k - 1] == bs[k];
  }

  // ---------- the used blocks determine the list ----------

  /** The canonical tiling for a set of used blocks is unique. */
  lemma {:induction false} UniqueTiling(bs: seq<Block>, cs: seq<Block>, lo: nat, hi: nat)
    requires Canonical(bs, lo, hi) && Canonical(cs, lo, hi) && UsedSet(bs) == UsedSet(cs)
    ensures bs == cs
    decreases |bs|
  {
    FirstBlocksAgree(bs, cs, lo, hi);
    if |bs| == 1 {
      assert bs[0].End() == hi;
      if |cs| > 1 {
        TilesWithin(cs, lo, hi, 1);
      }
    } else if |cs| == 1 {
      TilesWithin(bs, lo, hi, 1);
    } else {
      TilesTail(bs, lo, hi);
      TilesTail(cs, lo, hi);
      UsedTail(bs, lo, hi);
      UsedTail(cs, lo, hi);
      UniqueTiling(bs[1..], cs[1..], bs[0].End(), hi);
      assert bs == [bs[0]] + bs[1..] && cs == [cs[0]] + cs[1..];
    }
  }

  lemma UsedTail(bs: seq<Block>, lo: nat, hi: nat)
    requires Tiles(bs, lo, hi)
    ensures UsedSet(bs[1..]) == UsedSet(bs) - {bs[0]}
  {
    assert bs == [bs[0]] + bs[1..];
    if bs[0] in bs[1..] {
      var k :| 0 <= k < |bs[1..]| && bs[1..][k] == bs[0];
      SameAddressSameBlock(bs, lo, hi, 0, k + 1);
    }
  }

  lemma FirstBlocksAgree(bs: seq<Block>, cs: seq<Block>, lo: nat, hi: nat)
    requires Canonical(bs, lo, hi) && Canonical(cs, lo, hi) && UsedSet(bs) == UsedSet(cs)
    ensures bs[0] == cs[0]
  {
    if bs[0].used || cs[0].used {
      UsedFirst(bs, cs, lo, hi);
      UsedFirst(cs, bs, lo, hi);
    } else {
      FreeFirst(bs, cs, lo, hi);
      FreeFirst(cs, bs, lo, hi);
    }
  }

  lemma UsedFirst(bs: seq<Block>, cs: seq<Block>, lo: nat, hi: nat)
    requires Canonical(bs, lo, hi) && Canonical(cs, lo, hi) && UsedSet(bs) == UsedSet(cs)
    ensures bs[0].used ==> cs[0] == bs[0]
  {
    if bs[0].used {
      assert bs[0] in UsedSet(cs);
      var k :| 0 <= k < |cs| && cs[k] == bs[0];
      SameAddressSameBlock(cs, lo, hi, 0, k);
    }
  }

  /** A free first block ends at the first used block, or at the end of the heap. */
  lemma FreeFirst(bs: seq<Block>, cs: seq<Block>, lo: nat, hi: nat)
    requires Canonical(bs, lo, hi) && Canonical(cs, lo, hi) && UsedSet(bs) == UsedSet(cs)
    requires !bs[0].used && !cs[0].used
    ensures cs[0].End() <= bs[0].End()
  {
    if |bs| == 1 {
      TilesWithin(cs, lo, hi, 0);
    } else {
      assert bs[1] in UsedSet(cs);
      var k :| 0 <= k < |cs| && cs[k] == bs[1];
      TilesAreOrdered(cs, lo, hi, 0, k);
    }
  }

  // ---------- allocation ----------

  /** The first free block of at least `total` bytes; |bs| when there is none. */
  function FirstFit(bs: seq<Block>, total: nat): (k: nat)
    ensures k <= |bs|
    ensures k < |bs| ==> !bs[k].used && bs[k].size >= total
    ensures forall j :: 0 <= j < k ==> bs[j].used || bs[j].size < total
  {
    if bs == [] then 0
    else if !bs[0].used && bs[0].size >= total then 0
    else 1 + FirstFit(bs[1..], total)
  }

  /** Block k cut in two after `total` bytes. */
  function SplitAt(bs: seq<Block>, k: nat, total: nat): seq<Block>
    requires k < |bs| && total <= bs[k].size
  {
    bs[..k] + [Block(bs[k].at, total, bs[k].used), Block(bs[k].at + total, bs[k].size - total, false)] + bs[k + 1..]
  }

  function Mark(bs: seq<Block>, k: nat, used: bool): seq<Block>
    requires k < |bs|
  {
    bs[k := bs[k].(used := used)]
  }

  /** Taking block k for `total` bytes; the rest becomes a block if it can hold a header and 8 bytes. */
  function AllocAt(bs: seq<Block>, k: nat, total: nat): seq<Block>
    requires k < |bs| && total <= bs[k].size
  {
    Mark(if bs[k].size >= total + HEADER + 8 then SplitAt(bs, k, total) else bs, k, true)
  }

  /** The size of the block that allocation makes of block k. */
  function TakenSize(bs: seq<Block>, k: nat, total: nat): nat
    requires k < |bs|
  {
    if bs[k].size >= total + HEADER + 8 then total else bs[k].size
  }

  function AllocSpec(bs: seq<Block>, total: nat): seq<Block> {
    var k := FirstFit(bs, total);
    if k < |bs| then AllocAt(bs, k, total) else bs
  }

  lemma SplitIs(bs: seq<Block>, k: nat, total: nat)
    requires k < |bs| && total <= bs[k].size
    ensures var cs := SplitAt(bs, k, total);
            && |cs| == |bs| + 1 && cs[k] == Block(bs[k].at, total, bs[k].used)
            && cs[k + 1] == Block(bs[k].at + total, bs[k].size - total, false)
            && (forall j :: 0 <= j < k ==> cs[j] == bs[j]) && (forall j :: k + 1 < j < |cs| ==> cs[j] == bs[j - 1])
  {
  }

  lemma SplitKeepsTiles(bs: seq<Block>, lo: nat, hi: nat, k: nat, total: nat)
    requires Tiles(bs, lo, hi) && k < |bs| && HEADER <= total && total + HEADER <= bs[k].size
    ensures Tiles(SplitAt(bs, k, total), lo, hi)
  {
    hide SplitAt;
    SplitIs(bs, k, total);
    assert k + 1 < |bs| ==> bs[k + 1].at == bs[k].End();
  }

  /** Taking block k does not cut it inside its own header: either the part taken has room for a
      header, or the block is taken whole. */
  predicate CutIsSafe(bs: seq<Block>, k: nat, total: nat)
    requires k < |bs|
  {
    total >= HEADER || bs[k].size < total + HEADER + 8
  }

  lemma AllocKeepsCanonical(bs: seq<Block>, lo: nat, hi: nat, k: nat, total: nat)
    requires Canonical(bs, lo, hi) && k < |bs| && !bs[k].used && total <= bs[k].size && CutIsSafe(bs, k, total)
    ensures Canonical(AllocAt(bs, k, total), lo, hi)
  {
    hide SplitAt;
    if bs[k].size >= total + HEADER + 8 {
      SplitIs(bs, k, total);
      SplitKeepsTiles(bs, lo, hi, k, total);
    }
  }

  /** The list stays canonical exactly when the cut is safe, whatever the size asked for. */
  lemma AllocStaysCanonicalIff(bs: seq<Block>, lo: nat, hi: nat, k: nat, total: nat)
    requires Canonical(bs, lo, hi) && k < |bs| && !bs[k].used && total <= bs[k].size
    ensures Canonical(AllocAt(bs, k, total), lo, hi) <==> CutIsSafe(bs, k, total)
  {
    hide SplitAt;
    if CutIsSafe(bs, k, total) {
      AllocKeepsCanonical(bs, lo, hi, k, total);
    } else {
      SplitIs(bs, k, total);
      assert AllocAt(bs, k, total)[k].size == total;
    }
  }

  /** A remainder of less than 33 bytes is never split off; a larger one always is, as a free block. */
  lemma AllocIs(bs: seq<Block>, k: nat, total: nat)
    requires k < |bs| && !bs[k].used && total <= bs[k].size
    ensures AllocAt(bs, k, total)
            == if bs[k].size - total < 33 then bs[k := Block(bs[k].at, bs[k].size, true)]
               else bs[..k] + [Block(bs[k].at, total, true), Block(bs[k].at + total, bs[k].size - total, false)] + bs[k + 1..]
  {
    SplitIs(bs, k, total);
  }

  /** Allocation adds one used block, of between `total` and `total` + 32 bytes. */
  lemma AllocAddsOneBlock(bs: seq<Block>, lo: nat, hi: nat, k: nat, total: nat)
    requires Canonical(bs, lo, hi) && k < |bs| && !bs[k].used && total <= bs[k].size && CutIsSafe(bs, k, total)
    ensures var cs := AllocAt(bs, k, total);
            && k < |cs| && cs[k].at == bs[k].at && cs[k].used && total <= cs[k].size <= total + 32
            && cs[k].size == (if bs[k].size - total < 33 then bs[k].size else total) == TakenSize(bs, k, total)
            && cs[k] !in UsedSet(bs) && UsedSet(cs) == UsedSet(bs) + {cs[k]}
  {
    hide SplitAt;
    var cs := AllocAt(bs, k, total);
    if bs[k].size >= total + HEADER + 8 {
      SplitIs(bs, k, total);
    }
    forall j | 0 <= j < |bs| && bs[j] == cs[k]
      ensures false
    {
      SameAddressSameBlock(bs, lo, hi, j, k);
    }
    if bs[k].size >= total + HEADER + 8 {
      forall b | b in bs && b.used
        ensures b in cs
      {
        var j :| 0 <= j < |bs| && bs[j] == b;
        assert b == if j < k then cs[j] else cs[j + 1];
      }
    } else {
      forall b | b in bs && b.used
        ensures b in cs
      {
        var j :| 0 <= j < |bs| && bs[j] == b;
        assert b == cs[j];
      }
    }
  }

  // ---------- freeing ----------

  /** Block k takes over the block after it. */
  function MergeNext(bs: seq<Block>, k: nat): seq<Block>
    requires k + 1 < |bs|
  {
    bs[..k] + [Block(bs[k].at, bs[k].size + bs[k + 1].size, bs[k].used)] + bs[k + 2..]
  }

  /** Free block k takes over the block after it if that is free too. */
  function Coalesce(bs: seq<Block>, k: nat): seq<Block> {
    if k + 1 < |bs| && !bs[k].used && !bs[k + 1].used then MergeNext(bs, k) else bs
  }

  /** Freeing block k: mark it, merge with the next block if free, then with the previous one if free. */
  function FreeAt(bs: seq<Block>, k: nat): seq<Block>
    requires k < |bs|
  {
    var merged := Coalesce(Mark(bs, k, false), k);
    if k > 0 then Coalesce(merged, k - 1) else merged
  }

  lemma MergeIs(bs: seq<Block>, k: nat)
    requires k + 1 < |bs|
    ensures var cs := MergeNext(bs, k);
            && |cs| == |bs| - 1 && cs[k] == Block(bs[k].at, bs[k].size + bs[k + 1].size, bs[k].used)
            && (forall j :: 0 <= j < k ==> cs[j] == bs[j]) && (forall j :: k < j < |cs| ==> cs[j] == bs[j + 1])
  {
  }

  lemma MergeKeepsTiles(bs: seq<Block>, lo: nat, hi: nat, k: nat)
    requires Tiles(bs, lo, hi) && k + 1 < |bs|
    ensures Tiles(MergeNext(bs, k), lo, hi)
  {
    hide MergeNext;
    MergeIs(bs, k);
    assert bs[k + 1].at == bs[k].End();
    assert k + 2 < |bs| ==> bs[k + 2].at == bs[k + 1].End();
  }

  /** Merging settles the neighbours after k and leaves those up to k as they are. */
  lemma CoalesceSettles(bs: seq<Block>, lo: nat, hi: nat, k: nat)
    requires Tiles(bs, lo, hi) && k < |bs|
    requires forall j :: k + 1 < j < |bs| ==> bs[j - 1].used || bs[j].used
    ensures Tiles(Coalesce(bs, k), lo, hi) && UsedSet(Coalesce(bs, k)) == UsedSet(bs)
    ensures k < |Coalesce(bs, k)| <= |bs| && forall j :: 0 <= j <= k ==> Coalesce(bs, k)[j].used == bs[j].used
    ensures forall j :: k < j < |Coalesce(bs, k)| ==> Coalesce(bs, k)[j - 1].used || Coalesce(bs, k)[j].used
  {
    hide MergeNext, UsedSet;
    if k + 1 < |bs| && !bs[k].used && !bs[k + 1].used {
      MergeIs(bs, k);
      MergeKeepsTiles(bs, lo, hi, k);
      MergeKeepsUsed(bs, k);
    }
  }

  lemma MergeKeepsUsed(bs: seq<Block>, k: nat)
    requires k + 1 < |bs| && !bs[k].used && !bs[k + 1].used
    ensures UsedSet(MergeNext(bs, k)) == UsedSet(bs)
  {
    var cs := MergeNext(bs, k);
    forall b | b in bs && b.used
      ensures b in cs
    {
      var j :| 0 <= j < |bs| && bs[j] == b;
      assert b == if j < k then cs[j] else cs[j - 1];
    }
    forall b | b in cs && b.used
      ensures b in bs
    {
      var j :| 0 <= j < |cs| && cs[j] == b;
      assert b == if j < k then bs[j] else bs[j + 1];
    }
  }

  lemma MarkFree(bs: seq<Block>, lo: nat, hi: nat, k: nat)
    requires Tiles(bs, lo, hi) && k < |bs| && bs[k].used
    ensures var marked := Mark(bs, k, false);
            Tiles(marked, lo, hi) && UsedSet(marked) == UsedSet(bs) - {bs[k]}
  {
    var marked := Mark(bs, k, false);
    forall b | b in bs && b.used && b != bs[k]
      ensures b in marked
    {
      var j :| 0 <= j < |bs| && bs[j] == b;
      assert marked[j] == b;
    }
    forall b | b in marked && b.used
      ensures b in bs && b != bs[k]
    {
      var j :| 0 <= j < |marked| && marked[j] == b;
      if bs[j] == bs[k] {
        SameAddressSameBlock(bs, lo, hi, j, k);
      }
    }
  }

  /** Freeing removes exactly its block from the used ones and keeps the list canonical. */
  lemma FreeRemovesOneBlock(bs: seq<Block>, lo: nat, hi: nat, k: nat)
    requires Canonical(bs, lo, hi) && k < |bs| && bs[k].used
    ensures Canonical(FreeAt(bs, k), lo, hi) && UsedSet(FreeAt(bs, k)) == UsedSet(bs) - {bs[k]}
  {
    hide MergeNext, UsedSet, Coalesce;
    var marked := Mark(bs, k, false);
    MarkFree(bs, lo, hi, k);
    CoalesceSettles(marked, lo, hi, k);
    var merged := Coalesce(marked, k);
    if k > 0 {
      CoalesceSettles(merged, lo, hi, k - 1);
    }
  }

  // ---------- consequences for whole runs ----------

  /** Freeing what was just allocated restores the list, whether or not the block was split. */
  lemma FreeUndoesAlloc(bs: seq<Block>, lo: nat, hi: nat, k: nat, total: nat)
    requires Canonical(bs, lo, hi) && k < |bs| && !bs[k].used && total <= bs[k].size && CutIsSafe(bs, k, total)
    ensures k < |AllocAt(bs, k, total)| && FreeAt(AllocAt(bs, k, total), k) == bs
  {
    var cs := AllocAt(bs, k, total);
    AllocKeepsCanonical(bs, lo, hi, k, total);
    AllocAddsOneBlock(bs, lo, hi, k, total);
    FreeRemovesOneBlock(cs, lo, hi, k);
    UniqueTiling(FreeAt(cs, k), bs, lo, hi);
  }

  ghost predicate Live(bs: seq<Block>, at: nat) {
    exists k :: 0 <= k < |bs| && bs[k].at == at && bs[k].used
  }

  /** The index of a live block; the argument of `free` in terms of the list. */
  ghost function IndexOf(bs: seq<Block>, at: nat): (k: nat)
    requires Live(bs, at)
    ensures k < |bs| && bs[k].at == at && bs[k].used
  {
    var k :| 0 <= k < |bs| && bs[k].at == at && bs[k].used;
    k
  }

  ghost function FreeSpec(bs: seq<Block>, at: nat): seq<Block>
    requires Live(bs, at)
  {
    FreeAt(bs, IndexOf(bs, at))
  }

  /** A client step: an allocation of `total` bytes with header, or a free of a block address. */
  datatype Op = Alloc(total: nat) | Free(at: nat)

  ghost predicate Legal(bs: seq<Block>, op: Op) {
    match op
    case Alloc(total) => FirstFit(bs, total) == |bs| || CutIsSafe(bs, FirstFit(bs, total), total)
    case Free(at) => Live(bs, at)
  }

  ghost function Step(bs: seq<Block>, op: Op): seq<Block>
    requires Legal(bs, op)
  {
    match op
    case Alloc(total) => AllocSpec(bs, total)
    case Free(at) => FreeSpec(bs, at)
  }

  ghost predicate LegalRun(bs: seq<Block>, ops: seq<Op>)
    decreases |ops|
  {
    ops == [] || (Legal(bs, ops[0]) && LegalRun(Step(bs, ops[0]), ops[1..]))
  }

  ghost function Run(bs: seq<Block>, ops: seq<Op>): seq<Block>
    requires LegalRun(bs, ops)
    decreases |ops|
  {
    if ops == [] then bs else Run(Step(bs, ops[0]), ops[1..])
  }

  lemma StepKeepsCanonical(bs: seq<Block>, lo: nat, hi: nat, op: Op)
    requires Canonical(bs, lo, hi) && Legal(bs, op)
    ensures Canonical(Step(bs, op), lo, hi)
  {
    match op
    case Alloc(total) =>
      var k := FirstFit(bs, total);
      if k < |bs| {
        AllocKeepsCanonical(bs, lo, hi, k, total);
      }
    case Free(at) =>
      FreeRemovesOneBlock(bs, lo, hi, IndexOf(bs, at));
  }

  lemma {:induction false} RunKeepsCanonical(bs: seq<Block>, lo: nat, hi: nat, ops: seq<Op>)
    requires Canonical(bs, lo, hi) && LegalRun(bs, ops)
    ensures Canonical(Run(bs, ops), lo, hi)
    decreases |ops|
  {
    if ops != [] {
      StepKeepsCanonical(bs, lo, hi, ops[0]);
      RunKeepsCanonical(Step(bs, ops[0]), lo, hi, ops[1..]);
    }
  }

  /** The list depends only on which blocks are used, not on how they came to be so. */
  lemma HistoryDoesNotMatter(bs: seq<Block>, lo: nat, hi: nat, ops: seq<Op>, ops': seq<Op>)
    requires Canonical(bs, lo, hi) && LegalRun(bs, ops) && LegalRun(bs, ops')
    requires UsedSet(Run(bs, ops)) == UsedSet(Run(bs, ops'))
    ensures Run(bs, ops) == Run(bs, ops')
  {
    RunKeepsCanonical(bs, lo, hi, ops);
    RunKeepsCanonical(bs, lo, hi, ops');
    UniqueTiling(Run(bs, ops), Run(bs, ops'), lo, hi);
  }

  function Frees(addrs: seq<nat>): seq<Op> {
    seq(|addrs|, i requires 0 <= i < |addrs| => Free(addrs[i]))
  }

  lemma {:induction false} FreesRemove(bs: seq<Block>, lo: nat, hi: nat, addrs: seq<nat>)
    requires Canonical(bs, lo, hi) && LegalRun(bs, Frees(addrs))
    ensures UsedSet(Run(bs, Frees(addrs))) == set b | b in UsedSet(bs) && b.at !in addrs
    decreases |addrs|
  {
    hide FreeAt, Canonical;
    if addrs != [] {
      var k := IndexOf(bs, addrs[0]);
      FreeRemovesOneBlock(bs, lo, hi, k);
      assert Frees(addrs)[1..] == Frees(addrs[1..]);
      FreesRemove(FreeAt(bs, k), lo, hi, addrs[1..]);
      AtDeterminesUsed(bs, lo, hi, k);
      assert addrs == [addrs[0]] + addrs[1..];
    }
  }

  lemma AtDeterminesUsed(bs: seq<Block>, lo: nat, hi: nat, k: nat)
    requires Canonical(bs, lo, hi) && k < |bs|
    ensures forall b :: b in UsedSet(bs) && b.at == bs[k].at ==> b == bs[k]
  {
    forall b | b in UsedSet(bs) && b.at == bs[k].at
      ensures b == bs[k]
    {
      var j :| 0 <= j < |bs| && bs[j] == b;
      SameAddressSameBlock(bs, lo, hi, j, k);
    }
  }

  ghost predicate Distinct(addrs: seq<nat>) {
    forall i, j :: 0 <= i < j < |addrs| ==> addrs[i] != addrs[j]
  }

  /** Freeing takes one address off the live ones and leaves every other. */
  lemma LiveAfterFree(bs: seq<Block>, lo: nat, hi: nat, at: nat, a: nat)
    requires Canonical(bs, lo, hi) && Live(bs, at)
    ensures Live(FreeSpec(bs, at), a) <==> Live(bs, a) && a != at
  {
    hide FreeAt, Canonical;
    var k := IndexOf(bs, at);
    FreeRemovesOneBlock(bs, lo, hi, k);
    AtDeterminesUsed(bs, lo, hi, k);
    LiveIsUsed(bs, a);
    LiveIsUsed(FreeSpec(bs, at), a);
  }

  lemma LiveIsUsed(bs: seq<Block>, a: nat)
    ensures Live(bs, a) <==> exists b :: b in UsedSet(bs) && b.at == a
  {
    if Live(bs, a) {
      assert bs[IndexOf(bs, a)] in UsedSet(bs);
    }
  }

  /** A list of frees is legal, step by step, exactly when its addresses are live at the start
      and no address is named twice. */
  lemma {:induction false} FreesAreLegalIff(bs: seq<Block>, lo: nat, hi: nat, addrs: seq<nat>)
    requires Canonical(bs, lo, hi)
    ensures LegalRun(bs, Frees(addrs)) <==> Distinct(addrs) && forall a :: a in addrs ==> Live(bs, a)
    decreases |addrs|
  {
    hide FreeAt, Canonical, FreeSpec;
    if addrs != [] {
      var x, rest := addrs[0], addrs[1..];
      assert Frees(addrs)[0] == Free(x) && Frees(addrs)[1..] == Frees(rest);
      assert addrs == [x] + rest;
      if Live(bs, x) {
        StepKeepsCanonical(bs, lo, hi, Free(x));
        FreesAreLegalIff(FreeSpec(bs, x), lo, hi, rest);
        forall a
          ensures Live(FreeSpec(bs, x), a) <==> Live(bs, a) && a != x
        {
          LiveAfterFree(bs, lo, hi, x, a);
        }
      }
    }
  }

  /** A set of live blocks may be freed in any order: every order is legal, and all end in the
      same list. */
  lemma FreeOrderDoesNotMatter(bs: seq<Block>, lo: nat, hi: nat, xs: seq<nat>, ys: seq<nat>)
    requires Canonical(bs, lo, hi) && Distinct(xs) && Distinct(ys)
    requires (forall a :: a in xs ==> Live(bs, a)) && forall a :: a in xs <==> a in ys
    ensures LegalRun(bs, Frees(xs)) && LegalRun(bs, Frees(ys))
    ensures Run(bs, Frees(xs)) == Run(bs, Frees(ys))
  {
    hide Run, LegalRun, Canonical, Live, UsedSet;
    FreesAreLegalIff(bs, lo, hi, xs);
    FreesAreLegalIff(bs, lo, hi, ys);
    FreesRemove(bs, lo, hi, xs);
    FreesRemove(bs, lo, hi, ys);
    HistoryDoesNotMatter(bs, lo, hi, Frees(xs), Frees(ys));
  }

  /** Freeing everything that is live, in any order, leaves the single initial block. */
  lemma FreeingAllRestoresHeap(bs: seq<Block>, lo: nat, hi: nat, xs: seq<nat>)
    requires Canonical(bs, lo, hi) && lo <= hi
    requires Distinct(xs) && forall a :: a in xs <==> Live(bs, a)
    ensures LegalRun(bs, Frees(xs)) && Run(bs, Frees(xs)) == [Block(lo, hi - lo, false)]
  {
    hide Run, LegalRun, Canonical;
    FreesAreLegalIff(bs, lo, hi, xs);
    RunKeepsCanonical(bs, lo, hi, Frees(xs));
    FreesRemove(bs, lo, hi, xs);
    forall b | b in UsedSet(bs)
      ensures b.at in xs
    {
      LiveIsUsed(bs, b.at);
    }
    NothingUsed(Run(bs, Frees(xs)), lo, hi);
  }

  lemma NothingUsed(bs: seq<Block>, lo: nat, hi: nat)
    requires Canonical(bs, lo, hi) && UsedSet(bs) == {} && lo <= hi
    ensures bs == [Block(lo, hi - lo, false)]
  {
    UsedIsInSet(bs, 0);
    if |bs| > 1 {
      UsedIsInSet(bs, 1);
    }
  }

  lemma UsedIsInSet(bs: seq<Block>, k: nat)
    requires k < |bs|
    ensures bs[k].used ==> bs[k] in UsedSet(bs)
  {
  }

  // ---------- bytes ----------

  ghost predicate UsedByte(bs: seq<Block>, x: nat) {
    exists k :: 0 <= k < |bs| && bs[k].used && bs[k].at <= x < bs[k].End()
  }

  /** `total` consecutive bytes of the heap that no used block occupies. */
  ghost predicate FreeStretch(bs: seq<Block>, lo: nat, hi: nat, x: nat, total: nat) {
    lo <= x && x + total <= hi && forall y :: x <= y < x + total ==> !UsedByte(bs, y)
  }

  ghost predicate NoStretch(bs: seq<Block>, lo: nat, hi: nat, total: nat) {
    forall x :: !FreeStretch(bs, lo, hi, x, total)
  }

  lemma {:induction false} CoveringBlock(bs: seq<Block>, lo: nat, hi: nat, x: nat, n: nat) returns (k: nat)
    requires Tiles(bs, lo, hi) && n < |bs| && lo <= x < bs[n].End()
    ensures k <= n && bs[k].at <= x < bs[k].End()
  {
    if bs[n].at <= x {
      k := n;
    } else {
      k := CoveringBlock(bs, lo, hi, x, n - 1);
    }
  }

  /** A free stretch lies within one free block, because free blocks are never neighbours. */
  lemma StretchWithinBlock(bs: seq<Block>, lo: nat, hi: nat, x: nat, total: nat) returns (k: nat)
    requires Canonical(bs, lo, hi) && total > 0 && FreeStretch(bs, lo, hi, x, total)
    ensures k < |bs| && !bs[k].used && bs[k].at <= x && x + total <= bs[k].End()
  {
    k := CoveringBlock(bs, lo, hi, x, |bs| - 1);
    assert !UsedByte(bs, x);
    if k < |bs| - 1 && bs[k].End() < x + total {
      assert bs[k + 1].used;
      assert UsedByte(bs, bs[k + 1].at);
    }
  }

  lemma BlockIsStretch(bs: seq<Block>, lo: nat, hi: nat, k: nat, total: nat)
    requires Tiles(bs, lo, hi) && k < |bs| && !bs[k].used && total <= bs[k].size
    ensures FreeStretch(bs, lo, hi, bs[k].at, total)
  {
    TilesWithin(bs, lo, hi, k);
    forall y | bs[k].at <= y < bs[k].at + total
      ensures !UsedByte(bs, y)
    {
      if UsedByte(bs, y) {
        var j :| 0 <= j < |bs| && bs[j].used && bs[j].at <= y < bs[j].End();
        if j < k {
          TilesAreOrdered(bs, lo, hi, j, k);
        } else if k < j {
          TilesAreOrdered(bs, lo, hi, k, j);
        }
      }
    }
  }

  /** Allocation fails exactly when no `total` consecutive free bytes exist anywhere, and
      otherwise takes the lowest place where they do. */
  lemma FirstFitIsLowestStretch(bs: seq<Block>, lo: nat, hi: nat, total: nat)
    requires Canonical(bs, lo, hi) && total > 0
    ensures FirstFit(bs, total) == |bs| <==> NoStretch(bs, lo, hi, total)
    ensures FirstFit(bs, total) < |bs| ==>
              FreeStretch(bs, lo, hi, bs[FirstFit(bs, total)].at, total)
              && forall x :: FreeStretch(bs, lo, hi, x, total) ==> bs[FirstFit(bs, total)].at <= x
  {
    var f := FirstFit(bs, total);
    if f < |bs| {
      BlockIsStretch(bs, lo, hi, f, total);
    }
    forall x | FreeStretch(bs, lo, hi, x, total)
      ensures f < |bs| && bs[f].at <= x
    {
      var k := StretchWithinBlock(bs, lo, hi, x, total);
      if f < k {
        TilesAreOrdered(bs, lo, hi, f, k);
      }
    }
  }

  /** The payload of a block. */
  ghost predicate InPayload(b: Block, x: nat) {
    b.at + HEADER <= x < b.End()
  }

  ghost predicate InHeader(b: Block, x: nat) {
    b.at <= x < b.at + HEADER
  }

  /** No byte belongs to two blocks: payloads are disjoint from each other and from all headers. */
  lemma PayloadsAreDisjoint(bs: seq<Block>, lo: nat, hi: nat, i: nat, j: nat, x: nat)
    requires Tiles(bs, lo, hi) && i < |bs| && j < |bs| && InPayload(bs[i], x)
    ensures !InHeader(bs[j], x) && (InPayload(bs[j], x) ==> i == j)
  {
    if i < j {
      TilesAreOrdered(bs, lo, hi, i, j);
    } else if j < i {
      TilesAreOrdered(bs, lo, hi, j, i);
    }
  }

  /** Used and free bytes add up to the heap. */
  lemma {:induction false} BytesAddUp(bs: seq<Block>, lo: nat, hi: nat)
    requires Canonical(bs, lo, hi)
    ensures Bytes(bs, true) + Bytes(bs, false) == hi - lo
    decreases |bs|
  {
    if |bs| > 1 {
      TilesTail(bs, lo, hi);
      BytesAddUp(bs[1..], bs[0].End(), hi);
      TilesWithin(bs, lo, hi, 1);
    }
  }

  lemma {:induction false} BytesConcat(bs: seq<Block>, cs: seq<Block>, used: bool)
    ensures Bytes(bs + cs, used) == Bytes(bs, used) + Bytes(cs, used)
  {
    if bs == [] {
      assert bs + cs == cs;
    } else {
      BytesConcat(bs[1..], cs, used);
      assert (bs + cs)[1..] == bs[1..] + cs;
    }
  }

  lemma BytesAround(bs: seq<Block>, k: nat, used: bool)
    requires k < |bs|
    ensures Bytes(bs, used) == Bytes(bs[..k], used) + (if bs[k].used == used then bs[k].size else 0) + Bytes(bs[k + 1..], used)
  {
    assert bs == bs[..k] + bs[k..];
    BytesConcat(bs[..k], bs[k..], used);
    assert bs[k..][1..] == bs[k + 1..];
  }

  lemma MarkMovesBytes(bs: seq<Block>, k: nat)
    requires k < |bs| && !bs[k].used
    ensures Bytes(Mark(bs, k, true), true) == Bytes(bs, true) + bs[k].size
  {
    var cs := Mark(bs, k, true);
    BytesAround(bs, k, true);
    BytesAround(cs, k, true);
    assert cs[..k] == bs[..k] && cs[k + 1..] == bs[k + 1..];
  }

  lemma SplitKeepsBytes(bs: seq<Block>, k: nat, total: nat)
    requires k < |bs| && !bs[k].used && total <= bs[k].size
    ensures Bytes(SplitAt(bs, k, total), true) == Bytes(bs, true)
  {
    hide SplitAt;
    var cs := SplitAt(bs, k, total);
    SplitIs(bs, k, total);
    BytesAround(bs, k, true);
    BytesAround(cs, k, true);
    assert cs[k + 1..][1..] == bs[k + 1..] && cs[..k] == bs[..k];
  }

  lemma MergeKeepsBytes(bs: seq<Block>, k: nat)
    requires k + 1 < |bs| && !bs[k].used && !bs[k + 1].used
    ensures Bytes(MergeNext(bs, k), true) == Bytes(bs, true)
  {
    hide MergeNext;
    var cs := MergeNext(bs, k);
    MergeIs(bs, k);
    BytesAround(bs, k, true);
    BytesAround(cs, k, true);
    assert bs[k + 1..][1..] == cs[k + 1..] && cs[..k] == bs[..k];
  }
}
