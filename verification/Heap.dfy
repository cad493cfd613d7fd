/** The split-and-coalesce allocator of Core-1 and Core-3, over the bytes of its own heap. */
module Heap {
  import opened MachineInts
  import opened HeapBlocks
  import opened HeapHeaders
  import opened HeapCheck

  /** Sizes up to here survive rounding and the header without wrapping. */
  const MAX_REQUEST: U64 := TWO_64 - 32

  /** `(size + 7) & ~7` and the header, with 64-bit wrap-around. */
  function TotalSize(request: U64): U64 {
    Wrap(BitAnd(Wrap(request + 7), TWO_64 - 8) + HEADER)
  }

  lemma MaskRoundsDown(x: U64)
    ensures BitAnd(x, TWO_64 - 8) == x / 8 * 8
  {
    hide BitAnd, Pow2, Shl, Shr;
    var m := 0x1FFF_FFFF_FFFF_FFFF;
    Pow2SmallValues();
    AndHighMask(x, m, 3);
    ShiftsArePowers(m, 3);
    ShiftsArePowers(x, 3);
    AndLowMask(x / 8, 61);
    ModIs(x / 8, m + 1, 0, x / 8);
    ShiftsArePowers(x / 8, 3);
  }

  lemma Pow2SmallValues()
    ensures Pow2(3) == 8 && Pow2(61) == 0x2000_0000_0000_0000
  {
    Pow2Values();
    assert Pow2(64) == 8 * Pow2(61);
  }

  lemma WrapIs(x: nat)
    requires x < 2 * TWO_64
    ensures Wrap(x) == if x < TWO_64 then x else x - TWO_64
  {
  }

  /** The block is big enough for the request exactly when the request is at most MAX_REQUEST. */
  lemma TotalSizeFitsIff(request: U64)
    ensures TotalSize(request) >= request + HEADER <==> request <= MAX_REQUEST
    ensures request <= MAX_REQUEST ==> TotalSize(request) <= request + HEADER + 7
  {
    hide BitAnd, Wrap;
    MaskRoundsDown(Wrap(request + 7));
    WrapIs(request + 7);
    WrapIs(BitAnd(Wrap(request + 7), TWO_64 - 8) + HEADER);
  }

  /** The rounded size in all three ranges of requests: the sum with the header wraps just below
      2^64, and the rounding itself wraps at the very top. */
  lemma TotalSizeIs(request: U64)
    ensures TotalSize(request) ==
              if request <= MAX_REQUEST then (request + 7) / 8 * 8 + HEADER
              else if request <= TWO_64 - 8 then (request + 7) / 8 * 8 + HEADER - TWO_64
              else HEADER
  {
    hide BitAnd, Wrap;
    MaskRoundsDown(Wrap(request + 7));
    WrapIs(request + 7);
    WrapIs(BitAnd(Wrap(request + 7), TWO_64 - 8) + HEADER);
  }

  /** For all requests that find a block: the list stays whole exactly when the request is below
      the range whose sum wraps, or above it, or the block found is too small to be cut. */
  lemma AllocKeepsHeapIff(bs: seq<Block>, lo: nat, hi: nat, request: U64)
    requires Canonical(bs, lo, hi) && FirstFit(bs, TotalSize(request)) < |bs|
    ensures var total, k := TotalSize(request), FirstFit(bs, TotalSize(request));
            Canonical(AllocAt(bs, k, total), lo, hi) <==>
              request <= MAX_REQUEST || request > TWO_64 - 8 || bs[k].size < (request + 7) / 8 * 8 - TWO_64 + 2 * HEADER + 8
  {
    hide TotalSize, Canonical;
    TotalSizeIs(request);
    AllocStaysCanonicalIff(bs, lo, hi, FirstFit(bs, TotalSize(request)), TotalSize(request));
  }

  /** One request of 2^64 - 31 bytes on a fresh heap of 100 bytes: it is granted out of a block of
      1 byte, and what is left is no tiling. */
  lemma HugeRequestBreaksHeap()
    ensures TotalSize(TWO_64 - 31) == 1
    ensures Canonical([Block(100, 100, false)], 100, 200) && FirstFit([Block(100, 100, false)], 1) == 0
    ensures AllocAt([Block(100, 100, false)], 0, 1) == [Block(100, 1, true), Block(101, 99, false)]
    ensures forall lo, hi :: !Tiles(AllocAt([Block(100, 100, false)], 0, 1), lo, hi)
  {
    hide TotalSize;
    TotalSizeIs(TWO_64 - 31);
    var cs := AllocAt([Block(100, 100, false)], 0, 1);
    assert cs == [Block(100, 1, true), Block(101, 99, false)];
    assert cs[0].size < HEADER;
  }

  /** The requests on which allocation keeps the list: nothing fits, or the cut is safe. */
  ghost predicate AllocSafe(bs: seq<Block>, request: U64) {
    var k := FirstFit(bs, TotalSize(request));
    k == |bs| || CutIsSafe(bs, k, TotalSize(request))
  }

  /** The requests on which moving block b keeps the list, and the copy stays in the new block. */
  ghost predicate MoveSafe(bs: seq<Block>, b: Block, request: U64) {
    var k := FirstFit(bs, TotalSize(request));
    k == |bs| || (CutIsSafe(bs, k, TotalSize(request)) && b.size <= TakenSize(bs, k, TotalSize(request)))
  }

  /** For a request that block b cannot hold and that finds block k, moving is safe exactly when
      the request does not wrap, or block k is taken whole and is as large as b, or the request
      wraps at the very top and b holds nothing. */
  lemma MoveSafeIff(bs: seq<Block>, b: Block, request: U64)
    requires FirstFit(bs, TotalSize(request)) < |bs| && request + HEADER > b.size
    ensures var k := FirstFit(bs, TotalSize(request));
            MoveSafe(bs, b, request) <==>
              || request <= MAX_REQUEST
              || b.size <= bs[k].size < TotalSize(request) + HEADER + 8
              || (request > TWO_64 - 8 && b.size <= HEADER)
  {
    hide TotalSize, FirstFit;
    TotalSizeIs(request);
    TotalSizeFitsIff(request);
  }

  /** All requests up to MAX_REQUEST are safe, whatever the heap. */
  lemma SmallRequestsAreSafe(bs: seq<Block>, b: Block, request: U64)
    requires request <= MAX_REQUEST
    ensures AllocSafe(bs, request) && (request + HEADER > b.size ==> MoveSafe(bs, b, request))
  {
    hide TotalSize, FirstFit, MoveSafe;
    TotalSizeFitsIff(request);
    if FirstFit(bs, TotalSize(request)) == |bs| {
      NothingFound(bs, b, request);
    } else if request + HEADER > b.size {
      MoveSafeIff(bs, b, request);
    }
  }

  lemma NothingFound(bs: seq<Block>, b: Block, request: U64)
    requires FirstFit(bs, TotalSize(request)) == |bs|
    ensures MoveSafe(bs, b, request)
  {
  }

  /** Where moving is not safe though allocating is, the copy of the old payload goes past the
      end of the new block. */
  lemma UnsafeMoveOverruns(bs: seq<Block>, lo: nat, hi: nat, b: Block, request: U64)
    requires Canonical(bs, lo, hi) && AllocSafe(bs, request) && !MoveSafe(bs, b, request)
    ensures var k, total := FirstFit(bs, TotalSize(request)), TotalSize(request);
            && k < |bs| && k < |AllocAt(bs, k, total)|
            && var nb := AllocAt(bs, k, total)[k];
               nb.used && nb.at == bs[k].at && nb.at + HEADER + (b.size - HEADER) > nb.End()
  {
    hide TotalSize, AllocAt, FirstFit;
    AllocAddsOneBlock(bs, lo, hi, FirstFit(bs, TotalSize(request)), TotalSize(request));
  }

  /** After an allocation of 50 bytes in a fresh heap of 200, `realloc` to 2^64 - 1 bytes gets a block
      without payload and copies 56 bytes into it, over the header that follows. */
  lemma HugeReallocOverruns()
    ensures AllocSpec([Block(100, 200, false)], TotalSize(50)) == [Block(100, 81, true), Block(181, 119, false)]
    ensures var bs, b := [Block(100, 81, true), Block(181, 119, false)], Block(100, 81, true);
            && AllocSafe(bs, TWO_64 - 1) && !MoveSafe(bs, b, TWO_64 - 1)
            && AllocSpec(bs, TotalSize(TWO_64 - 1)) == [b, Block(181, 25, true), Block(206, 94, false)]
            && 181 + HEADER + (b.size - HEADER) > 206 + HEADER
  {
    hide TotalSize;
    TotalSizeIs(50);
    TotalSizeIs(TWO_64 - 1);
    var bs := [Block(100, 81, true), Block(181, 119, false)];
    assert AllocSpec([Block(100, 200, false)], 81) == bs;
    assert FirstFit(bs, 25) == 1 by { FirstFitIs(bs, 25, 1); }
    assert AllocSpec(bs, 25) == [Block(100, 81, true), Block(181, 25, true), Block(206, 94, false)];
  }

  /** What a client gets for its request: one block more in use, the lowest stretch that was long
      enough, with a payload of at least the request and at most 39 bytes more. The free block that
      stood there was cut unless less than 33 bytes would have been left. */
  ghost predicate Obtained(bs: seq<Block>, cs: seq<Block>, lo: nat, hi: nat, request: U64, ptr: nat) {
    && ptr >= HEADER && Live(cs, ptr - HEADER)
    && var nb := cs[IndexOf(cs, ptr - HEADER)];
       && nb !in UsedSet(bs) && UsedSet(cs) == UsedSet(bs) + {nb}
       && (request <= MAX_REQUEST ==> request <= nb.size - HEADER <= request + 39)
       && (exists b :: b in bs && CutFrom(b, nb, TotalSize(request)))
       && FreeStretch(bs, lo, hi, nb.at, TotalSize(request))
       && forall x :: FreeStretch(bs, lo, hi, x, TotalSize(request)) ==> nb.at <= x
  }

  ghost predicate CutFrom(b: Block, nb: Block, total: nat) {
    !b.used && b.at == nb.at && nb.size == if b.size - total < 33 then b.size else total
  }

  lemma FitIsStretch(bs: seq<Block>, lo: nat, hi: nat, request: U64)
    requires Canonical(bs, lo, hi)
    ensures FirstFit(bs, TotalSize(request)) == |bs| <==> NoStretch(bs, lo, hi, TotalSize(request))
  {
    hide TotalSize, FirstFit, FreeStretch;
    TotalSizeIs(request);
    FirstFitIsLowestStretch(bs, lo, hi, TotalSize(request));
  }

  lemma AllocObtains(bs: seq<Block>, lo: nat, hi: nat, request: U64)
    requires Canonical(bs, lo, hi) && AllocSafe(bs, request) && FirstFit(bs, TotalSize(request)) < |bs|
    ensures var k, total := FirstFit(bs, TotalSize(request)), TotalSize(request);
            Obtained(bs, AllocAt(bs, k, total), lo, hi, request, bs[k].at + HEADER)
  {
    hide TotalSize, FirstFit, FreeStretch, AllocAt, UsedSet;
    var k, total := FirstFit(bs, TotalSize(request)), TotalSize(request);
    TotalSizeIs(request);
    FirstFitIsLowestStretch(bs, lo, hi, total);
    AllocKeepsCanonical(bs, lo, hi, k, total);
    AllocAddsOneBlock(bs, lo, hi, k, total);
    var cs := AllocAt(bs, k, total);
    assert CutFrom(bs[k], cs[k], total);
    assert Live(cs, bs[k].at);
    SameAddressSameBlock(cs, lo, hi, k, IndexOf(cs, bs[k].at));
  }

  lemma KeepsItself(bytes: seq<Byte>, base: nat, U: set<Block>)
    ensures KeepsPayloads(bytes, bytes, base, U)
  {
  }

  /** The start of a block's payload: what `malloc` hands out for it. */
  ghost function PayloadOf(bytes: seq<Byte>, base: nat, b: Block): (p: seq<Byte>)
    requires base <= b.at && b.size >= HEADER && b.End() <= base + |bytes|
  {
    bytes[b.at + HEADER - base..b.End() - base]
  }

  /** NULL links mark the two ends of the list. */
  lemma NullLinks(bs: seq<Block>, lo: nat, hi: nat, k: nat)
    requires Tiles(bs, lo, hi) && lo > 0 && k < |bs|
    ensures HeaderOf(bs, k).next == 0 <==> k + 1 == |bs|
    ensures HeaderOf(bs, k).prev == 0 <==> k == 0
  {
    if k + 1 < |bs| {
      TilesWithin(bs, lo, hi, k + 1);
    }
    if k > 0 {
      TilesWithin(bs, lo, hi, k - 1);
    }
  }

  /** A heap of one free block. */
  lemma OneBlockIsLinked(bytes: seq<Byte>, base: nat)
    requires HEADER <= |bytes| < TWO_64
    ensures var bs := [Block(base, |bytes|, false)];
            && Linked(Stored(bytes, 0, Header(|bytes|, false, 0, 0)), base, bs)
            && NoFreeNeighbours(bs) && Bytes(bs, true) == 0
  {
    hide Stored, HeaderIn;
    var h, bs := Header(|bytes|, false, 0, 0), [Block(base, |bytes|, false)];
    assert Tiles(bs, base, base + |bytes|);
    StoreAtBlock(bytes, base, bs, 0, h);
    assert HeadersIn(Stored(bytes, 0, h), base, bs)[0] == HeaderOf(bs, 0);
    LinkedWhenHeadersAre(Stored(bytes, 0, h), base, bs);
    assert bs[1..] == [];
  }

  class Heap {
    var mem: array<Byte>
    var base: U64
    var size: U64
    var used: U64
    ghost var blocks: seq<Block>

    /** The bytes hold the headers of a tiling of the heap. */
    ghost predicate Sound()
      reads this, mem
    {
      && 0 < base && size == mem.Length && base + size < TWO_64 && size + HEADER + 8 < TWO_64
      && Linked(mem[..], base, blocks)
    }

    ghost predicate Valid()
      reads this, mem
    {
      Sound() && NoFreeNeighbours(blocks) && used == Bytes(blocks, true)
    }

    /** Sets up one free block over a region that starts at address `start`. */
    method Init(region: array<Byte>, start: U64) returns (r: int)
      requires 0 < start && start + region.Length < TWO_64 && region.Length + HEADER + 8 < TWO_64
      modifies this, region
      ensures r == if region.Length < 2 * HEADER then -1 else 0
      ensures r == -1 ==> region[..] == old(region[..]) && unchanged(this)
      ensures r == 0 ==> Valid() && mem == region && base == start && used == 0
      ensures r == 0 ==> blocks == [Block(start, region.Length, false)]
    {
      if region.Length < 2 * HEADER {
        return -1;
      }
      hide Linked, Stored, HeaderIn, Bytes, NoFreeNeighbours;
      mem, base, size, used := region, start, region.Length, 0;
      blocks := [Block(start, region.Length, false)];
      OneBlockIsLinked(mem[..], start);
      Store(start, Header(region.Length, false, 0, 0));
      r := 0;
    }

    // ---------- header access ----------

    /** `a` is an address at which a header lies within the heap. */
    ghost predicate InHeap(a: nat)
      reads this
    {
      base <= a && a - base + HEADER <= mem.Length
    }

    function Load(a: nat): Header
      requires InHeap(a)
      reads this, mem
    {
      HeaderIn(mem[..], a - base)
    }

    method Store(a: nat, h: Header)
      requires InHeap(a)
      modifies mem
      ensures mem[..] == Stored(old(mem[..]), a - base, h)
    {
      var bytes := Encode(h);
      forall i | 0 <= i < HEADER {
        mem[a - base + i] := bytes[i];
      }
    }

    /** Reading the header of block k gives its size, use and links. */
    lemma LoadBlock(k: nat)
      requires Sound() && k < |blocks|
      ensures InHeap(blocks[k].at) && Load(blocks[k].at) == HeaderOf(blocks, k) && HeaderOf(blocks, k).Fits()
      ensures base <= blocks[k].at && blocks[k].End() <= base + size
    {
      TilesWithin(blocks, base, base + size, k);
      HeadersFit(mem[..], base, blocks, k);
      assert HeaderAt(mem[..], base, blocks, k) == HeaderOf(blocks, k);
    }

    // ---------- list updates ----------

    method SetUsed(a: U64, flag: bool, ghost k: nat)
      requires Sound() && k < |blocks| && blocks[k].at == a
      modifies this`blocks, mem
      ensures Sound() && blocks == Mark(old(blocks), k, flag)
      ensures KeepsPayloads(old(mem[..]), mem[..], base, UsedSet(old(blocks)))
    {
      hide Linked, Stored, HeaderIn, KeepsPayloads;
      LoadBlock(k);
      MarkRelinks(mem[..], base, blocks, k, flag);
      Store(a, Load(a).(used := flag));
      blocks := Mark(blocks, k, flag);
    }

    /** Cuts a free block in two, the first part `total` bytes long. */
    method SplitBlock(best: U64, total: U64, ghost k: nat)
      requires Sound() && k < |blocks| && blocks[k].at == best && !blocks[k].used
      requires HEADER <= total && total + HEADER <= blocks[k].size
      modifies this`blocks, mem
      ensures Sound() && blocks == SplitAt(old(blocks), k, total)
      ensures KeepsPayloads(old(mem[..]), mem[..], base, UsedSet(old(blocks)))
    {
      hide Linked, Stored, HeaderIn, KeepsPayloads, SplitAt;
      LoadBlock(k);
      LinkedTiles(mem[..], base, blocks);
      SplitRelinks(mem[..], base, blocks, k, total);
      var h := Load(best);
      var newBlock := best + total;
      Store(newBlock, Header(h.size - total, false, h.next, best));
      NullLinks(blocks, base, base + size, k);
      if h.next != 0 {
        TilesWithin(blocks, base, base + size, k + 1);
        Store(h.next, Load(h.next).(prev := newBlock));
      }
      Store(best, h.(next := newBlock, size := total));
      blocks := SplitAt(blocks, k, total);
    }

    /** The block at `left` takes over the free block after it. */
    method Absorb(left: U64, ghost k: nat)
      requires Sound() && k + 1 < |blocks| && blocks[k].at == left && !blocks[k].used && !blocks[k + 1].used
      modifies this`blocks, mem
      ensures Sound() && blocks == MergeNext(old(blocks), k)
      ensures KeepsPayloads(old(mem[..]), mem[..], base, UsedSet(old(blocks)))
    {
      hide Linked, Stored, HeaderIn, KeepsPayloads, MergeNext, UsedSet, Tiles;
      LoadBlock(k);
      LoadBlock(k + 1);
      MergeRelinks(mem[..], base, blocks, k);
      var h := Load(left);
      var n := Load(h.next);
      LinkedTiles(mem[..], base, blocks);
      NullLinks(blocks, base, base + size, k);
      NullLinks(blocks, base, base + size, k + 1);
      if k + 2 < |blocks| {
        LoadBlock(k + 2);
      }
      Store(left, h.(size := h.size + n.size, next := n.next));
      if n.next != 0 {
        Store(n.next, Load(n.next).(prev := left));
      }
      blocks := MergeNext(blocks, k);
    }

    // ---------- the client operations ----------

    /** Walks the list to the first free block that is large enough; 0 if there is none. */
    method FindFirstFit(total: U64) returns (best: U64, ghost k: nat)
      requires Sound()
      ensures k == FirstFit(blocks, total)
      ensures best == if FirstFit(blocks, total) < |blocks| then blocks[FirstFit(blocks, total)].at else 0
      ensures best == 0 <==> FirstFit(blocks, total) == |blocks|
    {
      hide Linked, HeaderIn, FirstFit;
      LinkedTiles(mem[..], base, blocks);
      var block := base;
      k := 0;
      while block != 0
        invariant k <= |blocks| && block == (if k < |blocks| then blocks[k].at else 0)
        invariant forall j :: 0 <= j < k ==> blocks[j].used || blocks[j].size < total
        decreases |blocks| - k
      {
        LoadBlock(k);
        if !Load(block).used && Load(block).size >= total {
          FirstFitIs(blocks, total, k);
          return block, k;
        }
        NullLinks(blocks, base, base + size, k);
        if k + 1 < |blocks| {
          LoadBlock(k + 1);
        }
        block := Load(block).next;
        k := k + 1;
      }
      if k < |blocks| {
        TilesWithin(blocks, base, base + size, k);
      }
      FirstFitIs(blocks, total, k);
      best := 0;
    }

    /** Cuts block k if there is enough left for another block, marks it used and counts it. */
    method Take(best: U64, total: U64, ghost k: nat)
      requires Valid() && k < |blocks| && blocks[k].at == best && !blocks[k].used
      requires total <= blocks[k].size && CutIsSafe(blocks, k, total)
      modifies this`blocks, this`used, mem
      ensures Valid() && blocks == AllocAt(old(blocks), k, total)
      ensures KeepsPayloads(old(mem[..]), mem[..], base, UsedSet(old(blocks)))
    {
      hide Linked, HeaderIn, SplitAt, Bytes, Wrap, UsedSet, Tiles, KeepsPayloads, NoFreeNeighbours;
      LinkedTiles(mem[..], base, blocks);
      LoadBlock(k);
      AllocKeepsCanonical(blocks, base, base + size, k, total);
      ghost var bs, bytes := blocks, mem[..];
      WrapIs(total + HEADER + 8);
      if Load(best).size >= Wrap(total + HEADER + 8) {
        SplitIs(blocks, k, total);
        SplitKeepsBytes(blocks, k, total);
        SplitBlock(best, total, k);
        SplitKeepsUsed(bs, k, total);
      } else {
        KeepsItself(bytes, base, UsedSet(bs));
      }
      ghost var mid := mem[..];
      MarkMovesBytes(blocks, k);
      SetUsed(best, true, k);
      KeepsTwice(bytes, mid, mem[..], base, UsedSet(bs));
      LoadBlock(k);
      BytesAddUp(blocks, base, base + size);
      used := used + Load(best).size;
    }

    /** First fit. Fails exactly when no stretch of unused bytes is long enough, and then changes
        nothing; otherwise takes the lowest such stretch. */
    method Alloc(request: U64) returns (ptr: U64)
      requires Valid() && AllocSafe(blocks, request)
      modifies this`blocks, this`used, mem
      ensures Valid() && KeepsPayloads(old(mem[..]), mem[..], base, UsedSet(old(blocks)))
      ensures ptr == 0 <==> request == 0 || NoStretch(old(blocks), base, base + size, TotalSize(request))
      ensures ptr != 0 ==> Obtained(old(blocks), blocks, base, base + size, request, ptr)
      ensures ptr == 0 <==> request == 0 || FirstFit(old(blocks), TotalSize(request)) == |old(blocks)|
      ensures ptr == 0 ==> blocks == old(blocks) && used == old(used) && mem[..] == old(mem[..])
      ensures ptr != 0 ==>
        && blocks == AllocAt(old(blocks), FirstFit(old(blocks), TotalSize(request)), TotalSize(request))
        && ptr == old(blocks)[FirstFit(old(blocks), TotalSize(request))].at + HEADER
    {
      hide Linked, HeaderIn, AllocAt, Bytes, FirstFit, TotalSize, UsedSet, Tiles, NoStretch, Obtained, NoFreeNeighbours;
      hide KeepsPayloads;
      KeepsItself(mem[..], base, UsedSet(blocks));
      if request == 0 {
        return 0;
      }
      var total := TotalSize(request);
      LinkedTiles(mem[..], base, blocks);
      FitIsStretch(blocks, base, base + size, request);
      ghost var bs := blocks;
      var bestBlock;
      ghost var k;
      bestBlock, k := FindFirstFit(total);
      if bestBlock == 0 {
        return 0;
      }
      LoadBlock(k);
      Take(bestBlock, total, k);
      ptr := bestBlock + HEADER;
      AllocObtains(bs, base, base + size, request);
    }

    /** Merges block k with the block after it when both are free. */
    method CoalesceNext(a: U64, ghost k: nat)
      requires Sound() && k < |blocks| && blocks[k].at == a && !blocks[k].used
      modifies this`blocks, mem
      ensures Sound() && blocks == Coalesce(old(blocks), k)
      ensures KeepsPayloads(old(mem[..]), mem[..], base, UsedSet(old(blocks)))
      ensures Bytes(blocks, true) == Bytes(old(blocks), true) && UsedSet(blocks) == UsedSet(old(blocks))
    {
      hide Linked, HeaderIn, MergeNext, Bytes, UsedSet;
      LoadBlock(k);
      LinkedTiles(mem[..], base, blocks);
      NullLinks(blocks, base, base + size, k);
      var next := Load(a).next;
      if next != 0 {
        LoadBlock(k + 1);
        if !Load(next).used {
          MergeKeepsBytes(blocks, k);
          MergeKeepsUsed(blocks, k);
          Absorb(a, k);
        }
      }
    }

    /** Marks block k free and takes its size off the counter. */
    method ReleaseBlock(a: U64, ghost k: nat)
      requires Valid() && k < |blocks| && blocks[k].at == a && blocks[k].used
      modifies this`blocks, this`used, mem
      ensures Sound() && blocks == Mark(old(blocks), k, false) && used == Bytes(blocks, true)
      ensures |blocks| == |old(blocks)| && blocks[k].at == a && !blocks[k].used
      ensures KeepsPayloads(old(mem[..]), mem[..], base, UsedSet(blocks))
    {
      hide Linked, HeaderIn, Bytes, Mark, UsedSet, Tiles, NoFreeNeighbours, KeepsPayloads;
      ghost var bs := blocks;
      LinkedTiles(mem[..], base, blocks);
      MarkFree(bs, base, base + size, k);
      UnmarkMovesBytes(bs, k);
      MarkIs(bs, k, false);
      SetUsed(a, false, k);
      LoadBlock(k);
      used := used - Load(a).size;
      KeepsFewer(old(mem[..]), mem[..], base, UsedSet(bs), UsedSet(blocks));
    }

    /** Frees a live pointer: its block, merged with its free neighbours. */
    method Free(ptr: U64)
      requires Valid() && (ptr != 0 ==> ptr >= HEADER && Live(blocks, ptr - HEADER))
      modifies this`blocks, this`used, mem
      ensures Valid()
      ensures ptr == 0 ==> blocks == old(blocks) && mem[..] == old(mem[..]) && used == old(used)
      ensures ptr != 0 ==> blocks == FreeSpec(old(blocks), ptr - HEADER)
      ensures KeepsPayloads(old(mem[..]), mem[..], base, UsedSet(blocks))
    {
      hide Linked, HeaderIn, Bytes, Mark, Coalesce, UsedSet, Tiles, NoFreeNeighbours;
      if ptr == 0 {
        return;
      }
      hide KeepsPayloads;
      var block := ptr - HEADER;
      ghost var k, bytes := IndexOf(blocks, block), mem[..];
      LinkedTiles(mem[..], base, blocks);
      FreeRemovesOneBlock(blocks, base, base + size, k);
      ReleaseBlock(block, k);
      ghost var mid := mem[..];
      CoalesceIs(blocks, k);
      CoalesceNext(block, k);
      KeepsTwice(bytes, mid, mem[..], base, UsedSet(blocks));
      CoalescePrevious(block, k, bytes);
    }

    /** Merges free block k with the block before it when that is free; the second half of `Free`. */
    method CoalescePrevious(a: U64, ghost k: nat, ghost bytes: seq<Byte>)
      requires Sound() && k < |blocks| && blocks[k].at == a && !blocks[k].used
      requires KeepsPayloads(bytes, mem[..], base, UsedSet(blocks))
      modifies this`blocks, mem
      ensures Sound() && blocks == if k > 0 then Coalesce(old(blocks), k - 1) else old(blocks)
      ensures KeepsPayloads(bytes, mem[..], base, UsedSet(blocks))
      ensures Bytes(blocks, true) == Bytes(old(blocks), true)
    {
      hide Linked, HeaderIn, Bytes, Coalesce, UsedSet, Tiles, KeepsPayloads;
      ghost var mid := mem[..];
      LoadBlock(k);
      LinkedTiles(mem[..], base, blocks);
      NullLinks(blocks, base, base + size, k);
      var prev := Load(a).prev;
      if prev != 0 {
        LoadBlock(k - 1);
        if !Load(prev).used {
          CoalesceNext(prev, k - 1);
          KeepsTwice(bytes, mid, mem[..], base, UsedSet(blocks));
        } else {
          CoalesceOfUsed(blocks, k - 1);
        }
      }
    }

    /** Sizes added up along the list. */
    method WalkStats() returns (total: U64, usedBytes: U64, freeBytes: U64)
      requires Valid()
      ensures total == size && usedBytes == Bytes(blocks, true) && freeBytes == Bytes(blocks, false)
      ensures total == usedBytes + freeBytes && usedBytes == used
    {
      hide Linked, HeaderIn, Bytes, UsedSet;
      LinkedTiles(mem[..], base, blocks);
      total, usedBytes, freeBytes := 0, 0, 0;
      var block := base;
      ghost var k := 0;
      BytesAddUp(blocks, base, base + size);
      assert blocks[..0] == [] && Bytes([], true) == 0 && Bytes([], false) == 0 by { NoBytes(); }
      while block != 0
        invariant k <= |blocks| && block == (if k < |blocks| then blocks[k].at else 0)
        invariant total == (if k < |blocks| then blocks[k].at - base else size)
        invariant usedBytes == Bytes(blocks[..k], true) && freeBytes == Bytes(blocks[..k], false)
        invariant usedBytes + freeBytes == total
        decreases |blocks| - k
      {
        LoadBlock(k);
        NullLinks(blocks, base, base + size, k);
        if k + 1 < |blocks| {
          LoadBlock(k + 1);
        }
        BytesOfPrefix(blocks, k, true);
        BytesOfPrefix(blocks, k, false);
        var h := Load(block);
        total := total + h.size;
        if h.used {
          usedBytes := usedBytes + h.size;
        } else {
          freeBytes := freeBytes + h.size;
        }
        block := h.next;
        k := k + 1;
      }
      assert blocks[..k] == blocks;
    }

    /** The same figures from the cached counter. */
    method CachedStats() returns (total: U64, usedBytes: U64, freeBytes: U64)
      requires Valid()
      ensures total == size && usedBytes == Bytes(blocks, true) && freeBytes == Bytes(blocks, false)
    {
      LinkedTiles(mem[..], base, blocks);
      BytesAddUp(blocks, base, base + size);
      total, usedBytes, freeBytes := size, used, size - used;
    }

    /** The integrity check, on any heap whose links can be followed. It finds nothing wrong in a
        sound one. */
    method Validate() returns (r: int)
      requires base > 0 && size == mem.Length && base + size < TWO_64
      requires Sound() || Followable(mem[..], base, 0)
      ensures Followable(mem[..], base, 0) && r == CheckFrom(mem[..], base, 0)
      ensures Sound() ==> r == 0
    {
      hide Linked, HeaderIn, Readable;
      if Sound() {
        LinkedTiles(mem[..], base, blocks);
        LinkedIsAccepted(mem[..], base, blocks, 0);
      }
      ghost var bytes := mem[..];
      var block := base;
      var offset: nat := 0;
      while block != 0
        invariant offset <= size
        invariant block == 0 ==> CheckFrom(bytes, base, 0) == 0
        invariant block != 0 && block == base + offset ==>
          Followable(bytes, base, offset) && CheckFrom(bytes, base, 0) == CheckFrom(bytes, base, offset)
        invariant block != 0 && block != base + offset ==> CheckFrom(bytes, base, 0) == -1
        decreases size - offset, block
      {
        if block != base + offset {
          return -1;
        }
        CanRead(bytes, base, offset);
        var h := Load(block);
        if h.size < HEADER {
          return -2;
        }
        if Wrap(offset + h.size) > size {
          return -3;
        }
        if h.next != 0 {
          if Load(h.next).prev != block {
            return -4;
          }
        }
        if h.prev != 0 {
          if Load(h.prev).next != block {
            return -5;
          }
        }
        offset := offset + h.size;
        block := h.next;
      }
      r := 0;
    }

    /** memcpy between two payloads: n bytes from `src` to `dst`, lowest first. */
    method Copy(dst: nat, src: nat, n: nat)
      requires base <= dst && dst + n <= base + mem.Length && base <= src && src + n <= base + mem.Length
      requires dst + n <= src || src + n <= dst
      modifies mem
      ensures forall x :: 0 <= x < mem.Length ==>
        mem[x] == if dst <= base + x < dst + n then old(mem[x + src - dst]) else old(mem[x])
    {
      var i := 0;
      while i < n
        invariant 0 <= i <= n
        invariant forall x :: 0 <= x < mem.Length ==>
          mem[x] == if dst <= base + x < dst + i then old(mem[x + src - dst]) else old(mem[x])
      {
        mem[dst - base + i] := mem[src - base + i];
        i := i + 1;
      }
    }

    /** The block a live pointer refers to. */
    ghost function BlockAt(ptr: U64): (b: Block)
      requires ptr >= HEADER && Live(blocks, ptr - HEADER)
      reads this
      ensures b in blocks && b.used && b.at == ptr - HEADER
    {
      blocks[IndexOf(blocks, ptr - HEADER)]
    }

    /** Resizes an allocation: in place when the block is large enough, otherwise by moving it. */
    method Realloc(ptr: U64, request: U64) returns (newPtr: U64)
      requires Valid() && (ptr != 0 ==> ptr >= HEADER && Live(blocks, ptr - HEADER))
      requires if ptr == 0 then AllocSafe(blocks, request)
               else request <= BlockAt(ptr).size - HEADER || MoveSafe(blocks, BlockAt(ptr), request)
      modifies this`blocks, this`used, mem
      ensures Valid()
      ensures ptr == 0 ==> blocks == (if request == 0 then old(blocks) else AllocSpec(old(blocks), TotalSize(request)))
      ensures ptr == 0 ==> (newPtr == 0 <==> request == 0 || FirstFit(old(blocks), TotalSize(request)) == |old(blocks)|)
      ensures ptr == 0 && newPtr != 0 ==> newPtr == old(blocks)[FirstFit(old(blocks), TotalSize(request))].at + HEADER
      ensures ptr == 0 ==> KeepsPayloads(old(mem[..]), mem[..], base, UsedSet(old(blocks)))
      ensures ptr == 0 && newPtr != 0 ==> Obtained(old(blocks), blocks, base, base + size, request, newPtr)
      ensures ptr != 0 && request == 0 ==> newPtr == 0 && blocks == FreeSpec(old(blocks), ptr - HEADER)
                                           && KeepsPayloads(old(mem[..]), mem[..], base, UsedSet(blocks))
      ensures ptr != 0 && 0 < request && request <= old(BlockAt(ptr)).size - HEADER ==>
                newPtr == ptr && blocks == old(blocks) && mem[..] == old(mem[..]) && used == old(used)
      ensures ptr != 0 && request > old(BlockAt(ptr)).size - HEADER ==>
        && (newPtr == 0 <==> FirstFit(old(blocks), TotalSize(request)) == |old(blocks)|)
        && (newPtr == 0 ==> blocks == old(blocks) && mem[..] == old(mem[..]) && used == old(used))
        && (newPtr != 0 ==>
              && newPtr != ptr
              && Moved(old(mem[..]), mem[..], base, old(blocks), blocks, old(BlockAt(ptr)), newPtr, request)
              && Live(AllocSpec(old(blocks), TotalSize(request)), ptr - HEADER)
              && blocks == FreeSpec(AllocSpec(old(blocks), TotalSize(request)), ptr - HEADER))
    {
      hide Linked, HeaderIn, Bytes, UsedSet, Tiles, NoFreeNeighbours, FirstFit, AllocAt, TotalSize, FreeAt, KeepsPayloads;
      if ptr == 0 {
        newPtr := Alloc(request);
        return;
      }
      LinkedTiles(mem[..], base, blocks);
      SizesAtLeastHeader(blocks, base, base + size, IndexOf(blocks, ptr - HEADER));
      if request == 0 {
        Free(ptr);
        return 0;
      }
      LoadBlock(IndexOf(blocks, ptr - HEADER));
      var oldSize := Load(ptr - HEADER).size - HEADER;
      if request <= oldSize {
        return ptr;
      }
      newPtr := Move(ptr, oldSize, request);
    }

    /** Copies the start of block i's payload into block k's. */
    method CopyPayload(dst: U64, src: U64, n: nat, ghost i: nat, ghost k: nat)
      requires Sound() && i < |blocks| && k < |blocks|
      requires dst == blocks[k].at + HEADER && src == blocks[i].at + HEADER
      requires HEADER + n <= blocks[i].size && HEADER + n <= blocks[k].size
      requires blocks[i].End() <= blocks[k].at || blocks[k].End() <= blocks[i].at
      modifies mem
      ensures Sound() && CopiedPayload(old(mem[..]), mem[..], base, blocks[i], blocks[k], n)
      ensures KeepsPayloads(old(mem[..]), mem[..], base, UsedSet(blocks) - {blocks[k]})
    {
      hide Linked, Tiles, UsedSet, KeepsPayloads, InPayload;
      ghost var bytes := mem[..];
      LinkedTiles(bytes, base, blocks);
      TilesWithin(blocks, base, base + size, k);
      TilesWithin(blocks, base, base + size, i);
      Copy(dst, src, n);
      assert CopiedPayload(bytes, mem[..], base, blocks[i], blocks[k], n);
      CopyIsPayloadWrite(bytes, mem[..], base, blocks[i], blocks[k], n);
      PayloadWrite(bytes, mem[..], base, blocks, k);
    }

    /** Allocates, copies the old payload and frees the old block. */
    method Move(ptr: U64, oldSize: nat, request: U64) returns (newPtr: U64)
      requires Valid() && ptr >= HEADER && Live(blocks, ptr - HEADER) && MoveSafe(blocks, BlockAt(ptr), request)
      requires oldSize == BlockAt(ptr).size - HEADER && request > oldSize
      modifies this`blocks, this`used, mem
      ensures Valid()
      ensures newPtr == 0 <==> FirstFit(old(blocks), TotalSize(request)) == |old(blocks)|
      ensures newPtr == 0 ==> blocks == old(blocks) && mem[..] == old(mem[..]) && used == old(used)
      ensures newPtr != 0 ==>
        && newPtr != ptr
        && Moved(old(mem[..]), mem[..], base, old(blocks), blocks, old(BlockAt(ptr)), newPtr, request)
      ensures newPtr != 0 ==> Live(AllocSpec(old(blocks), TotalSize(request)), ptr - HEADER)
                              && blocks == FreeSpec(AllocSpec(old(blocks), TotalSize(request)), ptr - HEADER)
    {
      hide Linked, HeaderIn, Bytes, Tiles, NoFreeNeighbours, FirstFit, AllocAt, TotalSize, FreeAt, KeepsPayloads, Moved, InPayload;
      ghost var bs, bytes, b := blocks, mem[..], BlockAt(ptr);
      LinkedTiles(bytes, base, bs);
      newPtr := Alloc(request);
      if newPtr == 0 {
        return;
      }
      ghost var k := FirstFit(bs, TotalSize(request));
      TotalSizeFitsIff(request);
      ghost var nb, i := AllocatedApart(bs, base, base + size, k, TotalSize(request), b);
      hide UsedSet, CopiedPayload;
      ghost var cs, mid := blocks, mem[..];
      LinkedTiles(mid, base, cs);
      CopyPayload(newPtr, ptr, oldSize, i, k);
      ghost var copied := mem[..];
      assert Live(blocks, ptr - HEADER);
      SameAddressSameBlock(cs, base, base + size, i, IndexOf(cs, ptr - HEADER));
      FreeRemovesOneBlock(cs, base, base + size, i);
      Free(ptr);
      LinkedTiles(mem[..], base, blocks);
      MoveDone(bytes, mid, copied, mem[..], base, bs, cs, blocks, b, nb, request);
    }
  }

  /** What a moving `realloc` has done: block b replaced by a block at newPtr that starts with
      b's payload, every other payload in place. */
  ghost predicate Moved(bytes: seq<Byte>, bytes': seq<Byte>, base: nat, bs: seq<Block>, bs': seq<Block>, b: Block,
                        newPtr: nat, request: nat) {
    && newPtr >= HEADER && Live(bs', newPtr - HEADER)
    && var nb := bs'[IndexOf(bs', newPtr - HEADER)];
       && b in UsedSet(bs) && nb !in UsedSet(bs) && UsedSet(bs') == UsedSet(bs) - {b} + {nb}
       && nb.size >= b.size && (request <= MAX_REQUEST ==> nb.size >= request + HEADER)
       && StartsWith(bytes, bytes', base, b, nb)
       && KeepsPayloads(bytes, bytes', base, UsedSet(bs) - {b})
  }

  /** The payload of nb begins with the whole old payload of b. */
  ghost predicate StartsWith(bytes: seq<Byte>, bytes': seq<Byte>, base: nat, b: Block, nb: Block) {
    && |bytes'| == |bytes| && base <= b.at && b.End() <= base + |bytes| && base <= nb.at && nb.End() <= base + |bytes|
    && HEADER <= b.size <= nb.size
    && PayloadOf(bytes, base, b) <= PayloadOf(bytes', base, nb)
  }

  /** The newly used block and any block used before lie apart. */
  lemma AllocatedApart(bs: seq<Block>, lo: nat, hi: nat, k: nat, total: nat, b: Block) returns (nb: Block, i: nat)
    requires Canonical(bs, lo, hi) && k < |bs| && !bs[k].used && total <= bs[k].size && CutIsSafe(bs, k, total)
    requires b in UsedSet(bs)
    ensures var cs := AllocAt(bs, k, total);
            && Canonical(cs, lo, hi) && k < |cs| && nb == cs[k] && nb.used && nb.at == bs[k].at && nb.size == TakenSize(bs, k, total) >= total
            && nb !in UsedSet(bs) && UsedSet(cs) == UsedSet(bs) + {nb}
            && i < |cs| && cs[i] == b && i != k && (b.End() <= nb.at || nb.End() <= b.at)
  {
    hide AllocAt;
    AllocKeepsCanonical(bs, lo, hi, k, total);
    AllocAddsOneBlock(bs, lo, hi, k, total);
    var cs := AllocAt(bs, k, total);
    nb := cs[k];
    assert b in UsedSet(cs);
    i :| 0 <= i < |cs| && cs[i] == b;
    if i < k {
      TilesAreOrdered(cs, lo, hi, i, k);
    } else {
      TilesAreOrdered(cs, lo, hi, k, i);
    }
  }

  /** `copied` is `mid` with the first n payload bytes of nb overwritten by those of b. */
  ghost predicate CopiedPayload(mid: seq<Byte>, copied: seq<Byte>, base: nat, b: Block, nb: Block, n: nat) {
    && |copied| == |mid| && HEADER + n <= b.size && HEADER + n <= nb.size
    && base <= b.at && b.End() <= base + |mid|
    && (forall x :: 0 <= x < |mid| && !(nb.at + HEADER <= base + x < nb.at + HEADER + n) ==> copied[x] == mid[x])
    && (forall x {:trigger copied[x]} :: 0 <= x < |mid| && nb.at + HEADER <= base + x < nb.at + HEADER + n ==>
         copied[x] == mid[x + b.at - nb.at])
  }

  lemma CopyIsPayloadWrite(mid: seq<Byte>, copied: seq<Byte>, base: nat, b: Block, nb: Block, n: nat)
    requires CopiedPayload(mid, copied, base, b, nb, n)
    ensures forall x :: 0 <= x < |mid| && !InPayload(nb, base + x) ==> copied[x] == mid[x]
  {
    forall x | 0 <= x < |mid| && !InPayload(nb, base + x)
      ensures copied[x] == mid[x]
    {
      assert !(nb.at + HEADER <= base + x < nb.at + HEADER + n);
    }
  }

  lemma MoveDone(bytes: seq<Byte>, mid: seq<Byte>, copied: seq<Byte>, bytes': seq<Byte>, base: nat,
                 bs: seq<Block>, cs: seq<Block>, ds: seq<Block>, b: Block, nb: Block, request: nat)
    requires Tiles(bs, base, base + |bytes|) && Tiles(ds, base, base + |bytes|)
    requires b in UsedSet(bs) && nb !in UsedSet(bs) && nb.used && nb.size >= b.size
    requires request <= MAX_REQUEST ==> nb.size >= request + HEADER
    requires UsedSet(cs) == UsedSet(bs) + {nb} && UsedSet(ds) == UsedSet(cs) - {b}
    requires KeepsPayloads(bytes, mid, base, UsedSet(bs)) && KeepsPayloads(mid, copied, base, UsedSet(cs) - {nb})
    requires KeepsPayloads(copied, bytes', base, UsedSet(ds))
    requires b.size >= HEADER && CopiedPayload(mid, copied, base, b, nb, b.size - HEADER)
    ensures Moved(bytes, bytes', base, bs, ds, b, nb.at + HEADER, request)
  {
    hide Tiles, PayloadOf;
    assert nb in UsedSet(ds);
    var j :| 0 <= j < |ds| && ds[j] == nb;
    assert Live(ds, nb.at);
    SameAddressSameBlock(ds, base, base + |bytes|, j, IndexOf(ds, nb.at));
    TilesWithin(ds, base, base + |bytes|, j);
    var i :| 0 <= i < |bs| && bs[i] == b;
    TilesWithin(bs, base, base + |bytes|, i);
    PayloadArrived(bytes, mid, copied, bytes', base, b, nb);
    assert UsedSet(bs) - {b} <= UsedSet(ds) && UsedSet(bs) - {b} <= UsedSet(cs) - {nb};
  }

  lemma PayloadArrived(bytes: seq<Byte>, mid: seq<Byte>, copied: seq<Byte>, bytes': seq<Byte>, base: nat, b: Block, nb: Block)
    requires |mid| == |bytes| && |bytes'| == |bytes| && HEADER <= b.size <= nb.size
    requires base <= b.at && b.End() <= base + |bytes| && base <= nb.at && nb.End() <= base + |bytes|
    requires KeepsPayloads(bytes, mid, base, {b}) && KeepsPayloads(copied, bytes', base, {nb})
    requires CopiedPayload(mid, copied, base, b, nb, b.size - HEADER)
    ensures PayloadOf(bytes, base, b) <= PayloadOf(bytes', base, nb)
  {
    var p, q := PayloadOf(bytes, base, b), PayloadOf(bytes', base, nb);
    forall y | 0 <= y < |p|
      ensures p[y] == q[y]
    {
      var x, z := b.at + HEADER + y, nb.at + HEADER + y;
      assert InPayload(b, x) && InPayload(nb, z);
      assert mid[x - base] == bytes[x - base] && bytes'[z - base] == copied[z - base];
      assert copied[z - base] == mid[z - base + b.at - nb.at];
    }
  }

  lemma MarkIs(bs: seq<Block>, k: nat, flag: bool)
    requires k < |bs|
    ensures |Mark(bs, k, flag)| == |bs| && Mark(bs, k, flag)[k] == bs[k].(used := flag)
    ensures forall j :: 0 <= j < |bs| && j != k ==> Mark(bs, k, flag)[j] == bs[j]
  {
  }

  lemma CoalesceIs(bs: seq<Block>, k: nat)
    requires k < |bs| && !bs[k].used
    ensures k < |Coalesce(bs, k)| && Coalesce(bs, k)[k].at == bs[k].at && !Coalesce(bs, k)[k].used
  {
  }

  lemma CoalesceOfUsed(bs: seq<Block>, k: nat)
    requires k < |bs| && bs[k].used
    ensures Coalesce(bs, k) == bs
  {
  }

  lemma UnmarkMovesBytes(bs: seq<Block>, k: nat)
    requires k < |bs| && bs[k].used
    ensures Bytes(bs, true) == Bytes(Mark(bs, k, false), true) + bs[k].size
  {
    var cs := Mark(bs, k, false);
    MarkMovesBytes(cs, k);
    assert Mark(cs, k, true) == bs;
  }

  lemma KeepsFewer(a: seq<Byte>, b: seq<Byte>, base: nat, U: set<Block>, V: set<Block>)
    requires KeepsPayloads(a, b, base, U) && V <= U
    ensures KeepsPayloads(a, b, base, V)
  {
  }

  lemma NoBytes()
    ensures Bytes([], true) == 0 && Bytes([], false) == 0
  {
  }

  lemma BytesOfPrefix(bs: seq<Block>, k: nat, used: bool)
    requires k < |bs|
    ensures Bytes(bs[..k + 1], used) == Bytes(bs[..k], used) + if bs[k].used == used then bs[k].size else 0
  {
    assert bs[..k + 1] == bs[..k] + [bs[k]];
    BytesConcat(bs[..k], [bs[k]], used);
    assert [bs[k]][1..] == [];
  }

  lemma FirstFitIs(bs: seq<Block>, total: nat, k: nat)
    requires k <= |bs| && (k < |bs| ==> !bs[k].used && bs[k].size >= total)
    requires forall j :: 0 <= j < k ==> bs[j].used || bs[j].size < total
    ensures FirstFit(bs, total) == k
  {
  }

  lemma SplitKeepsUsed(bs: seq<Block>, k: nat, total: nat)
    requires k < |bs| && !bs[k].used && total <= bs[k].size
    ensures UsedSet(SplitAt(bs, k, total)) == UsedSet(bs)
  {
    hide SplitAt;
    var cs := SplitAt(bs, k, total);
    SplitIs(bs, k, total);
    forall b | b in bs && b.used
      ensures b in cs
    {
      var j :| 0 <= j < |bs| && bs[j] == b;
      assert b == cs[if j < k then j else j + 1];
    }
  }
}
