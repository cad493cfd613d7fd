/** The integrity check of the heap, on heaps whose bytes may hold anything. */
module HeapCheck {
  import opened MachineInts
  import opened HeapBlocks
  import opened HeapHeaders

  /** A header at address `a` lies within the heap. */
  ghost predicate Inside(bytes: seq<Byte>, base: nat, a: nat) {
    base <= a && a - base + HEADER <= |bytes|
  }

  /** The check can look at the header at offset `off`: its links are NULL or lead into the heap,
      and its size does not make the offset wrap. */
  ghost predicate Readable(bytes: seq<Byte>, base: nat, off: nat) {
    && off + HEADER <= |bytes|
    && var h := HeaderIn(bytes, off);
       && off + h.size < TWO_64
       && (HEADER <= h.size && off + h.size <= |bytes| ==>
             (h.next != 0 ==> Inside(bytes, base, h.next)) && (h.prev != 0 ==> Inside(bytes, base, h.prev)))
  }

  lemma CanRead(bytes: seq<Byte>, base: nat, off: nat)
    requires Readable(bytes, base, off)
    ensures off + HEADER <= |bytes| && off + HeaderIn(bytes, off).size < TWO_64
    ensures Wrap(off + HeaderIn(bytes, off).size) == off + HeaderIn(bytes, off).size
    ensures HEADER <= HeaderIn(bytes, off).size && off + HeaderIn(bytes, off).size <= |bytes| ==>
              && (HeaderIn(bytes, off).next != 0 ==> Inside(bytes, base, HeaderIn(bytes, off).next))
              && (HeaderIn(bytes, off).prev != 0 ==> Inside(bytes, base, HeaderIn(bytes, off).prev))
  {
    hide HeaderIn;
  }

  /** The checks of one header, in order. */
  ghost function CheckHere(bytes: seq<Byte>, base: nat, off: nat): int
    requires Readable(bytes, base, off)
  {
    var h := HeaderIn(bytes, off);
    if h.size < HEADER then -2
    else if off + h.size > |bytes| then -3
    else if h.next != 0 && HeaderIn(bytes, h.next - base).prev != base + off then -4
    else if h.prev != 0 && HeaderIn(bytes, h.prev - base).next != base + off then -5
    else 0
  }

  /** Every header that the check comes to can be looked at. */
  ghost predicate Followable(bytes: seq<Byte>, base: nat, off: nat)
    decreases |bytes| - off
  {
    && Readable(bytes, base, off)
    && var h := HeaderIn(bytes, off);
       (CheckHere(bytes, base, off) == 0 && h.next != 0 && h.next == base + off + h.size ==>
          Followable(bytes, base, off + h.size))
  }

  /** The answer of the check from the header at `off` on; each next header must be adjacent (-1). */
  ghost function CheckFrom(bytes: seq<Byte>, base: nat, off: nat): int
    requires Followable(bytes, base, off)
    decreases |bytes| - off
  {
    var h := HeaderIn(bytes, off);
    if CheckHere(bytes, base, off) != 0 then CheckHere(bytes, base, off)
    else if h.next == 0 then 0
    else if h.next != base + off + h.size then -1
    else CheckFrom(bytes, base, off + h.size)
  }

  ghost predicate Accepted(bytes: seq<Byte>, base: nat, off: nat) {
    Followable(bytes, base, off) && CheckFrom(bytes, base, off) == 0
  }

  /** Where an accepted list ends. */
  ghost function ListEnd(bytes: seq<Byte>, base: nat, off: nat): (e: nat)
    requires Accepted(bytes, base, off)
    ensures off < e <= |bytes|
    decreases |bytes| - off
  {
    var h := HeaderIn(bytes, off);
    if h.next == 0 then off + h.size else ListEnd(bytes, base, off + h.size)
  }

  /** Block k of a list stands in the heap; the first one may have any back link. */
  ghost predicate Stands(bytes: seq<Byte>, base: nat, bs: seq<Block>, k: nat) {
    && k < |bs| && Inside(bytes, base, bs[k].at)
    && var h := HeaderIn(bytes, bs[k].at - base);
       h == if k == 0 then HeaderOf(bs, 0).(prev := h.prev) else HeaderOf(bs, k)
  }

  /** An accepted list is a tiling up to its end, linked in both directions, except for the back
      link of its first block. */
  lemma {:induction false} AcceptedIsChain(bytes: seq<Byte>, base: nat, off: nat) returns (bs: seq<Block>)
    requires base > 0 && Accepted(bytes, base, off)
    ensures Tiles(bs, base + off, base + ListEnd(bytes, base, off))
    ensures forall k :: 0 <= k < |bs| ==> Stands(bytes, base, bs, k)
    decreases |bytes| - off
  {
    hide HeaderIn;
    var h := HeaderIn(bytes, off);
    var b := Block(base + off, h.size, h.used);
    if h.next == 0 {
      bs := [b];
    } else {
      var rest := AcceptedIsChain(bytes, base, off + h.size);
      bs := [b] + rest;
      PrependTiles(b, rest, b.End(), base + ListEnd(bytes, base, off));
      forall k | 0 <= k < |bs|
        ensures Stands(bytes, base, bs, k)
      {
        if k > 0 {
          assert Stands(bytes, base, rest, k - 1);
          PrependHeader(b, rest, k - 1);
        }
      }
    }
  }

  lemma PrependTiles(b: Block, rest: seq<Block>, lo: nat, hi: nat)
    requires Tiles(rest, lo, hi) && b.End() == lo && b.size >= HEADER
    ensures Tiles([b] + rest, b.at, hi)
  {
    var bs := [b] + rest;
    assert forall k :: 0 < k < |bs| ==> bs[k] == rest[k - 1];
  }

  lemma PrependHeader(b: Block, rest: seq<Block>, k: nat)
    requires k < |rest|
    ensures ([b] + rest)[k + 1] == rest[k]
    ensures HeaderOf([b] + rest, k + 1) == if k == 0 then HeaderOf(rest, 0).(prev := b.at) else HeaderOf(rest, k)
  {
    var bs := [b] + rest;
    assert k > 0 ==> bs[k] == rest[k - 1];
    assert k + 1 < |rest| ==> bs[k + 2] == rest[k + 1];
  }

  /** A list that begins at the base, is linked in both directions, and ends within the heap. */
  ghost predicate Chain(bytes: seq<Byte>, base: nat, bs: seq<Block>) {
    && |bs| > 0 && Tiles(bs, base, bs[|bs| - 1].End()) && bs[|bs| - 1].End() <= base + |bytes|
    && forall k :: 0 <= k < |bs| ==> Stands(bytes, base, bs, k)
  }

  /** The check accepts such a list, from every block on, when its first back link is NULL or leads
      to a header that links forward to the first block. */
  lemma {:induction false} ChainIsAccepted(bytes: seq<Byte>, base: nat, bs: seq<Block>, k: nat)
    requires base > 0 && base + |bytes| < TWO_64 && Chain(bytes, base, bs) && k < |bs|
    requires Inside(bytes, base, base) && var p := HeaderIn(bytes, 0).prev;
             p == 0 || (Inside(bytes, base, p) && HeaderIn(bytes, p - base).next == base)
    ensures base <= bs[k].at && Accepted(bytes, base, bs[k].at - base)
    ensures base + ListEnd(bytes, base, bs[k].at - base) == bs[|bs| - 1].End()
    decreases |bs| - k
  {
    hide HeaderIn;
    BlockStands(bytes, base, bs, k);
    if k > 0 {
      BlockStands(bytes, base, bs, k - 1);
    }
    if k + 1 < |bs| {
      BlockStands(bytes, base, bs, k + 1);
      ChainIsAccepted(bytes, base, bs, k + 1);
    }
  }

  lemma BlockStands(bytes: seq<Byte>, base: nat, bs: seq<Block>, k: nat)
    requires Chain(bytes, base, bs) && k < |bs|
    ensures Inside(bytes, base, bs[k].at) && bs[k].End() <= base + |bytes| && bs[k].size >= HEADER
    ensures k + 1 < |bs| ==> bs[k + 1].at == bs[k].End()
    ensures k == 0 ==> bs[k].at == base
    ensures var h := HeaderIn(bytes, bs[k].at - base);
            h == if k == 0 then HeaderOf(bs, 0).(prev := h.prev) else HeaderOf(bs, k)
  {
    hide HeaderIn;
    TilesWithin(bs, base, bs[|bs| - 1].End(), k);
    assert Stands(bytes, base, bs, k);
  }

  /** The check accepts exactly the lists that are linked in both directions and end within the
      heap, and whose first back link is NULL or leads to a header that links back. */
  lemma AcceptedIff(bytes: seq<Byte>, base: nat)
    requires base > 0 && base + |bytes| < TWO_64 && Followable(bytes, base, 0)
    ensures CheckFrom(bytes, base, 0) == 0
            <==> (exists bs :: Chain(bytes, base, bs))
                 && var p := HeaderIn(bytes, 0).prev;
                    p == 0 || (Inside(bytes, base, p) && HeaderIn(bytes, p - base).next == base)
  {
    hide HeaderIn, Stands;
    if CheckFrom(bytes, base, 0) == 0 {
      var bs := AcceptedIsChain(bytes, base, 0);
      LastBlockEnds(bs, base, base + ListEnd(bytes, base, 0));
      assert Chain(bytes, base, bs);
    }
    if bs :| Chain(bytes, base, bs) {
      var p := HeaderIn(bytes, 0).prev;
      if p == 0 || (Inside(bytes, base, p) && HeaderIn(bytes, p - base).next == base) {
        ChainIsAccepted(bytes, base, bs, 0);
      }
    }
  }

  lemma LastBlockEnds(bs: seq<Block>, lo: nat, hi: nat)
    requires Tiles(bs, lo, hi) && |bs| > 0
    ensures bs[|bs| - 1].End() == hi
  {
  }

  /** The block at offset o passes every test, and the next one begins where it ends, at o'. */
  ghost predicate Passes(bytes: seq<Byte>, base: nat, o: nat, o': nat) {
    && o + HEADER <= o' && o' + HEADER <= |bytes|
    && var h := HeaderIn(bytes, o);
       && o' == o + h.size && h.next == base + o' != 0 && HeaderIn(bytes, o').prev == base + o
       && (h.prev != 0 ==> Inside(bytes, base, h.prev) && HeaderIn(bytes, h.prev - base).next == base + o)
  }

  /** Every answer of the check. It passes blocks that lie one behind the other and are linked in
      both directions, and its answer says which test the last one fails, the tests before it
      being passed, or that there is no further block. */
  lemma {:induction false} AnswerMeaning(bytes: seq<Byte>, base: nat, off: nat) returns (offs: seq<nat>)
    requires Followable(bytes, base, off)
    ensures |offs| > 0 && offs[0] == off && forall k :: 0 <= k < |offs| ==> offs[k] + HEADER <= |bytes|
    ensures forall k :: 0 <= k < |offs| - 1 ==> Passes(bytes, base, offs[k], offs[k + 1])
    ensures var o, r := offs[|offs| - 1], CheckFrom(bytes, base, off);
            var h := HeaderIn(bytes, o);
            && (r == -2 <==> h.size < HEADER)
            && (r == -3 <==> h.size >= HEADER && o + h.size > |bytes|)
            && (h.size >= HEADER && o + h.size <= |bytes| ==>
                 && (h.next != 0 ==> Inside(bytes, base, h.next))
                 && (h.prev != 0 ==> Inside(bytes, base, h.prev))
                 && var forward, backward := h.next == 0 || HeaderIn(bytes, h.next - base).prev == base + o,
                                             h.prev == 0 || HeaderIn(bytes, h.prev - base).next == base + o;
                    && (r == -4 <==> !forward)
                    && (r == -5 <==> forward && !backward)
                    && (r == -1 <==> forward && backward && h.next != 0 && h.next != base + o + h.size)
                    && (r == 0 <==> forward && backward && h.next == 0))
            && -5 <= r <= 0
    decreases |bytes| - off
  {
    hide HeaderIn;
    var h := HeaderIn(bytes, off);
    if CheckHere(bytes, base, off) == 0 && h.next != 0 && h.next == base + off + h.size {
      var rest := AnswerMeaning(bytes, base, off + h.size);
      offs := [off] + rest;
      assert Passes(bytes, base, off, off + h.size);
      forall k | 0 <= k < |offs| - 1
        ensures Passes(bytes, base, offs[k], offs[k + 1])
      {
        if k > 0 {
          assert offs[k] == rest[k - 1] && offs[k + 1] == rest[k - 1 + 1];
        }
      }
    } else {
      offs := [off];
    }
  }

  /** The check accepts the list of a tiling, from every block on. */
  lemma LinkedIsAccepted(bytes: seq<Byte>, base: nat, bs: seq<Block>, k: nat)
    requires base > 0 && base + |bytes| < TWO_64 && Linked(bytes, base, bs) && k < |bs|
    ensures base <= bs[k].at && Accepted(bytes, base, bs[k].at - base)
    ensures ListEnd(bytes, base, bs[k].at - base) == |bytes|
  {
    hide HeaderIn;
    forall j | 0 <= j < |bs|
      ensures Stands(bytes, base, bs, j)
    {
      HeaderInPlace(bytes, base, bs, j);
    }
    LastBlockEnds(bs, base, base + |bytes|);
    HeaderInPlace(bytes, base, bs, 0);
    ChainIsAccepted(bytes, base, bs, k);
  }

  lemma HeaderInPlace(bytes: seq<Byte>, base: nat, bs: seq<Block>, k: nat)
    requires Linked(bytes, base, bs) && k < |bs|
    ensures Inside(bytes, base, bs[k].at) && bs[k].End() <= base + |bytes|
    ensures HeaderIn(bytes, bs[k].at - base) == HeaderOf(bs, k)
  {
    TilesWithin(bs, base, base + |bytes|, k);
    assert HeaderAt(bytes, base, bs, k) == HeaderOf(bs, k);
  }

  lemma ChainIsLinked(bytes: seq<Byte>, base: nat, bs: seq<Block>)
    requires Tiles(bs, base, base + |bytes|) && forall k :: 0 <= k < |bs| ==> Stands(bytes, base, bs, k)
    requires HEADER <= |bytes| && HeaderIn(bytes, 0).prev == 0
    ensures Linked(bytes, base, bs)
  {
    hide HeaderIn;
    forall k | 0 <= k < |bs|
      ensures HeaderAt(bytes, base, bs, k) == HeaderOf(bs, k)
    {
      assert Stands(bytes, base, bs, k);
    }
  }

  /** The heap holds a list that tiles all of it exactly when the check accepts, the first block
      has no back link, and the list does not end early. The check alone misses the last two. */
  lemma CheckIsExactIff(bytes: seq<Byte>, base: nat)
    requires base > 0 && base + |bytes| < TWO_64 && Followable(bytes, base, 0)
    ensures (exists bs :: Linked(bytes, base, bs))
            <==> CheckFrom(bytes, base, 0) == 0 && HeaderIn(bytes, 0).prev == 0 && ListEnd(bytes, base, 0) == |bytes|
  {
    hide HeaderIn, Linked, Stands;
    if bs :| Linked(bytes, base, bs) {
      LinkedTiles(bytes, base, bs);
      LinkedIsAccepted(bytes, base, bs, 0);
      HeaderInPlace(bytes, base, bs, 0);
    }
    if CheckFrom(bytes, base, 0) == 0 && HeaderIn(bytes, 0).prev == 0 && ListEnd(bytes, base, 0) == |bytes| {
      var bs := AcceptedIsChain(bytes, base, 0);
      ChainIsLinked(bytes, base, bs);
    }
  }

  // ---------- heaps that the check gets wrong ----------

  function ZeroBytes(n: nat): (z: seq<Byte>)
    ensures |z| == n
  {
    seq(n, _ => 0)
  }

  /** A first header without a successor passes when its size fits and its back link, if any,
      leads to a header that links back to it. */
  lemma LoneHeaderIsAccepted(bytes: seq<Byte>, base: nat, h: Header)
    requires HEADER <= |bytes| < TWO_64 && HeaderIn(bytes, 0) == h && h.next == 0 && HEADER <= h.size <= |bytes|
    requires h.prev != 0 ==> Inside(bytes, base, h.prev) && HeaderIn(bytes, h.prev - base).next == base
    ensures Accepted(bytes, base, 0) && ListEnd(bytes, base, 0) == h.size
  {
    hide HeaderIn;
  }

  /** The two things the check does not look at. */
  lemma NotATiling(bytes: seq<Byte>, base: nat)
    requires base > 0 && base + |bytes| < TWO_64 && Accepted(bytes, base, 0)
    requires HeaderIn(bytes, 0).prev != 0 || ListEnd(bytes, base, 0) != |bytes|
    ensures forall bs :: !Linked(bytes, base, bs)
  {
    hide HeaderIn, Linked, ListEnd;
    CheckIsExactIff(bytes, base);
  }

  /** A list that ends half way: the check accepts it, but no list tiles the heap. */
  lemma ShortListIsAccepted(base: nat) returns (bytes: seq<Byte>)
    requires 0 < base && base + 50 < TWO_64
    ensures |bytes| == 50 && Accepted(bytes, base, 0) && forall bs :: !Linked(bytes, base, bs)
  {
    hide Linked, HeaderIn, Encode, Accepted, ListEnd;
    var h := Header(25, false, 0, 0);
    bytes := Encode(h) + ZeroBytes(25);
    EncodedIsThere([], h, ZeroBytes(25));
    assert [] + Encode(h) + ZeroBytes(25) == bytes;
    LoneHeaderIsAccepted(bytes, base, h);
    NotATiling(bytes, base);
  }

  /** A single block over the whole heap with a back link to a header inside its payload that
      links forward to it: accepted too. */
  lemma FirstBackLinkIsAccepted(base: nat) returns (bytes: seq<Byte>)
    requires 0 < base && base + 50 < TWO_64
    ensures |bytes| == 50 && Accepted(bytes, base, 0) && HeaderIn(bytes, 0).prev != 0
    ensures ListEnd(bytes, base, 0) == |bytes| && forall bs :: !Linked(bytes, base, bs)
  {
    hide Linked, HeaderIn, Encode, Accepted, ListEnd;
    var h, inner := Header(50, false, 0, base + 25), Header(0, false, base, 0);
    bytes := Encode(h) + Encode(inner);
    EncodedIsThere([], h, Encode(inner));
    assert [] + Encode(h) + Encode(inner) == bytes;
    EncodedIsThere(Encode(h), inner, []);
    assert Encode(h) + Encode(inner) + [] == bytes;
    LoneHeaderIsAccepted(bytes, base, h);
    NotATiling(bytes, base);
  }

  lemma EncodedIsThere(before: seq<Byte>, h: Header, after: seq<Byte>)
    requires h.Fits()
    ensures HeaderIn(before + Encode(h) + after, |before|) == h
  {
    HeaderRoundTrip(h);
    var bytes := before + Encode(h) + after;
    assert bytes[|before|..|before| + HEADER] == Encode(h);
  }

  // ---------- what a size below a header does ----------

  /** Two linked lists agree on the place of block k when the bytes below it are the same. */
  lemma {:induction false} SamePlace(bytes: seq<Byte>, bytes': seq<Byte>, base: nat, bs: seq<Block>, cs: seq<Block>, k: nat)
    requires base > 0 && Linked(bytes, base, bs) && Linked(bytes', base, cs) && k < |bs|
    requires base <= bs[k].at && bs[k].at - base <= |bytes| && bs[k].at - base <= |bytes'|
    requires bytes'[..bs[k].at - base] == bytes[..bs[k].at - base]
    ensures k < |cs| && cs[k].at == bs[k].at
  {
    hide HeaderIn;
    if k > 0 {
      HeaderInPlace(bytes, base, bs, k - 1);
      var off, end := bs[k - 1].at - base, bs[k].at - base;
      assert bs[k].at == bs[k - 1].End() && bs[k - 1].size >= HEADER;
      SamePrefix(bytes, bytes', off, end);
      SamePlace(bytes, bytes', base, bs, cs, k - 1);
      SameHeaderBelow(bytes, bytes', off, end);
      HeaderInPlace(bytes', base, cs, k - 1);
    }
  }

  lemma SamePrefix(bytes: seq<Byte>, bytes': seq<Byte>, off: nat, end: nat)
    requires off <= end <= |bytes| && end <= |bytes'| && bytes'[..end] == bytes[..end]
    ensures bytes'[..off] == bytes[..off]
  {
    assert bytes[..off] == bytes[..end][..off] && bytes'[..off] == bytes'[..end][..off];
  }

  lemma SameHeaderBelow(bytes: seq<Byte>, bytes': seq<Byte>, off: nat, end: nat)
    requires off + HEADER <= end <= |bytes| && end <= |bytes'| && bytes'[..end] == bytes[..end]
    ensures HeaderIn(bytes', off) == HeaderIn(bytes, off)
  {
    assert bytes[off..off + HEADER] == bytes[..end][off..off + HEADER];
    assert bytes'[off..off + HEADER] == bytes'[..end][off..off + HEADER];
  }

  /** Once the size of a block of the list is stored as less than a header, with the bytes below
      it in place, no list tiles the heap any more, whatever stands above. */
  lemma SmallSizeBreaksList(bytes: seq<Byte>, bytes': seq<Byte>, base: nat, bs: seq<Block>, k: nat)
    requires base > 0 && Linked(bytes, base, bs) && k < |bs| && |bytes'| == |bytes|
    requires base <= bs[k].at && bs[k].at - base + HEADER <= |bytes|
    requires bytes'[..bs[k].at - base] == bytes[..bs[k].at - base]
    requires HeaderIn(bytes', bs[k].at - base).size < HEADER
    ensures forall cs :: !Linked(bytes', base, cs)
  {
    hide HeaderIn;
    forall cs | Linked(bytes', base, cs)
      ensures false
    {
      SamePlace(bytes, bytes', base, bs, cs, k);
      HeaderInPlace(bytes', base, cs, k);
    }
  }
}
