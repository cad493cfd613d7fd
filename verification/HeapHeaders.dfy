/** Block headers as the 25 packed bytes they occupy inside the heap. */
module HeapHeaders {
  import opened MachineInts
  import opened HeapBlocks

  /** size, used, next and prev; addresses are absolute and 0 is NULL. */
  datatype Header = Header(size: nat, used: bool, next: nat, prev: nat) {
    ghost predicate Fits() {
      size < TWO_64 && next < TWO_64 && prev < TWO_64
    }
  }

  /** The k low bytes of n, least significant first. */
  function LittleEndian(n: nat, k: nat): (s: seq<Byte>)
    ensures |s| == k
  {
    if k == 0 then [] else [n % 256] + LittleEndian(n / 256, k - 1)
  }

  function FromLittleEndian(s: seq<Byte>): nat {
    if s == [] then 0 else s[0] + 256 * FromLittleEndian(s[1..])
  }

  lemma {:induction false} NumberRoundTrip(n: nat, k: nat)
    requires n < Pow256(k)
    ensures FromLittleEndian(LittleEndian(n, k)) == n
  {
    if k > 0 {
      NumberRoundTrip(n / 256, k - 1);
      assert LittleEndian(n, k)[1..] == LittleEndian(n / 256, k - 1);
    }
  }

  lemma ByteDown(n: nat, p: nat)
    requires p > 0
    ensures n / 256 / p == n / (256 * p)
  {
    var q, r := n / 256 / p, n / 256 % p;
    QuotientAndRest(n / 256, p);
    TimesByte(q, p);
    ModIs(n, 256 * p, q, 256 * r + n % 256);
  }

  lemma QuotientAndRest(a: nat, p: nat)
    requires p > 0
    ensures a == a / p * p + a % p && a % p < p
  {
  }

  lemma TimesByte(q: nat, p: nat)
    ensures q * (256 * p) == 256 * (q * p)
  {
  }

  lemma {:induction false} LittleEndianByte(n: nat, k: nat, i: nat)
    requires i < k
    ensures LittleEndian(n, k)[i] == n / Pow256(i) % 256
  {
    if i > 0 {
      LittleEndianByte(n / 256, k - 1, i - 1);
      ByteDown(n, Pow256(i - 1));
    }
  }

  function Encode(h: Header): (s: seq<Byte>)
    ensures |s| == HEADER
  {
    LittleEndian(h.size, 8) + [if h.used then 1 else 0] + LittleEndian(h.next, 8) + LittleEndian(h.prev, 8)
  }

  function Decode(s: seq<Byte>): Header
    requires |s| == HEADER
  {
    Header(FromLittleEndian(s[..8]), s[8] != 0, FromLittleEndian(s[9..17]), FromLittleEndian(s[17..]))
  }

  /** Where the fields lie: size from byte 0, used at 8, next from 9 and prev from 17, each number
      with its lowest byte first. */
  lemma HeaderLayout(h: Header)
    ensures var s := Encode(h);
            && s[8] == (if h.used then 1 else 0)
            && forall i :: 0 <= i < 8 ==>
                 && s[i] == h.size / Pow256(i) % 256 && s[9..][i] == h.next / Pow256(i) % 256
                 && s[17..][i] == h.prev / Pow256(i) % 256
  {
    hide LittleEndian;
    var s := Encode(h);
    forall i | 0 <= i < 8
      ensures s[i] == h.size / Pow256(i) % 256 && s[9..][i] == h.next / Pow256(i) % 256
      ensures s[17..][i] == h.prev / Pow256(i) % 256
    {
      LittleEndianByte(h.size, 8, i);
      LittleEndianByte(h.next, 8, i);
      LittleEndianByte(h.prev, 8, i);
    }
  }

  lemma HeaderRoundTrip(h: Header)
    requires h.Fits()
    ensures Decode(Encode(h)) == h
  {
    Pow256Of8();
    NumberRoundTrip(h.size, 8);
    NumberRoundTrip(h.next, 8);
    NumberRoundTrip(h.prev, 8);
    var s := Encode(h);
    assert s[..8] == LittleEndian(h.size, 8) && s[9..17] == LittleEndian(h.next, 8) && s[17..] == LittleEndian(h.prev, 8);
  }

  /** The header at offset `off` of the heap bytes. */
  function HeaderIn(bytes: seq<Byte>, off: nat): Header
    requires off + HEADER <= |bytes|
  {
    Decode(bytes[off..off + HEADER])
  }

  /** The heap bytes after a header is stored. */
  function Stored(bytes: seq<Byte>, off: nat, h: Header): (r: seq<Byte>)
    requires off + HEADER <= |bytes|
    ensures |r| == |bytes|
  {
    bytes[..off] + Encode(h) + bytes[off + HEADER..]
  }

  /** A stored header reads back, and nothing outside its 25 bytes changes. */
  lemma StoreEffect(bytes: seq<Byte>, off: nat, h: Header)
    requires off + HEADER <= |bytes| && h.Fits()
    ensures HeaderIn(Stored(bytes, off, h), off) == h
    ensures forall b: nat :: b + HEADER <= |bytes| && (b + HEADER <= off || off + HEADER <= b) ==>
              HeaderIn(Stored(bytes, off, h), b) == HeaderIn(bytes, b)
    ensures forall x :: 0 <= x < |bytes| && !(off <= x < off + HEADER) ==> Stored(bytes, off, h)[x] == bytes[x]
  {
    var r := Stored(bytes, off, h);
    HeaderRoundTrip(h);
    assert r[off..off + HEADER] == Encode(h);
    forall b: nat | b + HEADER <= |bytes| && (b + HEADER <= off || off + HEADER <= b)
      ensures HeaderIn(r, b) == HeaderIn(bytes, b)
    {
      assert r[b..b + HEADER] == bytes[b..b + HEADER];
    }
  }

  // ---------- the linked list that a tiling prescribes ----------

  /** The header that block k must have. */
  ghost function HeaderOf(bs: seq<Block>, k: nat): Header
    requires k < |bs|
  {
    Header(bs[k].size, bs[k].used, if k + 1 < |bs| then bs[k + 1].at else 0, if k > 0 then bs[k - 1].at else 0)
  }

  /** What stands at the header address of every block of a tiling of the whole heap. */
  ghost function HeadersIn(bytes: seq<Byte>, base: nat, bs: seq<Block>): (hs: seq<Header>)
    requires Tiles(bs, base, base + |bytes|)
    ensures |hs| == |bs|
  {
    seq(|bs|, k requires 0 <= k < |bs| => HeaderAt(bytes, base, bs, k))
  }

  ghost function HeaderAt(bytes: seq<Byte>, base: nat, bs: seq<Block>, k: nat): Header
    requires Tiles(bs, base, base + |bytes|) && k < |bs|
  {
    TilesWithin(bs, base, base + |bytes|, k);
    HeaderIn(bytes, bs[k].at - base)
  }

  /** Every block has its header in the heap bytes: the doubly linked list is the tiling. */
  ghost predicate Linked(bytes: seq<Byte>, base: nat, bs: seq<Block>) {
    Tiles(bs, base, base + |bytes|) && forall k :: 0 <= k < |bs| ==> HeaderAt(bytes, base, bs, k) == HeaderOf(bs, k)
  }

  /** The payload bytes of all blocks of U are the same in both heaps. */
  ghost predicate KeepsPayloads(bytes: seq<Byte>, bytes': seq<Byte>, base: nat, U: set<Block>) {
    && |bytes'| == |bytes|
    && forall b, x :: b in U && base <= x < base + |bytes| && InPayload(b, x) ==> bytes'[x - base] == bytes[x - base]
  }

  /** Storing a header at the place of block j replaces header j and no other. */
  lemma StoreAtBlock(bytes: seq<Byte>, base: nat, bs: seq<Block>, j: nat, h: Header)
    requires Tiles(bs, base, base + |bytes|) && j < |bs| && h.Fits()
    ensures base <= bs[j].at && bs[j].at - base + HEADER <= |bytes|
    ensures HeadersIn(Stored(bytes, bs[j].at - base, h), base, bs) == HeadersIn(bytes, base, bs)[j := h]
  {
    TilesWithin(bs, base, base + |bytes|, j);
    var r := Stored(bytes, bs[j].at - base, h);
    StoreEffect(bytes, bs[j].at - base, h);
    forall k | 0 <= k < |bs| && k != j
      ensures HeaderAt(r, base, bs, k) == HeaderAt(bytes, base, bs, k)
    {
      TilesWithin(bs, base, base + |bytes|, k);
      if k < j {
        TilesAreOrdered(bs, base, base + |bytes|, k, j);
      } else {
        TilesAreOrdered(bs, base, base + |bytes|, j, k);
      }
    }
  }

  /** A header store touches no payload of a block in use, when it goes to a block's header or into a free block. */
  lemma StoreKeepsPayloads(bytes: seq<Byte>, base: nat, bs: seq<Block>, j: nat, at: nat, h: Header)
    requires Tiles(bs, base, base + |bytes|) && j < |bs| && h.Fits()
    requires bs[j].at <= at && at + HEADER <= bs[j].End() && (at == bs[j].at || !bs[j].used)
    ensures base <= at && at - base + HEADER <= |bytes|
    ensures KeepsPayloads(bytes, Stored(bytes, at - base, h), base, UsedSet(bs))
  {
    TilesWithin(bs, base, base + |bytes|, j);
    StoreEffect(bytes, at - base, h);
    forall b, x | b in UsedSet(bs) && base <= x < base + |bytes| && InPayload(b, x)
      ensures !(at <= x < at + HEADER)
    {
      var i :| 0 <= i < |bs| && bs[i] == b;
      if i < j {
        TilesAreOrdered(bs, base, base + |bytes|, i, j);
      } else if j < i {
        TilesAreOrdered(bs, base, base + |bytes|, j, i);
      }
    }
  }

  lemma LinkedWhenHeadersAre(bytes: seq<Byte>, base: nat, bs: seq<Block>)
    requires Tiles(bs, base, base + |bytes|)
    ensures Linked(bytes, base, bs) <==> forall k :: 0 <= k < |bs| ==> HeadersIn(bytes, base, bs)[k] == HeaderOf(bs, k)
  {
    forall k | 0 <= k < |bs|
      ensures HeadersIn(bytes, base, bs)[k] == HeaderAt(bytes, base, bs, k)
    {
    }
  }

  // ---------- the three list updates ----------

  lemma MarkRelinks(bytes: seq<Byte>, base: nat, bs: seq<Block>, k: nat, used: bool)
    requires Linked(bytes, base, bs) && k < |bs| && base + |bytes| < TWO_64
    ensures HeaderOf(bs, k).Fits() && base <= bs[k].at && bs[k].at - base + HEADER <= |bytes|
    ensures var r := Stored(bytes, bs[k].at - base, HeaderOf(bs, k).(used := used));
            Linked(r, base, Mark(bs, k, used)) && KeepsPayloads(bytes, r, base, UsedSet(bs))
  {
    hide Stored, HeaderIn, HeaderAt, HeadersIn, UsedSet, KeepsPayloads, Tiles;
    HeadersFit(bytes, base, bs, k);
    var h := HeaderOf(bs, k).(used := used);
    var cs := Mark(bs, k, used);
    MarkKeepsTiles(bs, base, base + |bytes|, k, used);
    SizesAtLeastHeader(bs, base, base + |bytes|, k);
    StoreAtBlock(bytes, base, cs, k, h);
    StoreKeepsPayloads(bytes, base, bs, k, bs[k].at, h);
    LinkedWhenHeadersAre(Stored(bytes, bs[k].at - base, h), base, cs);
    forall j | 0 <= j < |cs|
      ensures HeadersIn(bytes, base, cs)[j] == HeaderOf(bs, j)
    {
      SameHeader(bytes, base, bs, j, cs, j);
    }
  }

  lemma MarkKeepsTiles(bs: seq<Block>, lo: nat, hi: nat, k: nat, used: bool)
    requires Tiles(bs, lo, hi) && k < |bs|
    ensures Tiles(Mark(bs, k, used), lo, hi)
  {
  }

  lemma HeadersFit(bytes: seq<Byte>, base: nat, bs: seq<Block>, k: nat)
    requires Tiles(bs, base, base + |bytes|) && k < |bs| && base + |bytes| < TWO_64
    ensures HeaderOf(bs, k).Fits()
  {
    TilesWithin(bs, base, base + |bytes|, k);
    if k + 1 < |bs| {
      TilesWithin(bs, base, base + |bytes|, k + 1);
    }
    if k > 0 {
      TilesWithin(bs, base, base + |bytes|, k - 1);
    }
  }

  /** A linked block keeps its header when another tiling has a block at the same address. */
  lemma SameHeader(bytes: seq<Byte>, base: nat, bs: seq<Block>, i: nat, cs: seq<Block>, j: nat)
    requires Linked(bytes, base, bs) && Tiles(cs, base, base + |bytes|)
    requires i < |bs| && j < |cs| && bs[i].at == cs[j].at
    ensures HeadersIn(bytes, base, cs)[j] == HeaderOf(bs, i)
  {
    assert HeaderAt(bytes, base, bs, i) == HeaderOf(bs, i);
  }

  /** The stores that cut block k: new header, back link of the next block, then the block itself. */
  ghost function SplitStores(bytes: seq<Byte>, base: nat, bs: seq<Block>, k: nat, total: nat): (r: seq<Byte>)
    requires Tiles(bs, base, base + |bytes|) && k < |bs| && HEADER <= total && total + HEADER <= bs[k].size
    ensures |r| == |bytes|
  {
    TilesWithin(bs, base, base + |bytes|, k);
    var at := bs[k].at + total;
    var h := HeaderOf(bs, k);
    var b1 := Stored(bytes, at - base, Header(h.size - total, false, h.next, bs[k].at));
    var b2 := BackLink(b1, base, bs, k + 1, at);
    Stored(b2, bs[k].at - base, h.(next := at, size := total))
  }

  ghost function BackLink(bytes: seq<Byte>, base: nat, bs: seq<Block>, k: nat, prev: nat): (r: seq<Byte>)
    requires Tiles(bs, base, base + |bytes|)
    ensures |r| == |bytes|
  {
    if k < |bs| then
      TilesWithin(bs, base, base + |bytes|, k);
      Stored(bytes, bs[k].at - base, HeaderIn(bytes, bs[k].at - base).(prev := prev))
    else bytes
  }

  lemma BackLinkEffect(bytes: seq<Byte>, base: nat, bs: seq<Block>, k: nat, prev: nat, cs: seq<Block>, j: nat, h: Header)
    requires Tiles(bs, base, base + |bytes|) && Tiles(cs, base, base + |bytes|) && prev < TWO_64
    requires k < |bs| ==> j < |cs| && cs[j].at == bs[k].at && HeadersIn(bytes, base, cs)[j] == h && h.Fits()
    ensures HeadersIn(BackLink(bytes, base, bs, k, prev), base, cs)
            == if k < |bs| then HeadersIn(bytes, base, cs)[j := h.(prev := prev)] else HeadersIn(bytes, base, cs)
    ensures KeepsPayloads(bytes, BackLink(bytes, base, bs, k, prev), base, UsedSet(bs))
  {
    if k < |bs| {
      assert HeaderAt(bytes, base, cs, j) == h;
      StoreAtBlock(bytes, base, cs, j, h.(prev := prev));
      StoreKeepsPayloads(bytes, base, bs, k, bs[k].at, h.(prev := prev));
    }
  }

  lemma SplitRelinks(bytes: seq<Byte>, base: nat, bs: seq<Block>, k: nat, total: nat)
    requires Linked(bytes, base, bs) && base + |bytes| < TWO_64
    requires k < |bs| && !bs[k].used && HEADER <= total && total + HEADER <= bs[k].size
    ensures Linked(SplitStores(bytes, base, bs, k, total), base, SplitAt(bs, k, total))
    ensures KeepsPayloads(bytes, SplitStores(bytes, base, bs, k, total), base, UsedSet(bs))
  {
    hide HeaderAt, SplitAt, HeadersIn, SplitStores, HeaderOf, KeepsPayloads, Tiles, UsedSet;
    var cs, r := SplitAt(bs, k, total), SplitStores(bytes, base, bs, k, total);
    SplitHeaders(bytes, base, bs, k, total);
    LinkedWhenHeadersAre(r, base, cs);
    forall j | 0 <= j < |cs|
      ensures HeadersIn(r, base, cs)[j] == HeaderOf(cs, j)
    {
      SplitHeaderOf(bs, k, total, j);
      if j < k || j > k + 1 {
        SameHeader(bytes, base, bs, if j < k then j else j - 1, cs, j);
      }
    }
  }

  lemma SplitHeaderOf(bs: seq<Block>, k: nat, total: nat, j: nat)
    requires k < |bs| && total <= bs[k].size && !bs[k].used && j <= |bs|
    ensures |SplitAt(bs, k, total)| == |bs| + 1
    ensures HeaderOf(SplitAt(bs, k, total), j) ==
              if j < k then HeaderOf(bs, j)
              else if j == k then HeaderOf(bs, k).(next := bs[k].at + total, size := total)
              else if j == k + 1 then Header(bs[k].size - total, false, HeaderOf(bs, k).next, bs[k].at)
              else if j == k + 2 then HeaderOf(bs, k + 1).(prev := bs[k].at + total)
              else HeaderOf(bs, j - 1)
    ensures j < k ==> SplitAt(bs, k, total)[j].at == bs[j].at
    ensures j > k + 1 ==> SplitAt(bs, k, total)[j].at == bs[j - 1].at
    ensures HeaderOf(bs, k).size == bs[k].size
  {
    hide SplitAt;
    SplitIs(bs, k, total);
  }

  lemma SplitHeaders(bytes: seq<Byte>, base: nat, bs: seq<Block>, k: nat, total: nat)
    requires Linked(bytes, base, bs) && base + |bytes| < TWO_64
    requires k < |bs| && !bs[k].used && HEADER <= total && total + HEADER <= bs[k].size
    ensures Tiles(SplitAt(bs, k, total), base, base + |bytes|) && |SplitAt(bs, k, total)| == |bs| + 1
    ensures var cs, r, at, h := SplitAt(bs, k, total), SplitStores(bytes, base, bs, k, total), bs[k].at + total, HeaderOf(bs, k);
            var hs := HeadersIn(bytes, base, cs)[k + 1 := Header(h.size - total, false, h.next, bs[k].at)];
            var hs' := if k + 1 < |bs| then hs[k + 2 := HeaderOf(bs, k + 1).(prev := at)] else hs;
            HeadersIn(r, base, cs) == hs'[k := h.(next := at, size := total)]
    ensures KeepsPayloads(bytes, SplitStores(bytes, base, bs, k, total), base, UsedSet(bs))
  {
    hide Stored, HeaderIn, HeaderAt, SplitAt, BackLink, HeadersIn, Tiles, UsedSet, Linked;
    var cs := SplitAt(bs, k, total);
    var lo, hi := base, base + |bytes|;
    assert Tiles(bs, lo, hi) by { LinkedTiles(bytes, base, bs); }
    SplitIs(bs, k, total);
    SplitKeepsTiles(bs, lo, hi, k, total);
    TilesWithin(bs, lo, hi, k);
    HeadersFit(bytes, base, bs, k);
    var at := bs[k].at + total;
    var h := HeaderOf(bs, k);
    var h1, h3 := Header(h.size - total, false, h.next, bs[k].at), h.(next := at, size := total);
    StoreAtBlock(bytes, base, cs, k + 1, h1);
    StoreKeepsPayloads(bytes, base, bs, k, at, h1);
    var b1 := Stored(bytes, at - base, h1);
    if k + 1 < |bs| {
      NextIsAdjacent(bs, lo, hi, k);
      SameHeader(bytes, base, bs, k + 1, cs, k + 2);
      HeadersFit(bytes, base, bs, k + 1);
      BackLinkEffect(b1, base, bs, k + 1, at, cs, k + 2, HeaderOf(bs, k + 1));
    } else {
      BackLinkEffect(b1, base, bs, k + 1, at, cs, 0, h);
    }
    var b2 := BackLink(b1, base, bs, k + 1, at);
    StoreAtBlock(b2, base, cs, k, h3);
    StoreKeepsPayloads(b2, base, bs, k, bs[k].at, h3);
    KeepsTwice(bytes, b1, b2, base, UsedSet(bs));
    KeepsTwice(bytes, b2, Stored(b2, bs[k].at - base, h3), base, UsedSet(bs));
  }

  lemma LinkedTiles(bytes: seq<Byte>, base: nat, bs: seq<Block>)
    requires Linked(bytes, base, bs)
    ensures Tiles(bs, base, base + |bytes|)
  {
  }

  lemma NextIsAdjacent(bs: seq<Block>, lo: nat, hi: nat, k: nat)
    requires Tiles(bs, lo, hi) && k + 1 < |bs|
    ensures bs[k + 1].at == bs[k].End()
  {
  }

  lemma KeepsTwice(a: seq<Byte>, b: seq<Byte>, c: seq<Byte>, base: nat, U: set<Block>)
    requires KeepsPayloads(a, b, base, U) && KeepsPayloads(b, c, base, U)
    ensures KeepsPayloads(a, c, base, U)
  {
  }

  /** The stores by which block k takes over the next one: its own header, then the back link after it. */
  ghost function MergeStores(bytes: seq<Byte>, base: nat, bs: seq<Block>, k: nat): (r: seq<Byte>)
    requires Tiles(bs, base, base + |bytes|) && k + 1 < |bs|
    ensures |r| == |bytes|
  {
    TilesWithin(bs, base, base + |bytes|, k);
    var h, n := HeaderOf(bs, k), HeaderOf(bs, k + 1);
    var b1 := Stored(bytes, bs[k].at - base, h.(size := h.size + n.size, next := n.next));
    BackLink(b1, base, bs, k + 2, bs[k].at)
  }

  lemma MergeRelinks(bytes: seq<Byte>, base: nat, bs: seq<Block>, k: nat)
    requires Linked(bytes, base, bs) && base + |bytes| < TWO_64
    requires k + 1 < |bs| && !bs[k].used && !bs[k + 1].used
    ensures Linked(MergeStores(bytes, base, bs, k), base, MergeNext(bs, k))
    ensures KeepsPayloads(bytes, MergeStores(bytes, base, bs, k), base, UsedSet(bs))
  {
    hide HeaderAt, MergeNext, HeadersIn, MergeStores, HeaderOf, KeepsPayloads, Tiles, UsedSet;
    var cs, r := MergeNext(bs, k), MergeStores(bytes, base, bs, k);
    MergeHeaders(bytes, base, bs, k);
    LinkedWhenHeadersAre(r, base, cs);
    forall j | 0 <= j < |cs|
      ensures HeadersIn(r, base, cs)[j] == HeaderOf(cs, j)
    {
      MergeHeaderOf(bs, k, j);
      if j != k {
        SameHeader(bytes, base, bs, if j < k then j else j + 1, cs, j);
      }
    }
  }

  lemma MergeHeaderOf(bs: seq<Block>, k: nat, j: nat)
    requires k + 1 < |bs| && j < |bs| - 1
    ensures |MergeNext(bs, k)| == |bs| - 1
    ensures HeaderOf(MergeNext(bs, k), j) ==
              if j < k then HeaderOf(bs, j)
              else if j == k then
                HeaderOf(bs, k).(size := HeaderOf(bs, k).size + HeaderOf(bs, k + 1).size, next := HeaderOf(bs, k + 1).next)
              else if j == k + 1 then HeaderOf(bs, k + 2).(prev := bs[k].at)
              else HeaderOf(bs, j + 1)
    ensures MergeNext(bs, k)[j].at == bs[if j <= k then j else j + 1].at
  {
    hide MergeNext;
    MergeIs(bs, k);
  }

  lemma MergeHeaders(bytes: seq<Byte>, base: nat, bs: seq<Block>, k: nat)
    requires Linked(bytes, base, bs) && base + |bytes| < TWO_64
    requires k + 1 < |bs| && !bs[k].used && !bs[k + 1].used
    ensures Tiles(MergeNext(bs, k), base, base + |bytes|) && |MergeNext(bs, k)| == |bs| - 1
    ensures var cs, r, h, n := MergeNext(bs, k), MergeStores(bytes, base, bs, k), HeaderOf(bs, k), HeaderOf(bs, k + 1);
            var hs := HeadersIn(bytes, base, cs)[k := h.(size := h.size + n.size, next := n.next)];
            HeadersIn(r, base, cs) == if k + 2 < |bs| then hs[k + 1 := HeaderOf(bs, k + 2).(prev := bs[k].at)] else hs
    ensures KeepsPayloads(bytes, MergeStores(bytes, base, bs, k), base, UsedSet(bs))
  {
    hide Stored, HeaderIn, HeaderAt, MergeNext, BackLink, HeadersIn, Tiles, UsedSet, Linked;
    var cs := MergeNext(bs, k);
    var lo, hi := base, base + |bytes|;
    assert Tiles(bs, lo, hi) by { LinkedTiles(bytes, base, bs); }
    MergeIs(bs, k);
    MergeKeepsTiles(bs, lo, hi, k);
    TilesWithin(bs, lo, hi, k);
    NextIsAdjacent(bs, lo, hi, k);
    HeadersFit(bytes, base, bs, k);
    HeadersFit(bytes, base, bs, k + 1);
    TilesWithin(cs, lo, hi, k);
    SizesAtLeastHeader(bs, lo, hi, k);
    var h, n := HeaderOf(bs, k), HeaderOf(bs, k + 1);
    var h1 := h.(size := h.size + n.size, next := n.next);
    StoreAtBlock(bytes, base, cs, k, h1);
    StoreKeepsPayloads(bytes, base, bs, k, bs[k].at, h1);
    var b1 := Stored(bytes, bs[k].at - base, h1);
    if k + 2 < |bs| {
      SameHeader(bytes, base, bs, k + 2, cs, k + 1);
      HeadersFit(bytes, base, bs, k + 2);
      BackLinkEffect(b1, base, bs, k + 2, bs[k].at, cs, k + 1, HeaderOf(bs, k + 2));
    } else {
      BackLinkEffect(b1, base, bs, k + 2, bs[k].at, cs, 0, h);
    }
    KeepsTwice(bytes, b1, BackLink(b1, base, bs, k + 2, bs[k].at), base, UsedSet(bs));
  }

  lemma SizesAtLeastHeader(bs: seq<Block>, lo: nat, hi: nat, k: nat)
    requires Tiles(bs, lo, hi) && k < |bs|
    ensures bs[k].size >= HEADER
  {
  }

  /** Writing inside the payload of one block disturbs no header and no other payload. */
  lemma PayloadWrite(bytes: seq<Byte>, bytes': seq<Byte>, base: nat, bs: seq<Block>, k: nat)
    requires Linked(bytes, base, bs) && k < |bs| && |bytes'| == |bytes|
    requires forall x :: 0 <= x < |bytes| && !InPayload(bs[k], base + x) ==> bytes'[x] == bytes[x]
    ensures Linked(bytes', base, bs) && KeepsPayloads(bytes, bytes', base, UsedSet(bs) - {bs[k]})
  {
    forall j | 0 <= j < |bs|
      ensures HeaderAt(bytes', base, bs, j) == HeaderAt(bytes, base, bs, j)
    {
      TilesWithin(bs, base, base + |bytes|, j);
      var off := bs[j].at - base;
      forall x | off <= x < off + HEADER
        ensures bytes'[x] == bytes[x]
      {
        if InPayload(bs[k], base + x) {
          PayloadsAreDisjoint(bs, base, base + |bytes|, k, j, base + x);
        }
      }
      assert bytes'[off..off + HEADER] == bytes[off..off + HEADER];
    }
    forall b, x | b in UsedSet(bs) - {bs[k]} && base <= x < base + |bytes| && InPayload(b, x)
      ensures bytes'[x - base] == bytes[x - base]
    {
      var j :| 0 <= j < |bs| && bs[j] == b;
      PayloadsAreDisjoint(bs, base, base + |bytes|, j, k, x);
      assert base + (x - base) == x;
    }
  }
}
