/** Core-0's page-table operations over the frame allocator, proved against flat page maps. */
module Isolation {
  import opened MachineInts
  import opened Frames
  import opened PageTables

  /** A domain's address space as a client sees it: page number to entry, 0 when unmapped. */
  type FlatMap = map<nat, U64>

  function Lookup(m: FlatMap, page: nat): U64 {
    if page in m then m[page] else 0
  }

  function SetPage(m: FlatMap, page: nat, e: U64): FlatMap {
    m[page := e]
  }

  /** Mapping n pages one after the other. */
  ghost function MapPages(m: FlatMap, virt: U64, phys: U64, flags: U64, n: nat): FlatMap {
    if n == 0 then m
    else SetPage(MapPages(m, virt, phys, flags, n - 1), Page(PageAddr(virt, n - 1)), LeafEntry(PageAddr(phys, n - 1), flags))
  }

  ghost function UnmapPages(m: FlatMap, virt: U64, n: nat): FlatMap {
    if n == 0 then m else SetPage(UnmapPages(m, virt, n - 1), Page(PageAddr(virt, n - 1)), 0)
  }

  /** The address of the i-th page of a range, with 64-bit wrap-around. */
  function PageAddr(base: U64, i: nat): U64 {
    Wrap(base + i * PAGE_SIZE)
  }

  /** The flat map is what the walk finds, for every virtual address. */
  ghost predicate Agrees(mem: Memory, root: U64, m: FlatMap) {
    forall v: U64 :: Walk(mem, root, v) == Lookup(m, Page(v))
  }

  ghost predicate AllAgree(mem: Memory, roots: seq<U64>, flat: seq<FlatMap>) {
    && |roots| == |flat|
    && forall d :: 0 <= d < |roots| && roots[d] != 0 ==> Agrees(mem, roots[d], flat[d])
  }

  datatype DomainTable = DomainTable(pml4: U64, domainId: U64, capabilities: U64, flags: U32)

  /** An entry allows the access bits 0x01 (user) and 0x02 (write). */
  predicate Allows(pte: U64, access: U32) {
    Present(pte) && (BitAnd(access, 0x01) != 0 ==> Has(pte, USER)) && (BitAnd(access, 0x02) != 0 ==> Has(pte, WRITABLE))
  }

  /** The check of `VerifyAccess`: one page per 4096 bytes of size, starting at `addr`. */
  ghost predicate Verdict(m: FlatMap, addr: U64, size: U64, access: U32) {
    forall i :: 0 <= i < PagesFor(size) ==> PageAllowed(m, addr, i, access)
  }

  predicate PageAllowed(m: FlatMap, addr: U64, i: nat, access: U32) {
    Allows(Lookup(m, Page(PageAddr(addr, i))), access)
  }

  // ---------- the flat operations ----------

  /** Pages of one range are distinct up to the size of the address space. */
  lemma PagesAreDistinct(base: U64, j: nat, k: nat)
    requires Page(PageAddr(base, j)) == Page(PageAddr(base, k))
    requires j <= k < j + 0x10_0000_0000
    ensures j == k
  {
    PageOfPageAddr(base, j);
    PageOfPageAddr(base, k);
  }

  lemma PageOfPageAddr(base: U64, i: nat)
    ensures Page(PageAddr(base, i)) == (base / PAGE_SIZE + i) % 0x10_0000_0000
  {
    PageOfSum(base + i * PAGE_SIZE);
  }

  lemma PageOfSum(x: nat)
    ensures Page(Wrap(x)) == x / PAGE_SIZE % 0x10_0000_0000
  {
    var q, w := x / TWO_64, Wrap(x);
    DivShift(x, q * 0x10_0000_0000_0000, PAGE_SIZE, w);
    DivShift(x / PAGE_SIZE, q * 0x1_0000, 0x10_0000_0000, w / PAGE_SIZE);
  }

  /** Mapping at most 2^36 pages sets exactly the pages of the range. */
  lemma {:induction false} MapPagesMeaning(m: FlatMap, virt: U64, phys: U64, flags: U64, n: nat, page: nat)
    requires n <= 0x10_0000_0000
    ensures forall k :: 0 <= k < n && page == Page(PageAddr(virt, k)) ==>
              Lookup(MapPages(m, virt, phys, flags, n), page) == LeafEntry(PageAddr(phys, k), flags)
    ensures (forall k :: 0 <= k < n ==> page != Page(PageAddr(virt, k))) ==>
              Lookup(MapPages(m, virt, phys, flags, n), page) == Lookup(m, page)
  {
    hide Page, LeafEntry, PageAddr;
    if n > 0 {
      MapPagesMeaning(m, virt, phys, flags, n - 1, page);
      forall k | 0 <= k < n && page == Page(PageAddr(virt, k))
        ensures Lookup(MapPages(m, virt, phys, flags, n), page) == LeafEntry(PageAddr(phys, k), flags)
      {
        if page == Page(PageAddr(virt, n - 1)) {
          PagesAreDistinct(virt, k, n - 1);
        }
      }
    }
  }

  /** Unmapping clears exactly the pages of the range, however long. */
  lemma {:induction false} UnmapPagesMeaning(m: FlatMap, virt: U64, n: nat, page: nat)
    ensures Lookup(UnmapPages(m, virt, n), page)
            == if exists k :: 0 <= k < n && page == Page(PageAddr(virt, k)) then 0 else Lookup(m, page)
  {
    hide Page, PageAddr;
    if n > 0 {
      UnmapPagesMeaning(m, virt, n - 1, page);
    }
  }

  /** Unmapping a range undoes any mapping of it. */
  lemma UnmapUndoesMap(m: FlatMap, virt: U64, phys: U64, flags: U64, n: nat, page: nat)
    requires n <= 0x10_0000_0000
    ensures Lookup(UnmapPages(MapPages(m, virt, phys, flags, n), virt, n), page) == Lookup(UnmapPages(m, virt, n), page)
  {
    hide Page, LeafEntry, PageAddr;
    UnmapPagesMeaning(MapPages(m, virt, phys, flags, n), virt, n, page);
    UnmapPagesMeaning(m, virt, n, page);
    MapPagesMeaning(m, virt, phys, flags, n, page);
  }

  // ---------- access checks, byte by byte ----------

  /** Every byte of the range lies in a page that allows the access. */
  ghost predicate AllBytesAllowed(m: FlatMap, addr: U64, size: U64, access: U32) {
    forall k :: 0 <= k < size ==> ByteAllowed(m, addr, k, access)
  }

  ghost predicate ByteAllowed(m: FlatMap, addr: U64, k: nat, access: U32) {
    Allows(Lookup(m, Page(Wrap(addr + k))), access)
  }

  /** The range is empty, or goes round the whole address space, or ends within the last page
      that the check looks at without its size wrapping when rounded up. */
  predicate CheckCoversRange(addr: U64, size: U64) {
    || size == 0
    || PagesFor(size) >= 0x10_0000_0000
    || (size + PAGE_SIZE - 1 < TWO_64 && addr % PAGE_SIZE + (size - 1) % PAGE_SIZE < PAGE_SIZE)
  }

  lemma CoveredVerdict(m: FlatMap, addr: U64, size: U64, access: U32)
    requires CheckCoversRange(addr, size)
    ensures Verdict(m, addr, size, access) <==> AllBytesAllowed(m, addr, size, access)
  {
    hide ByteAllowed, PageAllowed, CheckCoversRange, PagesFor;
    forall k | Verdict(m, addr, size, access) && 0 <= k < size
      ensures ByteAllowed(m, addr, k, access)
    {
      CheckedByte(m, addr, size, k, access);
    }
    forall i | AllBytesAllowed(m, addr, size, access) && 0 <= i < PagesFor(size)
      ensures PageAllowed(m, addr, i, access)
    {
      FirstByte(m, addr, size, i, access);
    }
  }

  /** The page of any byte of a covered range is looked at. */
  lemma CheckedByte(m: FlatMap, addr: U64, size: U64, k: nat, access: U32)
    requires CheckCoversRange(addr, size) && Verdict(m, addr, size, access) && k < size
    ensures ByteAllowed(m, addr, k, access)
  {
    hide Allows, Page, Lookup, PageAddr, CheckCoversRange, PagesFor, Wrap;
    var x := (addr % PAGE_SIZE + k) / PAGE_SIZE;
    var i := x % 0x10_0000_0000;
    ByteOffset(addr, size, k);
    PageOfByte(addr, k);
    PageOfPageAddr(addr, i);
    DivShift(addr / PAGE_SIZE + x, x / 0x10_0000_0000, 0x10_0000_0000, addr / PAGE_SIZE + i);
    assert PageAllowed(m, addr, i, access);
  }

  /** Every page looked at contains a byte of the range. */
  lemma FirstByte(m: FlatMap, addr: U64, size: U64, i: nat, access: U32)
    requires AllBytesAllowed(m, addr, size, access) && i < PagesFor(size)
    ensures PageAllowed(m, addr, i, access)
  {
    hide Allows, Page, Lookup;
    assert i * PAGE_SIZE < size;
    assert ByteAllowed(m, addr, i * PAGE_SIZE, access);
  }

  lemma ByteOffset(addr: U64, size: U64, k: nat)
    requires CheckCoversRange(addr, size) && k < size
    ensures (addr % PAGE_SIZE + k) / PAGE_SIZE % 0x10_0000_0000 < PagesFor(size)
  {
    if PagesFor(size) < 0x10_0000_0000 {
      var o, s := addr % PAGE_SIZE, size - 1;
      assert PagesFor(size) == s / PAGE_SIZE + 1;
      assert (o + s) / PAGE_SIZE == s / PAGE_SIZE;
    }
  }

  /** A range the check does not cover: when only the pages it looks at are mapped, it passes, and
      the last byte is out of reach. */
  lemma MissedPage(m: FlatMap, addr: U64, size: U64, access: U32)
    requires !CheckCoversRange(addr, size) && m == MapPages(map[], addr, 0, 7, PagesFor(size))
    ensures size > 0 && Verdict(m, addr, size, access) && !ByteAllowed(m, addr, size - 1, access)
  {
    hide Page, Allows, PageAddr, Lookup, LeafEntry, CheckCoversRange;
    var n := PagesFor(size);
    assert n < 0x10_0000_0000 && size > 0 by { NotCovered(addr, size); }
    forall i | 0 <= i < n
      ensures PageAllowed(m, addr, i, access)
    {
      MapPagesMeaning(map[], addr, 0, 7, n, Page(PageAddr(addr, i)));
      AllowsSeven(access, i);
    }
    PageOfByte(addr, size - 1);
    forall i | 0 <= i < n
      ensures Page(Wrap(addr + (size - 1))) != Page(PageAddr(addr, i))
    {
      PageOfPageAddr(addr, i);
      LastPageIsBeyond(addr, size, i);
    }
    MapPagesMeaning(map[], addr, 0, 7, n, Page(Wrap(addr + (size - 1))));
    assert !ByteAllowed(m, addr, size - 1, access) by { NothingAllowed(Page(Wrap(addr + (size - 1))), access); }
  }

  lemma NotCovered(addr: U64, size: U64)
    requires !CheckCoversRange(addr, size)
    ensures PagesFor(size) < 0x10_0000_0000 && size > 0
  {
  }

  lemma AllowsSeven(access: U32, i: nat)
    ensures Allows(LeafEntry(PageAddr(0, i), 7), access)
  {
    hide Has, LeafEntry;
    var a := PageAddr(0, i);
    assert a % PAGE_SIZE == 0;
    LowFieldOr(a, 7);
    FlagsAre(a + 7);
    LowFieldBits(a + 7, a / PAGE_SIZE, 7);
  }

  lemma NothingAllowed(page: nat, access: U32)
    ensures !Allows(Lookup(map[], page), access)
  {
    NothingPresent();
  }

  lemma LastPageIsBeyond(addr: U64, size: U64, i: nat)
    requires !CheckCoversRange(addr, size) && i < PagesFor(size)
    ensures (addr / PAGE_SIZE + i) % 0x10_0000_0000
            != (addr / PAGE_SIZE + (addr % PAGE_SIZE + (size - 1)) / PAGE_SIZE) % 0x10_0000_0000
  {
    var o, s, n := addr % PAGE_SIZE, size - 1, PagesFor(size);
    assert n == s / PAGE_SIZE + 1;
    assert (o + s) / PAGE_SIZE == n;
  }

  lemma PageOfByte(addr: U64, k: nat)
    ensures Page(Wrap(addr + k)) == (addr / PAGE_SIZE + (addr % PAGE_SIZE + k) / PAGE_SIZE) % 0x10_0000_0000
  {
    PageOfSum(addr + k);
  }

  // ---------- frames under the tables ----------

  /** Some available frames became kernel frames; nothing else happened to any frame. */
  ghost predicate OnlyTaken(fs: seq<Frame>, fs': seq<Frame>) {
    && |fs'| == |fs|
    && forall k :: 0 <= k < |fs| ==> fs'[k] == fs[k] || (fs[k].kind.Available? && fs'[k] == Frame(Kernel, 0))
  }

  /** No frame can become a table: none is available, or frame 0 is, which the scan finds first
      and whose address reads as failure. */
  ghost predicate NoTableFrame(fs: seq<Frame>) {
    (forall k :: 0 <= k < |fs| ==> !fs[k].kind.Available?) || fs[0].kind.Available?
  }

  ghost function AvailableFrames(fs: seq<Frame>): set<nat> {
    set k: nat | 0 <= k < |fs| && fs[k].kind.Available?
  }

  /** The tables, by level and prefix, that the walks for n pages from `virt` on do not find. */
  ghost function Missing(mem: Memory, root: U64, virt: U64, n: nat): set<(nat, nat)> {
    set i: nat, l: nat | 0 <= i < n && 0 <= l < 3 && TableAt(mem, root, PageAddr(virt, i), l) == 0 ::
      (l, Prefix(PageAddr(virt, i), l))
  }

  /** Every table that a mapping needs can be had. */
  ghost predicate EnoughFrames(mem: Memory, root: U64, fs: seq<Frame>, virt: U64, n: nat) {
    || Missing(mem, root, virt, n) == {}
    || ((|fs| > 0 ==> !fs[0].kind.Available?) && |Missing(mem, root, virt, n)| <= |AvailableFrames(fs)|)
  }

  /** Tables that walks find stay where they are. */
  ghost predicate TablesStay(mem: Memory, mem': Memory, root: U64) {
    forall w: U64, l: nat {:trigger TableAt(mem', root, w, l)} ::
      l <= 3 && TableAt(mem, root, w, l) != 0 ==> TableAt(mem', root, w, l) == TableAt(mem, root, w, l)
  }

  /** The walk for a page comes to its last level. */
  ghost predicate HasTables(mem: Memory, root: U64, v: U64) {
    forall l: nat :: l < 3 ==> TableAt(mem, root, v, l) != 0
  }

  /** A table that is created is one less missing, in one frame less available. */
  lemma TableCreated(mem: Memory, mem': Memory, root: U64, fs: seq<Frame>, fs': seq<Frame>, virt: U64, n: nat, i: nat, l: nat, b: U64)
    requires i < n && l < 3 && b != 0 && TableAt(mem, root, PageAddr(virt, i), l) == 0
    requires OneTableMore(mem, mem', root, PageAddr(virt, i), l, b) && OneTableTaken(fs, fs', 0, b)
    requires !NoTableFrame(fs)
    ensures EnoughFrames(mem', root, fs', virt, n) <==> EnoughFrames(mem, root, fs, virt, n)
    ensures TablesStay(mem, mem', root)
  {
    hide PageAddr, Prefix, TableAt, Missing, AvailableFrames, OneTableMore, TablesStay;
    CreatedStay(mem, mem', root, PageAddr(virt, i), l, b);
    MissingAfterLink(mem, mem', root, virt, n, i, l, b);
    FramesAfterTable(fs, fs', b);
  }

  lemma CreatedStay(mem: Memory, mem': Memory, root: U64, v: U64, l: nat, b: U64)
    requires l < 3 && TableAt(mem, root, v, l) == 0 && OneTableMore(mem, mem', root, v, l, b)
    ensures TablesStay(mem, mem', root)
  {
    hide Prefix, TableAt;
    forall w: U64, k: nat {:trigger TableAt(mem', root, w, k)} | k <= 3 && TableAt(mem, root, w, k) != 0
      ensures TableAt(mem', root, w, k) == TableAt(mem, root, w, k)
    {
      if k == l && Prefix(w, k) == Prefix(v, l) {
        SamePath(mem, root, v, w, l);
      }
    }
  }

  lemma FramesAfterTable(fs: seq<Frame>, fs': seq<Frame>, b: U64)
    requires OneTableTaken(fs, fs', 0, b)
    ensures |AvailableFrames(fs')| == |AvailableFrames(fs)| - 1
  {
    assert AvailableFrames(fs') == AvailableFrames(fs) - {b / PAGE_SIZE};
    assert b / PAGE_SIZE in AvailableFrames(fs);
  }

  lemma MissingAfterLink(mem: Memory, mem': Memory, root: U64, virt: U64, n: nat, i: nat, l: nat, b: U64)
    requires i < n && l < 3 && b != 0
    requires OneTableMore(mem, mem', root, PageAddr(virt, i), l, b)
    requires TableAt(mem, root, PageAddr(virt, i), l) == 0
    ensures Missing(mem', root, virt, n) == Missing(mem, root, virt, n) - {(l, Prefix(PageAddr(virt, i), l))}
    ensures |Missing(mem', root, virt, n)| == |Missing(mem, root, virt, n)| - 1
  {
    hide PageAddr, Prefix, TableAt;
    var v := PageAddr(virt, i);
    assert (l, Prefix(v, l)) in Missing(mem, root, virt, n);
    forall j: nat, k: nat | j < n && k < 3
      ensures TableAt(mem', root, PageAddr(virt, j), k)
              == if k == l && Prefix(PageAddr(virt, j), k) == Prefix(v, l) then b else TableAt(mem, root, PageAddr(virt, j), k)
    {
    }
    forall x | x in Missing(mem, root, virt, n) && x != (l, Prefix(v, l))
      ensures x in Missing(mem', root, virt, n)
    {
      var j: nat, k: nat :| j < n && k < 3 && TableAt(mem, root, PageAddr(virt, j), k) == 0 && x == (k, Prefix(PageAddr(virt, j), k));
      assert TableAt(mem', root, PageAddr(virt, j), k) == 0;
    }
    forall x | x in Missing(mem', root, virt, n)
      ensures x in Missing(mem, root, virt, n) && x != (l, Prefix(v, l))
    {
      var j: nat, k: nat :| j < n && k < 3 && TableAt(mem', root, PageAddr(virt, j), k) == 0 && x == (k, Prefix(PageAddr(virt, j), k));
      assert TableAt(mem, root, PageAddr(virt, j), k) == 0;
    }
  }

  /** A table that is missing when no frame can be had is one too many. */
  lemma TableNotToBeHad(mem: Memory, root: U64, fs: seq<Frame>, virt: U64, n: nat, i: nat, l: nat)
    requires i < n && l < 3 && TableAt(mem, root, PageAddr(virt, i), l) == 0 && NoTableFrame(fs)
    ensures !EnoughFrames(mem, root, fs, virt, n)
  {
    hide PageAddr, Prefix, TableAt;
    assert (l, Prefix(PageAddr(virt, i), l)) in Missing(mem, root, virt, n);
    if forall k :: 0 <= k < |fs| ==> !fs[k].kind.Available? {
      assert AvailableFrames(fs) == {};
    }
  }

  /** A root in frame 1, one page to map, and four available frames, of which frame 0 is one: at
      most three tables are missing, and none can be had. */
  lemma FrameZeroBlocksTables() returns (mem: Memory, roots: seq<U64>, fs: seq<Frame>, own: map<U64, Place>)
    ensures Forest(mem, roots, fs, own) && roots[0] == 4096
    ensures |AvailableFrames(fs)| == 4 && |Missing(mem, roots[0], 0, 1)| <= 3
    ensures !EnoughFrames(mem, roots[0], fs, 0, 1)
  {
    hide PageAddr, Prefix, Index, Present, Address, Has;
    roots := seq(MAX_DOMAINS, _ => 0);
    var free := Frame(Available, 0);
    fs := [free, Frame(Kernel, 0), free, free, free];
    mem, own := map[], map[];
    PlantRoot(mem, roots, fs, own, 0, 4096);
    mem, own, roots := mem[4096 := ZeroTable()], own[4096 := Place(0, 3, 0)], roots[0 := 4096];
    assert AvailableFrames(fs) == {0, 2, 3, 4};
    AtMostThree(mem, 4096, 0);
    NextOfEmpty(mem, 4096, PageAddr(0, 0), 3);
    NextIsTable(mem, 4096, PageAddr(0, 0), 3);
    TableNotToBeHad(mem, 4096, fs, 0, 1, 0, 2);
  }

  /** One page needs at most three tables below the root. */
  lemma AtMostThree(mem: Memory, root: U64, virt: U64)
    ensures |Missing(mem, root, virt, 1)| <= 3
  {
    hide PageAddr, Prefix, TableAt;
    var v := PageAddr(virt, 0);
    var all := {(0, Prefix(v, 0)), (1, Prefix(v, 1)), (2, Prefix(v, 2))};
    assert |all| == 3;
    assert Missing(mem, root, virt, 1) <= all;
    SubsetSize(Missing(mem, root, virt, 1), all);
  }

  lemma {:induction false} SubsetSize<T>(a: set<T>, b: set<T>)
    requires a <= b
    ensures |a| <= |b|
  {
    if a != {} {
      var x :| x in a;
      SubsetSize(a - {x}, b - {x});
    }
  }

  /** Leaves do not matter to what is missing. */
  lemma SameTablesSameNeed(mem: Memory, mem': Memory, root: U64, fs: seq<Frame>, virt: U64, n: nat)
    requires SameTables(mem, mem', root)
    ensures Missing(mem', root, virt, n) == Missing(mem, root, virt, n)
    ensures EnoughFrames(mem', root, fs, virt, n) <==> EnoughFrames(mem, root, fs, virt, n)
    ensures TablesStay(mem, mem', root)
  {
    hide PageAddr, Prefix, TableAt;
    forall j: nat, k: nat | j < n && k < 3
      ensures TableAt(mem', root, PageAddr(virt, j), k) == TableAt(mem, root, PageAddr(virt, j), k)
    {
    }
    assert Missing(mem', root, virt, n) == Missing(mem, root, virt, n);
  }

  lemma NothingIsMissing(mem: Memory, root: U64, fs: seq<Frame>, virt: U64, n: nat)
    requires forall i: nat :: i < n ==> HasTables(mem, root, PageAddr(virt, i))
    ensures EnoughFrames(mem, root, fs, virt, n)
  {
    hide PageAddr, Prefix, TableAt;
    assert Missing(mem, root, virt, n) == {};
  }

  lemma TablesStayTwice(mem: Memory, mid: Memory, mem': Memory, root: U64)
    requires TablesStay(mem, mid, root) && TablesStay(mid, mem', root)
    ensures TablesStay(mem, mem', root)
  {
    hide TableAt;
    forall w: U64, l: nat {:trigger TableAt(mem', root, w, l)} | l <= 3 && TableAt(mem, root, w, l) != 0
      ensures TableAt(mem', root, w, l) == TableAt(mem, root, w, l)
    {
      assert TableAt(mid, root, w, l) == TableAt(mem, root, w, l);
    }
  }

  /** A table allocation that fails takes frame 0 if that is available, and nothing else. */
  ghost predicate Frame0Taken(fs: seq<Frame>, fs': seq<Frame>) {
    fs' == if |fs| > 0 && fs[0].kind.Available? then fs[0 := Frame(Kernel, 0)] else fs
  }

  /** Frames are taken from below: none stays available below one that was taken. */
  ghost predicate LowestTaken(fs: seq<Frame>, fs': seq<Frame>) {
    && OnlyTaken(fs, fs')
    && forall j, k :: 0 <= j < k < |fs| && fs'[k] != fs[k] ==> !fs'[j].kind.Available?
  }

  // ---------- how the tables of a range grow ----------

  /** A walk that found no table at this level now finds one in frame k. */
  ghost predicate NewTableAt(mem: Memory, mem': Memory, root: U64, v: U64, l: nat, k: nat)
    requires l < 3
  {
    TableAt(mem, root, v, l) == 0 && k > 0 && TableAt(mem', root, v, l) == k * PAGE_SIZE
  }

  /** One of the walks for the first m pages has a new table in frame k. */
  ghost predicate HoldsNewTable(mem: Memory, mem': Memory, root: U64, virt: U64, m: nat, k: nat) {
    exists i: nat, l: nat :: i < m && l < 3 && NewTableAt(mem, mem', root, PageAddr(virt, i), l, k)
  }

  /** The frames taken are those of the new tables; no other frame has changed. */
  ghost predicate FramesAreTables(mem: Memory, mem': Memory, root: U64, fs: seq<Frame>, fs': seq<Frame>, virt: U64, m: nat) {
    && |fs'| == |fs|
    && forall k :: 0 <= k < |fs| ==>
         if HoldsNewTable(mem, mem', root, virt, m, k) then fs[k].kind.Available? && fs'[k] == Frame(Kernel, 0)
         else fs'[k] == fs[k]
  }

  /** The frames left over once every missing table has one; negative when they are too few. */
  ghost function Spare(mem: Memory, root: U64, fs: seq<Frame>, virt: U64, m: nat): int {
    |AvailableFrames(fs)| - |Missing(mem, root, virt, m)|
  }

  ghost predicate GrownFor(mem: Memory, mem': Memory, root: U64, fs: seq<Frame>, fs': seq<Frame>, virt: U64, m: nat) {
    && Spare(mem', root, fs', virt, m) == Spare(mem, root, fs, virt, m)
    && (EnoughFrames(mem', root, fs', virt, m) <==> EnoughFrames(mem, root, fs, virt, m))
    && FramesAreTables(mem, mem', root, fs, fs', virt, m)
  }

  /** Tables were added for the first `lo` pages from `virt` on, one frame for each. */
  ghost predicate Grown(mem: Memory, mem': Memory, root: U64, fs: seq<Frame>, fs': seq<Frame>, virt: U64, lo: nat) {
    && TablesStay(mem, mem', root) && LowestTaken(fs, fs') && (NoTableFrame(fs) ==> fs' == fs)
    && forall m: nat :: lo <= m ==> GrownFor(mem, mem', root, fs, fs', virt, m)
  }

  /** Growth that ended because no frame could be had for one more table. */
  ghost predicate GrownOut(mem: Memory, mem': Memory, root: U64, fs: seq<Frame>, fs': seq<Frame>, virt: U64, lo: nat) {
    && TablesStay(mem, mem', root)
    && (|fs| > 0 && fs[0].kind.Available? ==> Frame0Taken(fs, fs'))
    && (!(|fs| > 0 && fs[0].kind.Available?) ==> Grown(mem, mem', root, fs, fs', virt, lo) && AvailableFrames(fs') == {})
  }

  lemma GrowthStep(mem: Memory, mem': Memory, root: U64, fs: seq<Frame>, fs': seq<Frame>, virt: U64, i: nat, l: nat, b: U64)
    requires l < 3 && b != 0 && b % PAGE_SIZE == 0 && TableAt(mem, root, PageAddr(virt, i), l) == 0
    requires OneTableMore(mem, mem', root, PageAddr(virt, i), l, b) && OneTableTaken(fs, fs', 0, b)
    requires LowestTaken(fs, fs') && !NoTableFrame(fs)
    ensures Grown(mem, mem', root, fs, fs', virt, i + 1)
  {
    hide PageAddr, Prefix, TableAt, Missing, AvailableFrames, OneTableMore, TablesStay, OneTableTaken, NoTableFrame;
    hide LowestTaken, EnoughFrames, FramesAreTables;
    TableCreated(mem, mem', root, fs, fs', virt, i + 1, i, l, b);
    forall m: nat | i + 1 <= m
      ensures GrownFor(mem, mem', root, fs, fs', virt, m)
    {
      TableCreated(mem, mem', root, fs, fs', virt, m, i, l, b);
      MissingAfterLink(mem, mem', root, virt, m, i, l, b);
      FramesAfterTable(fs, fs', b);
      NewTableIsFrame(mem, mem', root, fs, fs', virt, m, i, l, b);
    }
  }

  lemma NewTableIsFrame(mem: Memory, mem': Memory, root: U64, fs: seq<Frame>, fs': seq<Frame>, virt: U64,
                        m: nat, i: nat, l: nat, b: U64)
    requires i < m && l < 3 && b != 0 && b % PAGE_SIZE == 0 && TableAt(mem, root, PageAddr(virt, i), l) == 0
    requires OneTableMore(mem, mem', root, PageAddr(virt, i), l, b) && OneTableTaken(fs, fs', 0, b)
    ensures FramesAreTables(mem, mem', root, fs, fs', virt, m)
  {
    hide PageAddr, Prefix, TableAt;
    forall k: nat
      ensures HoldsNewTable(mem, mem', root, virt, m, k) <==> k == b / PAGE_SIZE
    {
      if HoldsNewTable(mem, mem', root, virt, m, k) {
        var j: nat, n: nat :| j < m && n < 3 && NewTableAt(mem, mem', root, PageAddr(virt, j), n, k);
        assert TableAt(mem', root, PageAddr(virt, j), n) == b;
      }
      if k == b / PAGE_SIZE {
        assert NewTableAt(mem, mem', root, PageAddr(virt, i), l, k);
      }
    }
  }

  /** Leaves do not matter. */
  lemma SameTablesGrown(mem: Memory, mem': Memory, root: U64, fs: seq<Frame>, virt: U64, lo: nat)
    requires SameTables(mem, mem', root)
    ensures Grown(mem, mem', root, fs, fs, virt, lo)
  {
    hide PageAddr, Prefix, TableAt, EnoughFrames, SameTables, TablesStay;
    SameTablesSameNeed(mem, mem', root, fs, virt, 0);
    forall m: nat | lo <= m
      ensures GrownFor(mem, mem', root, fs, fs, virt, m)
    {
      SameTablesSameNeed(mem, mem', root, fs, virt, m);
      forall k: nat
        ensures !HoldsNewTable(mem, mem', root, virt, m, k)
      {
        NoNewTable(mem, mem', root, virt, m, k);
      }
    }
  }

  lemma NoNewTable(mem: Memory, mem': Memory, root: U64, virt: U64, m: nat, k: nat)
    requires SameTables(mem, mem', root)
    ensures !HoldsNewTable(mem, mem', root, virt, m, k)
  {
    hide PageAddr, TableAt;
  }

  lemma GrownTwice(mem: Memory, mid: Memory, mem': Memory, root: U64, fs: seq<Frame>, fsm: seq<Frame>, fs': seq<Frame>,
                   virt: U64, lo: nat, hi: nat)
    requires Grown(mem, mid, root, fs, fsm, virt, lo) && Grown(mid, mem', root, fsm, fs', virt, hi) && lo <= hi
    ensures Grown(mem, mem', root, fs, fs', virt, hi)
  {
    hide TablesStay, EnoughFrames, Spare, FramesAreTables;
    TablesStayTwice(mem, mid, mem', root);
    forall m: nat | hi <= m
      ensures GrownFor(mem, mem', root, fs, fs', virt, m)
    {
      assert GrownFor(mem, mid, root, fs, fsm, virt, m) && GrownFor(mid, mem', root, fsm, fs', virt, m);
      FramesAreTablesTwice(mem, mid, mem', root, fs, fsm, fs', virt, m);
    }
  }

  lemma FramesAreTablesTwice(mem: Memory, mid: Memory, mem': Memory, root: U64, fs: seq<Frame>, fsm: seq<Frame>, fs': seq<Frame>,
                             virt: U64, m: nat)
    requires TablesStay(mem, mid, root) && TablesStay(mid, mem', root)
    requires FramesAreTables(mem, mid, root, fs, fsm, virt, m) && FramesAreTables(mid, mem', root, fsm, fs', virt, m)
    ensures FramesAreTables(mem, mem', root, fs, fs', virt, m)
  {
    hide HoldsNewTable, TablesStay;
    forall k | 0 <= k < |fs|
      ensures if HoldsNewTable(mem, mem', root, virt, m, k) then fs[k].kind.Available? && fs'[k] == Frame(Kernel, 0)
              else fs'[k] == fs[k]
    {
      assert HoldsNewTable(mem, mid, root, virt, m, k) ==> fsm[k] == Frame(Kernel, 0);
      NewTableTwice(mem, mid, mem', root, virt, m, k);
    }
  }

  lemma NewTableTwice(mem: Memory, mid: Memory, mem': Memory, root: U64, virt: U64, m: nat, k: nat)
    requires TablesStay(mem, mid, root) && TablesStay(mid, mem', root)
    ensures HoldsNewTable(mem, mem', root, virt, m, k)
            <==> HoldsNewTable(mem, mid, root, virt, m, k) || HoldsNewTable(mid, mem', root, virt, m, k)
  {
    hide PageAddr, TableAt;
    forall i: nat, l: nat | i < m && l < 3
      ensures NewTableAt(mem, mem', root, PageAddr(virt, i), l, k)
              <==> NewTableAt(mem, mid, root, PageAddr(virt, i), l, k) || NewTableAt(mid, mem', root, PageAddr(virt, i), l, k)
    {
      NewTableAtTwice(mem, mid, mem', root, PageAddr(virt, i), l, k);
    }
  }

  lemma NewTableAtTwice(mem: Memory, mid: Memory, mem': Memory, root: U64, v: U64, l: nat, k: nat)
    requires TablesStay(mem, mid, root) && TablesStay(mid, mem', root) && l < 3
    ensures NewTableAt(mem, mem', root, v, l, k) <==> NewTableAt(mem, mid, root, v, l, k) || NewTableAt(mid, mem', root, v, l, k)
  {
    hide TableAt;
    assert TableAt(mem, root, v, l) != 0 ==> TableAt(mid, root, v, l) == TableAt(mem, root, v, l);
    assert TableAt(mid, root, v, l) != 0 ==> TableAt(mem', root, v, l) == TableAt(mid, root, v, l);
  }

  lemma GrownOutLater(mem: Memory, mid: Memory, mem': Memory, root: U64, fs: seq<Frame>, fsm: seq<Frame>, fs': seq<Frame>,
                      virt: U64, lo: nat, hi: nat)
    requires Grown(mem, mid, root, fs, fsm, virt, lo) && GrownOut(mid, mem', root, fsm, fs', virt, hi) && lo <= hi
    ensures GrownOut(mem, mem', root, fs, fs', virt, hi)
  {
    hide Grown, AvailableFrames, TablesStay;
    assert TablesStay(mem, mid, root) && LowestTaken(fs, fsm) && (NoTableFrame(fs) ==> fsm == fs) by { GrownFrames(mem, mid, root, fs, fsm, virt, lo); }
    TablesStayTwice(mem, mid, mem', root);
    if !(|fs| > 0 && fs[0].kind.Available?) {
      GrownTwice(mem, mid, mem', root, fs, fsm, fs', virt, lo, hi);
    }
  }

  lemma GrownFrames(mem: Memory, mem': Memory, root: U64, fs: seq<Frame>, fs': seq<Frame>, virt: U64, lo: nat)
    requires Grown(mem, mem', root, fs, fs', virt, lo)
    ensures LowestTaken(fs, fs') && (NoTableFrame(fs) ==> fs' == fs) && TablesStay(mem, mem', root)
    ensures forall m: nat :: lo <= m ==> (EnoughFrames(mem', root, fs', virt, m) <==> EnoughFrames(mem, root, fs, virt, m))
  {
    hide TablesStay, NoTableFrame, EnoughFrames, Spare, FramesAreTables, LowestTaken;
    forall m: nat | lo <= m
      ensures EnoughFrames(mem', root, fs', virt, m) <==> EnoughFrames(mem, root, fs, virt, m)
    {
      assert GrownFor(mem, mem', root, fs, fs', virt, m);
    }
  }

  /** When every page has its tables, exactly the missing ones were added. */
  lemma GrownExactly(mem: Memory, mem': Memory, root: U64, fs: seq<Frame>, fs': seq<Frame>, virt: U64, n: nat)
    requires Grown(mem, mem', root, fs, fs', virt, n)
    requires forall i: nat :: i < n ==> HasTables(mem', root, PageAddr(virt, i))
    ensures |AvailableFrames(fs')| == |AvailableFrames(fs)| - |Missing(mem, root, virt, n)|
    ensures FramesAreTables(mem, mem', root, fs, fs', virt, n)
  {
    hide PageAddr, Prefix, TableAt, AvailableFrames, EnoughFrames, TablesStay, FramesAreTables;
    assert GrownFor(mem, mem', root, fs, fs', virt, n);
    assert Missing(mem', root, virt, n) == {};
  }

  /** What is left when growth ended for want of a frame. */
  lemma GrownOutMeaning(mem: Memory, mem': Memory, root: U64, fs: seq<Frame>, fs': seq<Frame>, virt: U64, n: nat)
    requires GrownOut(mem, mem', root, fs, fs', virt, n) && |fs| > 0
    ensures LowestTaken(fs, fs') && TablesStay(mem, mem', root)
    ensures if fs[0].kind.Available? then fs' == fs[0 := Frame(Kernel, 0)]
            else AvailableFrames(fs') == {} && FramesAreTables(mem, mem', root, fs, fs', virt, n)
  {
    hide AvailableFrames, FramesAreTables, EnoughFrames, TablesStay;
    if !fs[0].kind.Available? {
      assert GrownFor(mem, mem', root, fs, fs', virt, n);
    }
  }

  lemma NothingGrown(mem: Memory, root: U64, fs: seq<Frame>, fs': seq<Frame>, virt: U64, lo: nat)
    requires NoTableFrame(fs) && Frame0Taken(fs, fs')
    ensures GrownOut(mem, mem, root, fs, fs', virt, lo)
  {
    hide TableAt, PageAddr, Grown;
    SameTablesGrown(mem, mem, root, fs, virt, lo);
    if !(|fs| > 0 && fs[0].kind.Available?) {
      assert AvailableFrames(fs) == {};
    }
  }

  /** Get-or-create took a frame exactly when there was no child before, and that one. */
  ghost predicate OneTableTaken(fs: seq<Frame>, fs': seq<Frame>, before: U64, child: U64) {
    if before != 0 then child == before && fs' == fs
    else child / PAGE_SIZE < |fs| && fs[child / PAGE_SIZE].kind.Available? && fs' == fs[child / PAGE_SIZE := Frame(Kernel, 0)]
  }

  /** Allocation takes no frame that holds a table. */
  lemma ForestSurvivesAlloc(mem: Memory, roots: seq<U64>, fs: seq<Frame>, own: map<U64, Place>, fs': seq<Frame>)
    requires Forest(mem, roots, fs, own) && OnlyTaken(fs, fs')
    ensures Forest(mem, roots, fs', own)
  {
    hide LinksOk, RootsOk;
    assert TablesOk(mem, fs, own);
    ForestSurvivesFrameChange(mem, roots, fs, own, fs');
  }

  lemma OnlyTakenTwice(fs: seq<Frame>, mid: seq<Frame>, fs': seq<Frame>)
    requires OnlyTaken(fs, mid) && OnlyTaken(mid, fs')
    ensures OnlyTaken(fs, fs')
  {
  }

  lemma OnePageTaken(fs: seq<Frame>, fs': seq<Frame>, found: Option<nat>)
    requires found.None? ==> fs' == fs && forall s: nat :: !Candidate(fs, 1, 1, s)
    requires found.Some? ==> Candidate(fs, 1, 1, found.value) && fs' == Mark(fs, found.value, 1, Frame(Kernel, 0))
    requires found.Some? ==> forall s: nat :: s < found.value ==> !Candidate(fs, 1, 1, s)
    ensures NoTableFrame(fs) <==> found.None? || found.value == 0
    ensures OnlyTaken(fs, fs')
    ensures LowestTaken(fs, fs')
    ensures found.None? || found.value == 0 ==> Frame0Taken(fs, fs')
    ensures found.Some? ==> found.value < |fs| && fs[found.value].kind.Available? && fs' == fs[found.value := Frame(Kernel, 0)]
  {
    if found.Some? {
      OnePageIsLowest(fs, found.value);
    } else {
      forall k | 0 <= k < |fs|
        ensures !fs[k].kind.Available?
      {
        if fs[k].kind.Available? {
          var low := LowestFit(fs, 1, k);
        }
      }
    }
  }

  // ---------- the operations ----------

  class IsolationState {
    const mm: FrameAllocator
    const domains: array<DomainTable>
    var mem: Memory
    ghost var own: map<U64, Place>
    ghost var flat: seq<FlatMap>

    /** The tables form a forest, and every domain's walks are those of its flat map. */
    ghost predicate Valid()
      reads this, mm, mm.frames, domains
    {
      && mm.Valid() && domains.Length == MAX_DOMAINS && |flat| == MAX_DOMAINS
      && Forest(mem, Roots(), mm.Table(), own)
      && AllAgree(mem, Roots(), flat)
    }

    ghost function Roots(): (r: seq<U64>)
      requires domains.Length == MAX_DOMAINS
      reads domains
      ensures |r| == MAX_DOMAINS && forall d :: 0 <= d < MAX_DOMAINS ==> r[d] == domains[d].pml4
    {
      seq(MAX_DOMAINS, d requires 0 <= d < MAX_DOMAINS reads domains => domains[d].pml4)
    }

    constructor (mm: FrameAllocator)
      requires mm.Valid()
      ensures Valid() && this.mm == mm && fresh(domains)
      ensures forall d :: 0 <= d < MAX_DOMAINS ==> Roots()[d] == 0
    {
      this.mm := mm;
      domains := new DomainTable[MAX_DOMAINS](_ => DomainTable(0, 0, 0, 0));
      mem, own, flat := map[], map[], seq(MAX_DOMAINS, _ => map[]);
    }

    /** pt_alloc_page_table: a zeroed kernel frame, or 0. */
    method AllocTable() returns (table: U64)
      requires Valid()
      modifies this`mem, mm`availablePages, mm`allocatedPages, mm.frames
      ensures Valid() && flat == old(flat) && own == old(own)
      ensures OnlyTaken(old(mm.Table()), mm.Table())
      ensures table != 0 ==> FreshTable(table, mm.Table(), own) && mem == old(mem)[table := ZeroTable()]
      ensures table != 0 ==> OneTableTaken(old(mm.Table()), mm.Table(), 0, table)
      ensures table == 0 <==> NoTableFrame(old(mm.Table()))
      ensures table == 0 ==> mem == old(mem) && Frame0Taken(old(mm.Table()), mm.Table())
      ensures LowestTaken(old(mm.Table()), mm.Table())
    {
      hide Forest, Agrees;
      ghost var fs := mm.Table();
      ghost var found;
      assert PagesFor(PAGE_SIZE) == 1 && Max(1, 1) == 1;
      table, found := mm.Alloc(PAGE_SIZE, PAGE_SIZE, Kernel, 0);
      OnePageTaken(fs, mm.Table(), found);
      assert Forest(mem, Roots(), mm.Table(), own) by {
        ForestSurvivesAlloc(mem, old(Roots()), fs, own, mm.Table());
        assert Roots() == old(Roots());
      }
      if table == 0 {
        return;
      }
      assert FreshTable(table, mm.Table(), own) by { Unused(mem, Roots(), fs, own, table); }
      ZeroNewTable(table);
    }

    /** The memset of a new table. */
    method ZeroNewTable(table: U64)
      requires Valid() && table !in own
      modifies this`mem
      ensures Valid() && mem == old(mem)[table := ZeroTable()]
    {
      mem := mem[table := ZeroTable()];
      UnownedTable(old(mem), mem, Roots(), mm.Table(), own);
    }

    /** "Get or create": the next table on the way to v, linked in when missing; 0 if out of frames. */
    method EnsureTable(d: nat, table: U64, v: U64, level: nat, ghost virt: U64, ghost i: nat) returns (child: U64)
      requires Valid() && d < MAX_DOMAINS && 0 < level <= 3 && v == PageAddr(virt, i)
      requires table == TableAt(mem, Roots()[d], v, level) != 0
      modifies this`mem, this`own, mm`availablePages, mm`allocatedPages, mm.frames
      ensures Valid() && flat == old(flat) && OnlyTaken(old(mm.Table()), mm.Table())
      ensures child != 0 ==> child == TableAt(mem, Roots()[d], v, level - 1)
      ensures child != 0 ==> OneTableTaken(old(mm.Table()), mm.Table(), old(Next(mem, table, v, level)), child)
      ensures child == 0 ==> mem == old(mem) && Frame0Taken(old(mm.Table()), mm.Table())
      ensures child == 0 <==> old(Next(mem, table, v, level)) == 0 && NoTableFrame(old(mm.Table()))
      ensures child == 0 ==> forall m: nat :: i < m ==> old(!EnoughFrames(mem, Roots()[d], mm.Table(), virt, m))
      ensures child == 0 ==> GrownOut(old(mem), mem, Roots()[d], old(mm.Table()), mm.Table(), virt, i + 1)
      ensures child != 0 ==> Grown(old(mem), mem, Roots()[d], old(mm.Table()), mm.Table(), virt, i + 1)
      ensures OtherTablesStay(old(mem), mem, Roots(), d)
    {
      hide Forest, Agrees, Walk, Index, LinkEntry, EnoughFrames, TablesStay, OneTableMore, NoTableFrame, PageAddr, Prefix;
      hide TableAt, Next, Frame0Taken, SameWalks, Grown, GrownOut, LowestTaken, OtherTablesStay;
      ghost var fs, root := mm.Table(), Roots()[d];
      child := Next(mem, table, v, level);
      NextIsTable(mem, root, v, level);
      if child != 0 {
        NothingMoves(mem, Roots(), d);
        SameTablesGrown(mem, mem, root, fs, virt, i + 1);
        return;
      }
      child := AllocTable();
      if child == 0 {
        forall m: nat | i < m
          ensures !EnoughFrames(mem, root, fs, virt, m)
        {
          TableNotToBeHad(mem, root, fs, virt, m, i, level - 1);
        }
        NothingGrown(mem, root, fs, mm.Table(), virt, i + 1);
        NothingMoves(mem, Roots(), d);
        return;
      }
      ForestSurvivesAlloc(old(mem), Roots(), fs, own, mm.Table());
      LinkTable(old(mem), Roots(), mm.Table(), own, d, v, level, table, child);
      LinkAddsOneTable(old(mem), Roots(), mm.Table(), own, d, v, level, table, child);
      OwnedIsMapped(old(mem), Roots(), mm.Table(), own, table);
      mem := mem[table := mem[table][Index(v, level) := LinkEntry(child)]];
      own := own[child := Place(d, level - 1, Prefix(v, level - 1))];
      assert mem == Linked(old(mem), table, v, level, child);
      AgreementKept(old(mem), mem, Roots(), flat);
      GrowthStep(old(mem), mem, root, fs, mm.Table(), virt, i, level - 1, child);
    }

    /** One turn of the mapping loop. */
    method MapPage(d: nat, v: U64, entry: U64, ghost virt: U64, ghost i: nat) returns (ok: bool)
      requires Valid() && d < MAX_DOMAINS && Roots()[d] != 0 && v == PageAddr(virt, i)
      modifies this, mm`availablePages, mm`allocatedPages, mm.frames
      ensures Valid()
      ensures ok ==> flat == old(flat)[d := SetPage(old(flat)[d], Page(v), entry)]
      ensures !ok ==> flat == old(flat)
      ensures !ok ==> forall m: nat :: i < m ==> old(!EnoughFrames(mem, Roots()[d], mm.Table(), virt, m))
      ensures !ok ==> GrownOut(old(mem), mem, Roots()[d], old(mm.Table()), mm.Table(), virt, i + 1)
      ensures ok ==> Grown(old(mem), mem, Roots()[d], old(mm.Table()), mm.Table(), virt, i + 1)
      ensures ok ==> HasTables(mem, Roots()[d], v)
      ensures OtherTablesStay(old(mem), mem, Roots(), d)
    {
      hide Forest, Agrees, Walk, Index, OnlyTaken, OneTableTaken, Frame0Taken, EnoughFrames, TablesStay, OtherTablesStay;
      hide PageAddr, TableAt, NoTableFrame, Next, HasTables, Grown, GrownOut, SameTables, LowestTaken;
      ghost var fs, root := mm.Table(), Roots()[d];
      RootIsTable(mem, root, v);
      var pdpt := EnsureTable(d, domains[d].pml4, v, 3, virt, i);
      if pdpt == 0 {
        return false;
      }
      ghost var fs1, mem1 := mm.Table(), mem;
      var pd := EnsureTable(d, pdpt, v, 2, virt, i);
      OtherTablesStayTwice(old(mem), mem1, mem, Roots(), d);
      if pd == 0 {
        GrownOutLater(old(mem), mem1, mem, root, fs, fs1, mm.Table(), virt, i + 1, i + 1);
        GrownFrames(old(mem), mem1, root, fs, fs1, virt, i + 1);
        return false;
      }
      ghost var fs2, mem2 := mm.Table(), mem;
      GrownTwice(old(mem), mem1, mem2, root, fs, fs1, fs2, virt, i + 1, i + 1);
      GrownFrames(old(mem), mem2, root, fs, fs2, virt, i + 1);
      var pt := EnsureTable(d, pd, v, 1, virt, i);
      OtherTablesStayTwice(old(mem), mem2, mem, Roots(), d);
      if pt == 0 {
        GrownOutLater(old(mem), mem2, mem, root, fs, fs2, mm.Table(), virt, i + 1, i + 1);
        return false;
      }
      ghost var fs3, mem3 := mm.Table(), mem;
      GrownFrames(mem1, mem2, root, fs1, fs2, virt, i + 1);
      GrownFrames(mem2, mem3, root, fs2, fs3, virt, i + 1);
      AllTables(mem1, mem2, mem3, root, v);
      GrownTwice(old(mem), mem2, mem3, root, fs, fs2, fs3, virt, i + 1, i + 1);
      SetLeaf(d, pt, v, entry);
      OtherTablesStayTwice(old(mem), mem3, mem, Roots(), d);
      SameTablesGrown(mem3, mem, root, fs3, virt, i + 1);
      GrownFrames(mem3, mem, root, fs3, fs3, virt, i + 1);
      StillHasTables(mem3, mem, root, v);
      GrownTwice(old(mem), mem3, mem, root, fs, fs3, mm.Table(), virt, i + 1, i + 1);
      ok := true;
    }

    /** pt_set_entry on the last level. */
    method SetLeaf(d: nat, pt: U64, v: U64, entry: U64)
      requires Valid() && d < MAX_DOMAINS && pt == TableAt(mem, Roots()[d], v, 0) != 0
      modifies this`mem, this`flat
      ensures Valid() && flat == old(flat)[d := SetPage(old(flat)[d], Page(v), entry)]
      ensures SameTables(old(mem), mem, Roots()[d]) && OtherTablesStay(old(mem), mem, Roots(), d)
    {
      hide Forest, Agrees, Walk, Index, Page, SameTables, OtherTablesStay;
      StoreKeepsTables(mem, Roots(), mm.Table(), own, d, v, pt, entry);
      StoreLeaf(mem, Roots(), mm.Table(), own, d, v, pt, entry);
      OwnedIsMapped(mem, Roots(), mm.Table(), own, pt);
      mem := mem[pt := mem[pt][Index(v, 0) := entry]];
      flat := flat[d := SetPage(flat[d], Page(v), entry)];
      AgreementMoved(old(mem), mem, Roots(), old(flat), d, Page(v), entry);
    }

    /** Maps a range page by page. `done` counts the pages mapped before running out of frames. */
    method MapMemory(d: nat, virt: U64, phys: U64, size: U64, mapType: MapType, capabilityOk: bool)
      returns (r: int, ghost done: nat)
      requires Valid()
      modifies this, mm`availablePages, mm`allocatedPages, mm.frames
      ensures Valid() && LowestTaken(old(mm.Table()), mm.Table())
      ensures d >= MAX_DOMAINS || !capabilityOk || domains[d].pml4 == 0 ==>
                r == -1 && flat == old(flat) && mem == old(mem) && mm.Table() == old(mm.Table())
      ensures d < MAX_DOMAINS && capabilityOk && domains[d].pml4 != 0 ==>
        && flat == old(flat)[d := MapPages(old(flat)[d], virt, phys, MapFlags(mapType), done)]
        && (r == 0 || r == -1)
        && (r == 0 <==> old(EnoughFrames(mem, Roots()[d], mm.Table(), virt, PagesFor(size))))
        && (r == 0 ==>
             && done == PagesFor(size)
             && |AvailableFrames(mm.Table())|
                == |AvailableFrames(old(mm.Table()))| - |old(Missing(mem, Roots()[d], virt, PagesFor(size)))|
             && FramesAreTables(old(mem), mem, Roots()[d], old(mm.Table()), mm.Table(), virt, done))
        && (r != 0 ==>
             && done < PagesFor(size)
             && old(EnoughFrames(mem, Roots()[d], mm.Table(), virt, done))
             && !old(EnoughFrames(mem, Roots()[d], mm.Table(), virt, done + 1))
             && if old(mm.Table())[0].kind.Available?
                then mm.Table() == old(mm.Table())[0 := Frame(Kernel, 0)]
                else AvailableFrames(mm.Table()) == {}
                     && FramesAreTables(old(mem), mem, Roots()[d], old(mm.Table()), mm.Table(), virt, done + 1))
        && TablesStay(old(mem), mem, Roots()[d])
      ensures OthersUntouched(old(mem), mem, Roots(), d) && OtherTablesStay(old(mem), mem, Roots(), d)
    {
      hide Forest, Agrees, Walk, Index, LeafEntry, MapFlags, Page, PageAddr, OtherTablesStay, LowestTaken, FramesAreTables;
      hide EnoughFrames, TablesStay, HasTables, TableAt, Grown, GrownOut, Missing, AvailableFrames;
      done := 0;
      NothingMoves(mem, Roots(), d);
      if d >= MAX_DOMAINS || !capabilityOk || domains[d].pml4 == 0 {
        UnchangedMaps(mem, mem, Roots(), flat, flat, d);
        NothingTaken(mm.Table());
        return -1, 0;
      }
      ghost var root, fs0 := Roots()[d], mm.Table();
      RootHasFrame(mem, Roots(), mm.Table(), own, d);
      SameTablesGrown(mem, mem, root, mm.Table(), virt, 0);
      var flags := MapFlags(mapType);
      var numPages := PagesFor(size);
      var i := 0;
      while i < numPages
        invariant 0 <= i <= numPages && Valid() && domains[..] == old(domains[..])
        invariant flat == old(flat)[d := MapPages(old(flat)[d], virt, phys, flags, i)]
        invariant Grown(old(mem), mem, root, old(mm.Table()), mm.Table(), virt, i)
        invariant forall k: nat :: k < i ==> HasTables(mem, root, PageAddr(virt, k))
        invariant OtherTablesStay(old(mem), mem, Roots(), d)
      {
        ghost var fs, before := mm.Table(), mem;
        NothingIsMissing(mem, root, fs, virt, i);
        GrownFrames(old(mem), mem, root, old(mm.Table()), fs, virt, i);
        var ok := MapPage(d, PageAddr(virt, i), LeafEntry(PageAddr(phys, i), flags), virt, i);
        OtherTablesStayTwice(old(mem), before, mem, Roots(), d);
        if !ok {
          GrownOutLater(old(mem), before, mem, root, old(mm.Table()), fs, mm.Table(), virt, i, i + 1);
          GrownOutMeaning(old(mem), mem, root, old(mm.Table()), mm.Table(), virt, i + 1);
          UnchangedMaps(old(mem), mem, Roots(), old(flat), flat, d);
          return -1, i;
        }
        GrownTwice(old(mem), before, mem, root, old(mm.Table()), fs, mm.Table(), virt, i, i + 1);
        GrownFrames(before, mem, root, fs, mm.Table(), virt, i + 1);
        forall k: nat | k < i
          ensures HasTables(mem, root, PageAddr(virt, k))
        {
          StillHasTables(before, mem, root, PageAddr(virt, k));
        }
        i := i + 1;
      }
      NothingIsMissing(mem, root, mm.Table(), virt, numPages);
      GrownFrames(old(mem), mem, root, old(mm.Table()), mm.Table(), virt, numPages);
      GrownExactly(old(mem), mem, root, old(mm.Table()), mm.Table(), virt, numPages);
      UnchangedMaps(old(mem), mem, Roots(), old(flat), flat, d);
      return 0, numPages;
    }

    /** Clears the leaves of a range; pages without a table have none to clear. */
    method UnmapMemory(d: nat, virt: U64, size: U64) returns (r: int)
      requires Valid()
      modifies this`mem, this`flat
      ensures Valid()
      ensures r == if d >= MAX_DOMAINS || domains[d].pml4 == 0 then -1 else 0
      ensures r == -1 ==> flat == old(flat) && mem == old(mem)
      ensures r == 0 ==> flat == old(flat)[d := UnmapPages(old(flat)[d], virt, PagesFor(size))]
      ensures r == 0 ==> SameTables(old(mem), mem, Roots()[d])
      ensures OthersUntouched(old(mem), mem, Roots(), d) && OtherTablesStay(old(mem), mem, Roots(), d)
    {
      hide Forest, Agrees, Walk, Index, Next, Page, PageAddr, OtherTablesStay;
      NothingMoves(mem, Roots(), d);
      if d >= MAX_DOMAINS || domains[d].pml4 == 0 {
        UnchangedMaps(mem, mem, Roots(), flat, flat, d);
        return -1;
      }
      var numPages := PagesFor(size);
      var i := 0;
      while i < numPages
        invariant 0 <= i <= numPages && Valid()
        invariant flat == old(flat)[d := UnmapPages(old(flat)[d], virt, i)]
        invariant SameTables(old(mem), mem, Roots()[d]) && OtherTablesStay(old(mem), mem, Roots(), d)
      {
        var v := PageAddr(virt, i);
        var pdpt := Next(mem, domains[d].pml4, v, 3);
        var pd := Next(mem, pdpt, v, 2);
        var pt := Next(mem, pd, v, 1);
        assert pt == TableAt(mem, Roots()[d], v, 0) by { ThreeSteps(mem, Roots()[d], v); }
        if pt != 0 {
          ghost var before := mem;
          SetLeaf(d, pt, v, 0);
          SameTablesTwice(old(mem), before, mem, Roots()[d]);
          OtherTablesStayTwice(old(mem), before, mem, Roots(), d);
        } else {
          ClearMissing(mem, Roots(), flat, d, v);
          flat := flat[d := SetPage(flat[d], Page(v), 0)];
        }
        i := i + 1;
      }
      UnchangedMaps(old(mem), mem, Roots(), old(flat), flat, d);
      r := 0;
    }

    /** Gives a domain a new empty address space; a previous one is dropped, not freed. */
    method CreatePageTables(d: nat, flags: U32) returns (r: int)
      requires Valid()
      modifies this, mm`availablePages, mm`allocatedPages, mm.frames, domains
      ensures Valid() && LowestTaken(old(mm.Table()), mm.Table())
      ensures r == 0 || r == -1
      ensures r == 0 <==> d < MAX_DOMAINS && !NoTableFrame(old(mm.Table()))
      ensures d >= MAX_DOMAINS ==> mm.Table() == old(mm.Table())
      ensures r == -1 ==> domains[..] == old(domains[..]) && flat == old(flat) && mem == old(mem)
                          && (d < MAX_DOMAINS ==> Frame0Taken(old(mm.Table()), mm.Table()))
      ensures r == 0 ==> flat == old(flat)[d := map[]] && domains[d].pml4 != 0
                         && mem == old(mem)[domains[d].pml4 := ZeroTable()]
                         && domains[..] == old(domains[..])[d := DomainTable(domains[d].pml4, d, 0, flags)]
                         && OneTableTaken(old(mm.Table()), mm.Table(), 0, domains[d].pml4)
    {
      hide Forest, Agrees, Walk, Index;
      if d >= MAX_DOMAINS {
        return -1;
      }
      var pml4 := AllocTable();
      if pml4 == 0 {
        return -1;
      }
      ForestSurvivesAlloc(old(mem), Roots(), old(mm.Table()), own, mm.Table());
      PlantRoot(old(mem), Roots(), mm.Table(), own, d, pml4);
      ghost var roots, fs := Roots(), mm.Table();
      domains[d] := DomainTable(pml4, d, 0, flags);
      own := own[pml4 := Place(d, 3, 0)];
      flat := flat[d := map[]];
      AgreementPlanted(old(mem), mem, roots, old(flat), d, pml4);
      assert mm.Table() == fs && Roots() == roots[d := pml4];
      r := 0;
    }

    /** Frees the root table of a domain and nothing below it. */
    method DestroyPageTables(d: nat) returns (r: int)
      requires Valid()
      modifies this`own, mm`availablePages, mm`allocatedPages, mm.frames, domains
      ensures Valid() && mem == old(mem) && flat == old(flat)
      ensures r == if d >= MAX_DOMAINS || old(domains[d].pml4) == 0 then -1 else 0
      ensures r == -1 ==> domains[..] == old(domains[..]) && mm.Table() == old(mm.Table())
      ensures r == 0 ==>
        && domains[..] == old(domains[..])[d := DomainTable(0, 0, 0, 0)]
        && old(domains[d].pml4) / PAGE_SIZE < |old(mm.Table())|
        && mm.Table() == old(mm.Table())[old(domains[d].pml4) / PAGE_SIZE := Frame(Available, 0)]
        && (NothingLeft(mem, old(domains[d].pml4), mm.Table()) <==> RootIsEmpty(mem, old(domains[d].pml4)))
    {
      hide Forest, Agrees, Walk, Index, NothingLeft, RootIsEmpty;
      if d >= MAX_DOMAINS || domains[d].pml4 == 0 {
        return -1;
      }
      ghost var roots := Roots();
      UprootDomain(mem, roots, mm.Table(), own, d, Frame(Available, 0));
      RootFreesTreeIff(mem, roots, mm.Table(), own, d);
      var freed := mm.Free(domains[d].pml4);
      own := own - {domains[d].pml4};
      domains[d] := DomainTable(0, 0, 0, 0);
      assert Roots() == roots[d := 0];
      r := 0;
    }

    // ---------- other users of the frames ----------

    /** Another user frees a frame in which no table lies: every map and walk stands. */
    method FreeFrame(addr: U64) returns (r: int)
      requires Valid() && forall a :: a in own ==> a / PAGE_SIZE != addr / PAGE_SIZE
      modifies mm`availablePages, mm`allocatedPages, mm.frames
      ensures Valid() && |mm.Table()| == |old(mm.Table())|
      ensures r == if addr / PAGE_SIZE < |mm.Table()| then 0 else -1
      ensures r == 0 ==> mm.Table() == old(mm.Table())[addr / PAGE_SIZE := Frame(Available, 0)]
    {
      hide LinksOk, RootsOk, Agrees;
      ghost var fs, roots := mm.Table(), Roots();
      assert TablesOk(mem, fs, own);
      r := mm.Free(addr);
      ForestSurvivesFrameChange(mem, roots, fs, own, mm.Table());
      assert Roots() == roots;
    }

    /** Another user allocates frames: every map and walk stands. */
    method TakeFrames(size: U64, align: U64, kind: MemType, owner: U64) returns (addr: U64, ghost found: Option<nat>)
      requires Valid() && PagesFor(align) > 0
      modifies mm`availablePages, mm`allocatedPages, mm.frames
      ensures Valid() && |mm.Table()| == |old(mm.Table())|
      ensures forall k :: 0 <= k < |mm.Table()| && mm.Table()[k] != old(mm.Table())[k] ==> old(mm.Table())[k].kind.Available?
    {
      hide LinksOk, RootsOk, Agrees, ScanStart;
      ghost var fs, roots := mm.Table(), Roots();
      assert TablesOk(mem, fs, own);
      addr, found := mm.Alloc(size, align, kind, owner);
      if found.Some? {
        MarkedWereFree(fs, PagesFor(size), PagesFor(align), found.value, Frame(kind, owner));
      }
      ForestSurvivesFrameChange(mem, roots, fs, own, mm.Table());
      assert Roots() == roots;
    }

    /** 0 exactly when every page looked at allows the access. */
    method VerifyAccess(d: nat, addr: U64, size: U64, access: U32) returns (r: int)
      requires Valid()
      ensures r == 0 || r == -1
      ensures r == 0 <==> d < MAX_DOMAINS && domains[d].pml4 != 0 && Verdict(flat[d], addr, size, access)
      ensures CheckCoversRange(addr, size) ==>
        (r == 0 <==> d < MAX_DOMAINS && domains[d].pml4 != 0
                     && HardwareGrantsRange(mem, domains[d].pml4, addr, size, access))
    {
      hide CheckCoversRange, HardwareGrantsRange;
      hide Forest, Walk, Index, Page, PageAddr, Has, Present;
      if d >= MAX_DOMAINS || domains[d].pml4 == 0 {
        return -1;
      }
      if CheckCoversRange(addr, size) {
        CheckIsHardwareForCoveredRange(mem, Roots(), mm.Table(), own, flat, d, addr, size, access);
      }
      var numPages := PagesFor(size);
      var i := 0;
      while i < numPages
        invariant 0 <= i <= numPages
        invariant forall k :: 0 <= k < i ==> PageAllowed(flat[d], addr, k, access)
      {
        var pte := Walk(mem, domains[d].pml4, PageAddr(addr, i));
        assert Agrees(mem, Roots()[d], flat[d]);
        if !Present(pte) {
          assert !PageAllowed(flat[d], addr, i, access);
          return -1;
        }
        if BitAnd(access, 0x01) != 0 && !Has(pte, USER) {
          assert !PageAllowed(flat[d], addr, i, access);
          return -1;
        }
        if BitAnd(access, 0x02) != 0 && !Has(pte, WRITABLE) {
          assert !PageAllowed(flat[d], addr, i, access);
          return -1;
        }
        i := i + 1;
      }
      r := 0;
    }
  }

  /** The hardware translates every address of a domain as its flat map says. */
  lemma HardwareSeesFlatMap(mem: Memory, roots: seq<U64>, fs: seq<Frame>, own: map<U64, Place>, flat: seq<FlatMap>, d: nat, v: U64)
    requires Forest(mem, roots, fs, own) && AllAgree(mem, roots, flat) && d < MAX_DOMAINS && roots[d] != 0
    ensures Translate(mem, roots[d], v, 3) == LeafTranslation(Lookup(flat[d], Page(v)), v)
  {
    hide LeafTranslation, Translate, Page, Lookup, Walk;
    HardwareAgrees(mem, roots, fs, own, d, v, 3);
    assert Agrees(mem, roots[d], flat[d]);
  }

  /** A page passes the check exactly when the hardware grants the access to it. */
  lemma CheckIsWhatHardwareGrants(mem: Memory, roots: seq<U64>, fs: seq<Frame>, own: map<U64, Place>, flat: seq<FlatMap>,
                                  d: nat, addr: U64, i: nat, access: U32)
    requires Forest(mem, roots, fs, own) && AllAgree(mem, roots, flat) && d < MAX_DOMAINS && roots[d] != 0
    ensures PageAllowed(flat[d], addr, i, access) <==> HardwareGrants(mem, roots[d], PageAddr(addr, i), access)
  {
    assert |roots| == |flat| == MAX_DOMAINS;
    hide HardwareGrants, Allows, Page, Lookup, PageAddr, Forest, AllAgree;
    GrantIsAllowed(mem, roots, fs, own, flat, d, PageAddr(addr, i), access);
  }

  /** No walk of any domain but d finds anything different in mem'. */
  ghost predicate OthersUntouched(mem: Memory, mem': Memory, roots: seq<U64>, d: nat) {
    forall c, v: U64 :: 0 <= c < |roots| && c != d && roots[c] != 0 ==> Walk(mem', roots[c], v) == Walk(mem, roots[c], v)
  }

  lemma UnchangedMaps(mem: Memory, mem': Memory, roots: seq<U64>, flat: seq<FlatMap>, flat': seq<FlatMap>, d: nat)
    requires AllAgree(mem, roots, flat) && AllAgree(mem', roots, flat')
    requires forall c :: 0 <= c < |flat| && c != d ==> flat'[c] == flat[c]
    ensures OthersUntouched(mem, mem', roots, d)
  {
    hide Page, Walk, Lookup;
    forall c, v: U64 | 0 <= c < |roots| && c != d && roots[c] != 0
      ensures Walk(mem', roots[c], v) == Walk(mem, roots[c], v)
    {
      assert Agrees(mem, roots[c], flat[c]) && Agrees(mem', roots[c], flat'[c]);
    }
  }

  /** The hardware lets an access through at one address. */
  ghost predicate HardwareGrants(mem: Memory, root: U64, v: U64, access: U32) {
    match Translate(mem, root, v, 3)
    case Fault => false
    case Maps(_, writable, user) => (BitAnd(access, 0x01) != 0 ==> user) && (BitAnd(access, 0x02) != 0 ==> writable)
  }

  ghost predicate GrantsByte(mem: Memory, root: U64, addr: U64, k: nat, access: U32) {
    HardwareGrants(mem, root, Wrap(addr + k), access)
  }

  /** It lets the access through at every byte of a range. */
  ghost predicate HardwareGrantsRange(mem: Memory, root: U64, addr: U64, size: U64, access: U32) {
    forall k: nat :: k < size ==> GrantsByte(mem, root, addr, k, access)
  }

  lemma GrantIsAllowed(mem: Memory, roots: seq<U64>, fs: seq<Frame>, own: map<U64, Place>, flat: seq<FlatMap>, d: nat,
                       v: U64, access: U32)
    requires Forest(mem, roots, fs, own) && AllAgree(mem, roots, flat) && d < MAX_DOMAINS && roots[d] != 0
    ensures HardwareGrants(mem, roots[d], v, access) <==> Allows(Lookup(flat[d], Page(v)), access)
  {
    hide Translate, Page, Lookup, Has, Walk;
    HardwareSeesFlatMap(mem, roots, fs, own, flat, d, v);
  }

  /** For a range the check covers, it passes exactly when the hardware grants every byte. */
  lemma CheckIsHardwareForCoveredRange(mem: Memory, roots: seq<U64>, fs: seq<Frame>, own: map<U64, Place>, flat: seq<FlatMap>,
                                       d: nat, addr: U64, size: U64, access: U32)
    requires Forest(mem, roots, fs, own) && AllAgree(mem, roots, flat) && d < MAX_DOMAINS && roots[d] != 0
    requires CheckCoversRange(addr, size)
    ensures Verdict(flat[d], addr, size, access) <==> HardwareGrantsRange(mem, roots[d], addr, size, access)
  {
    assert |roots| == |flat| == MAX_DOMAINS;
    hide ByteAllowed, GrantsByte, Forest, AllAgree, Verdict, CheckCoversRange;
    CoveredVerdict(flat[d], addr, size, access);
    forall k: nat | k < size
      ensures GrantsByte(mem, roots[d], addr, k, access) <==> ByteAllowed(flat[d], addr, k, access)
    {
      ByteGranted(mem, roots, fs, own, flat, d, addr, k, access);
    }
  }

  lemma ByteGranted(mem: Memory, roots: seq<U64>, fs: seq<Frame>, own: map<U64, Place>, flat: seq<FlatMap>, d: nat,
                    addr: U64, k: nat, access: U32)
    requires Forest(mem, roots, fs, own) && AllAgree(mem, roots, flat) && d < MAX_DOMAINS && roots[d] != 0
    ensures GrantsByte(mem, roots[d], addr, k, access) <==> ByteAllowed(flat[d], addr, k, access)
  {
    assert |roots| == |flat| == MAX_DOMAINS;
    hide HardwareGrants, Allows, Page, Lookup, Wrap, Forest, AllAgree;
    GrantIsAllowed(mem, roots, fs, own, flat, d, Wrap(addr + k), access);
  }

  /** A size close to 2^64 wraps when rounded up, and passes with no page looked at. */
  lemma HugeSizePasses(m: FlatMap, addr: U64, size: U64, access: U32)
    requires size > TWO_64 - PAGE_SIZE
    ensures PagesFor(size) == 0 && Verdict(m, addr, size, access) && !CheckCoversRange(addr, size)
    ensures !AllBytesAllowed(map[], addr, size, access)
  {
    hide Page, Allows, Lookup;
    ModIs(size + PAGE_SIZE - 1, TWO_64, 1, size + PAGE_SIZE - 1 - TWO_64);
    NothingAllowed(Page(Wrap(addr + 0)), access);
    assert !ByteAllowed(map[], addr, 0, access);
  }

  lemma MarkedWereFree(fs: seq<Frame>, pages: nat, align: nat, s: nat, frame: Frame)
    requires align > 0 && Candidate(fs, Max(pages, 1), align, s)
    ensures s + pages <= |fs| && forall k :: 0 <= k < |fs| && Mark(fs, s, pages, frame)[k] != fs[k] ==> fs[k].kind.Available?
  {
    hide ScanStart;
  }

  lemma NothingMoves(mem: Memory, roots: seq<U64>, d: nat)
    ensures OtherTablesStay(mem, mem, roots, d) && (d < |roots| ==> SameTables(mem, mem, roots[d]))
  {
    hide TableAt;
  }

  lemma SameTablesTwice(mem: Memory, mid: Memory, mem': Memory, root: U64)
    requires SameTables(mem, mid, root) && SameTables(mid, mem', root)
    ensures SameTables(mem, mem', root)
  {
    hide TableAt;
    forall w: U64, l: nat {:trigger TableAt(mem', root, w, l)} | l <= 3
      ensures TableAt(mem', root, w, l) == TableAt(mem, root, w, l)
    {
      assert TableAt(mid, root, w, l) == TableAt(mem, root, w, l);
    }
  }

  lemma OtherTablesStayTwice(mem: Memory, mid: Memory, mem': Memory, roots: seq<U64>, d: nat)
    requires OtherTablesStay(mem, mid, roots, d) && OtherTablesStay(mid, mem', roots, d)
    ensures OtherTablesStay(mem, mem', roots, d)
  {
    hide SameTables;
    forall c | 0 <= c < |roots| && c != d
      ensures SameTables(mem, mem', roots[c])
    {
      SameTablesTwice(mem, mid, mem', roots[c]);
    }
  }

  lemma RootHasFrame(mem: Memory, roots: seq<U64>, fs: seq<Frame>, own: map<U64, Place>, d: nat)
    requires Forest(mem, roots, fs, own) && d < MAX_DOMAINS && roots[d] != 0
    ensures |fs| > 0
  {
  }

  lemma NothingTaken(fs: seq<Frame>)
    ensures LowestTaken(fs, fs)
  {
  }

  lemma RootIsTable(mem: Memory, root: U64, v: U64)
    ensures TableAt(mem, root, v, 3) == root
  {
  }

  lemma NextIsTable(mem: Memory, root: U64, v: U64, level: nat)
    requires 0 < level <= 3
    ensures TableAt(mem, root, v, level - 1) == Next(mem, TableAt(mem, root, v, level), v, level)
  {
    hide Next;
  }

  lemma StillHasTables(mem: Memory, mem': Memory, root: U64, v: U64)
    requires HasTables(mem, root, v) && TablesStay(mem, mem', root)
    ensures HasTables(mem', root, v)
  {
    hide TableAt;
    forall l: nat | l < 3
      ensures TableAt(mem', root, v, l) != 0
    {
      assert TableAt(mem, root, v, l) != 0;
    }
  }

  /** Three tables, found one after the other, are all there in the end. */
  lemma AllTables(mem1: Memory, mem2: Memory, mem3: Memory, root: U64, v: U64)
    requires TablesStay(mem1, mem2, root) && TablesStay(mem2, mem3, root)
    requires TableAt(mem1, root, v, 2) != 0 && TableAt(mem2, root, v, 1) != 0
    requires TableAt(mem3, root, v, 0) != 0
    ensures HasTables(mem3, root, v)
  {
    hide TableAt;
    assert TableAt(mem2, root, v, 2) != 0;
    assert TableAt(mem3, root, v, 2) != 0 && TableAt(mem3, root, v, 1) != 0 && TableAt(mem3, root, v, 0) != 0;
  }

  lemma ThreeSteps(mem: Memory, root: U64, v: U64)
    ensures TableAt(mem, root, v, 0) == Next(mem, Next(mem, Next(mem, root, v, 3), v, 2), v, 1)
  {
    hide Next;
    assert TableAt(mem, root, v, 2) == Next(mem, root, v, 3);
    assert TableAt(mem, root, v, 1) == Next(mem, TableAt(mem, root, v, 2), v, 2);
  }

  /** A page without a table already reads as unmapped. */
  lemma ClearMissing(mem: Memory, roots: seq<U64>, flat: seq<FlatMap>, d: nat, v: U64)
    requires d < |roots| == |flat| && Agrees(mem, roots[d], flat[d]) && TableAt(mem, roots[d], v, 0) == 0
    ensures Agrees(mem, roots[d], SetPage(flat[d], Page(v), 0))
  {
    hide Page, TableAt;
    assert Walk(mem, roots[d], v) == 0;
    forall w: U64
      ensures Walk(mem, roots[d], w) == Lookup(SetPage(flat[d], Page(v), 0), Page(w))
    {
      assert Walk(mem, roots[d], w) == Lookup(flat[d], Page(w));
    }
  }

  lemma AgreementMoved(mem: Memory, mem': Memory, roots: seq<U64>, flat: seq<FlatMap>, d: nat, page: nat, e: U64)
    requires OnePageChanged(mem, mem', roots, d, page, e) && AllAgree(mem, roots, flat) && d < |roots|
    ensures AllAgree(mem', roots, flat[d := SetPage(flat[d], page, e)])
  {
    hide Page, Walk;
  }

  lemma AgreementPlanted(mem: Memory, mem': Memory, roots: seq<U64>, flat: seq<FlatMap>, d: nat, root: U64)
    requires AllAgree(mem, roots, flat) && d < |roots|
    requires SameWalks(mem, mem', roots[d := 0]) && NothingMapped(mem', root)
    ensures AllAgree(mem', roots[d := root], flat[d := map[]])
  {
    hide Page, Walk;
    forall c | 0 <= c < |roots| && c != d
      ensures roots[d := root][c] == roots[d := 0][c] == roots[c]
    {
    }
  }

  lemma AgreementKept(mem: Memory, mem': Memory, roots: seq<U64>, flat: seq<FlatMap>)
    requires SameWalks(mem, mem', roots) && AllAgree(mem, roots, flat)
    ensures AllAgree(mem', roots, flat)
  {
  }

  lemma OwnedIsMapped(mem: Memory, roots: seq<U64>, fs: seq<Frame>, own: map<U64, Place>, a: U64)
    requires Forest(mem, roots, fs, own) && a in own
    ensures a in mem
  {
  }

  /** A frame that was available holds no table. */
  lemma Unused(mem: Memory, roots: seq<U64>, fs: seq<Frame>, own: map<U64, Place>, a: U64)
    requires Forest(mem, roots, fs, own) && a / PAGE_SIZE < |fs| && fs[a / PAGE_SIZE].kind.Available?
    ensures a !in own
  {
  }
}
