/** When Core-0's access check decides rightly, over all states that the machine can be in. */
module AccessCheck {
  import opened MachineInts
  import opened Frames
  import opened PageTables
  import opened Isolation

  /** The tables, the frames and the flat maps of all domains. */
  datatype Space = Space(mem: Memory, roots: seq<U64>, fs: seq<Frame>, own: map<U64, Place>, flat: seq<FlatMap>) {
    ghost predicate Ok() {
      Forest(mem, roots, fs, own) && AllAgree(mem, roots, flat)
    }
  }

  /** The tables below the root, by level and prefix, that n pages from `virt` on lie in. */
  ghost function TablesNeeded(virt: U64, n: nat): set<(nat, nat)> {
    set i: nat, l: nat | 0 <= i < n && 0 <= l < 3 :: (l, Prefix(PageAddr(virt, i), l))
  }

  /** The machine has frames for them, the root, and frame 0, which can hold no table. */
  ghost predicate TablesFit(virt: U64, n: nat) {
    |TablesNeeded(virt, n)| + 2 <= MAX_PAGES
  }

  // ---------- a range that passes has all its tables ----------

  ghost predicate HasPlace(own: map<U64, Place>, p: Place) {
    exists a :: a in own && own[a] == p
  }

  lemma {:induction false} PlacesFit(own: map<U64, Place>, d: nat, S: set<(nat, nat)>)
    requires forall x :: x in S ==> HasPlace(own, Place(d, x.0, x.1))
    ensures |S| <= |own|
    decreases |S|
  {
    if S != {} {
      var x :| x in S;
      var a :| a in own && own[a] == Place(d, x.0, x.1);
      var rest := own - {a};
      forall y | y in S - {x}
        ensures HasPlace(rest, Place(d, y.0, y.1))
      {
        var b :| b in own && own[b] == Place(d, y.0, y.1);
        assert b in rest && rest[b] == own[b];
      }
      PlacesFit(rest, d, S - {x});
      assert rest.Keys == own.Keys - {a};
    }
  }

  /** Distinct tables lie in distinct frames, and none in frame 0. */
  lemma {:induction false} FramesFit(K: set<U64>, n: nat)
    requires forall a :: a in K ==> a % PAGE_SIZE == 0 && 0 < a && a / PAGE_SIZE < n
    ensures |K| < n || |K| == 0
    decreases n
  {
    if n <= 1 {
      assert K == {};
    } else {
      var rest := set a | a in K && a / PAGE_SIZE < n - 1;
      FramesFit(rest, n - 1);
      if a :| a in K && a / PAGE_SIZE == n - 1 {
        assert forall b :: b in K && b / PAGE_SIZE == n - 1 ==> b == a;
        assert K == rest + {a};
      } else {
        assert K == rest;
      }
    }
  }

  /** If the check passes, the tables of the range exist, so the machine has frames for them. */
  lemma PassingFits(s: Space, d: nat, addr: U64, size: U64, access: U32)
    requires s.Ok() && d < MAX_DOMAINS && s.roots[d] != 0 && Verdict(s.flat[d], addr, size, access)
    ensures TablesFit(addr, PagesFor(size))
  {
    hide Prefix, PageAddr, PagesFor;
    var n := PagesFor(size);
    var S := TablesNeeded(addr, n) + {(3, 0)};
    forall x | x in S
      ensures HasPlace(s.own, Place(d, x.0, x.1))
    {
      if x == (3, 0) {
        assert s.own[s.roots[d]] == Place(d, 3, 0);
      } else {
        var i: nat, l: nat :| i < n && l < 3 && x == (l, Prefix(PageAddr(addr, i), l));
        assert PageAllowed(s.flat[d], addr, i, access);
        AllowedHasTable(s, d, addr, i, access, l);
      }
    }
    PlacesFit(s.own, d, S);
    FramesFit(s.own.Keys, |s.fs|);
    assert (3, 0) !in TablesNeeded(addr, n);
  }

  lemma AllowedHasTable(s: Space, d: nat, addr: U64, i: nat, access: U32, l: nat)
    requires s.Ok() && d < MAX_DOMAINS && s.roots[d] != 0 && l < 3 && PageAllowed(s.flat[d], addr, i, access)
    ensures HasPlace(s.own, Place(d, l, Prefix(PageAddr(addr, i), l)))
  {
    var v := PageAddr(addr, i);
    hide Prefix, PageAddr, Has, TableAt, Page;
    assert Walk(s.mem, s.roots[d], v) == Lookup(s.flat[d], Page(v)) by { assert Agrees(s.mem, s.roots[d], s.flat[d]); }
    NothingPresent();
    if TableAt(s.mem, s.roots[d], v, l) == 0 {
      StoppedWalk(s.mem, s.roots[d], v, l, 0);
    }
    WalkStaysOnPath(s.mem, s.roots, s.fs, s.own, d, v, l);
    assert s.own[TableAt(s.mem, s.roots[d], v, l)] == Place(d, l, Prefix(v, l));
  }

  // ---------- building a state in which a range is mapped ----------

  /** Domain d has a root, and the tables that n pages from `virt` on still miss can be had. */
  ghost predicate CanGrow(s: Space, d: nat, virt: U64, n: nat) {
    && s.Ok() && d < MAX_DOMAINS && s.roots[d] != 0
    && |s.fs| > 0 && !s.fs[0].kind.Available? && EnoughFrames(s.mem, s.roots[d], s.fs, virt, n)
  }

  lemma FrameToTake(fs: seq<Frame>) returns (b: U64)
    requires 0 < |fs| <= MAX_PAGES && !fs[0].kind.Available? && |AvailableFrames(fs)| > 0
    ensures b > 0 && b % PAGE_SIZE == 0 && b / PAGE_SIZE < |fs| && fs[b / PAGE_SIZE].kind.Available?
  {
    var k :| k in AvailableFrames(fs);
    b := k * PAGE_SIZE;
    ModIs(b, PAGE_SIZE, k, 0);
  }

  lemma SomeFrameLeft(mem: Memory, root: U64, fs: seq<Frame>, virt: U64, n: nat, i: nat, l: nat)
    requires i < n && l < 3 && TableAt(mem, root, PageAddr(virt, i), l) == 0 && EnoughFrames(mem, root, fs, virt, n)
    ensures |AvailableFrames(fs)| > 0
  {
    hide TableAt, PageAddr, Prefix;
    assert (l, Prefix(PageAddr(virt, i), l)) in Missing(mem, root, virt, n);
  }

  /** One table on the way to a page, created when missing. */
  lemma GrowTable(s: Space, d: nat, virt: U64, n: nat, i: nat, level: nat) returns (t: Space)
    requires CanGrow(s, d, virt, n) && i < n && 0 < level <= 3
    requires TableAt(s.mem, s.roots[d], PageAddr(virt, i), level) != 0
    ensures CanGrow(t, d, virt, n) && t.roots == s.roots && t.flat == s.flat
    ensures TableAt(t.mem, s.roots[d], PageAddr(virt, i), level - 1) != 0
  {
    var v, root := PageAddr(virt, i), s.roots[d];
    if TableAt(s.mem, root, v, level - 1) != 0 {
      t := s;
      return;
    }
    hide PageAddr, TableAt, Prefix, Index, EnoughFrames, Agrees, LinksOk, RootsOk, Linked, SameWalks, OneTableMore;
    SomeFrameLeft(s.mem, root, s.fs, virt, n, i, level - 1);
    assert TablesOk(s.mem, s.fs, s.own);
    var b := FrameToTake(s.fs);
    Unused(s.mem, s.roots, s.fs, s.own, b);
    var fs' := s.fs[b / PAGE_SIZE := Frame(Kernel, 0)];
    ForestSurvivesAlloc(s.mem, s.roots, s.fs, s.own, fs');
    var table := TableAt(s.mem, root, v, level);
    LinkTable(s.mem, s.roots, fs', s.own, d, v, level, table, b);
    LinkAddsOneTable(s.mem, s.roots, fs', s.own, d, v, level, table, b);
    var mem' := Linked(s.mem, table, v, level, b);
    AgreementKept(s.mem, mem', s.roots, s.flat);
    TableCreated(s.mem, mem', root, s.fs, fs', virt, n, i, level - 1, b);
    t := Space(mem', s.roots, fs', s.own[b := Place(d, level - 1, Prefix(v, level - 1))], s.flat);
  }

  /** One page mapped. */
  lemma GrowPage(s: Space, d: nat, virt: U64, n: nat, i: nat, entry: U64) returns (t: Space)
    requires CanGrow(s, d, virt, n) && i < n
    ensures CanGrow(t, d, virt, n) && t.roots == s.roots
    ensures t.flat == s.flat[d := SetPage(s.flat[d], Page(PageAddr(virt, i)), entry)]
  {
    CanGrowShape(s, d, virt, n);
    hide PageAddr, TableAt, Prefix, Index, EnoughFrames, Forest, Agrees, Page;
    var v, root := PageAddr(virt, i), s.roots[d];
    RootIsTable(s.mem, root, v);
    var s1 := GrowTable(s, d, virt, n, i, 3);
    var s2 := GrowTable(s1, d, virt, n, i, 2);
    var s3 := GrowTable(s2, d, virt, n, i, 1);
    var pt := TableAt(s3.mem, root, v, 0);
    StoreLeaf(s3.mem, s3.roots, s3.fs, s3.own, d, v, pt, entry);
    StoreKeepsTables(s3.mem, s3.roots, s3.fs, s3.own, d, v, pt, entry);
    OwnedIsMapped(s3.mem, s3.roots, s3.fs, s3.own, pt);
    var mem' := Written(s3.mem, pt, Index(v, 0), entry);
    SameTablesSameNeed(s3.mem, mem', root, s3.fs, virt, n);
    AgreementMoved(s3.mem, mem', s3.roots, s3.flat, d, Page(v), entry);
    t := Space(mem', s3.roots, s3.fs, s3.own, s3.flat[d := SetPage(s3.flat[d], Page(v), entry)]);
  }

  /** The first k pages mapped. */
  lemma {:induction false} GrowRange(s: Space, d: nat, virt: U64, phys: U64, flags: U64, n: nat, k: nat) returns (t: Space)
    requires CanGrow(s, d, virt, n) && k <= n
    ensures CanGrow(t, d, virt, n) && t.roots == s.roots
    ensures t.flat == s.flat[d := MapPages(s.flat[d], virt, phys, flags, k)]
    decreases k
  {
    hide CanGrow, PageAddr, Page, LeafEntry, SetPage, MapPages;
    CanGrowIndex(s, d, virt, n);
    if k == 0 {
      t := s;
      NoPages(s.flat, d, virt, phys, flags);
    } else {
      var s1 := GrowRange(s, d, virt, phys, flags, n, k - 1);
      t := GrowPage(s1, d, virt, n, k - 1, LeafEntry(PageAddr(phys, k - 1), flags));
      OneMorePage(s.flat, s1.flat, t.flat, d, virt, phys, flags, k);
    }
  }

  lemma NoPages(flat: seq<FlatMap>, d: nat, virt: U64, phys: U64, flags: U64)
    requires d < |flat|
    ensures flat == flat[d := MapPages(flat[d], virt, phys, flags, 0)]
  {
  }

  lemma OneMorePage(flat: seq<FlatMap>, flat1: seq<FlatMap>, flat2: seq<FlatMap>, d: nat, virt: U64, phys: U64, flags: U64, k: nat)
    requires d < |flat| && k > 0 && flat1 == flat[d := MapPages(flat[d], virt, phys, flags, k - 1)]
    requires flat2 == flat1[d := SetPage(flat1[d], Page(PageAddr(virt, k - 1)), LeafEntry(PageAddr(phys, k - 1), flags))]
    ensures flat2 == flat[d := MapPages(flat[d], virt, phys, flags, k)]
  {
    hide SetPage, Page, PageAddr, LeafEntry;
  }

  lemma {:induction false} CountAvailable(fs: seq<Frame>, lo: nat)
    requires lo <= |fs| && forall k :: 0 <= k < |fs| ==> (fs[k].kind.Available? <==> lo <= k)
    ensures |AvailableFrames(fs)| == |fs| - lo
  {
    if |fs| == lo {
      assert AvailableFrames(fs) == {};
    } else {
      var n := |fs| - 1;
      CountAvailable(fs[..n], lo);
      assert AvailableFrames(fs) == AvailableFrames(fs[..n]) + {n};
    }
  }

  /** Never more tables are missing than are needed. */
  lemma MissingIsNeeded(mem: Memory, root: U64, virt: U64, n: nat)
    ensures |Missing(mem, root, virt, n)| <= |TablesNeeded(virt, n)|
  {
    hide TableAt, PageAddr, Prefix;
    assert Missing(mem, root, virt, n) <= TablesNeeded(virt, n);
    SubsetSize(Missing(mem, root, virt, n), TablesNeeded(virt, n));
  }

  /** A machine of the largest size, with an empty address space for domain 0. */
  lemma FreshSpace(virt: U64, n: nat) returns (s: Space)
    requires TablesFit(virt, n)
    ensures CanGrow(s, 0, virt, n) && s.flat[0] == map[]
  {
    hide PageAddr, TableAt, Prefix, Index, Present, Address, Has, Walk, Missing, TablesNeeded;
    var roots: seq<U64> := seq(MAX_DOMAINS, _ => 0);
    var fs := seq(MAX_PAGES, k => if k <= 1 then Frame(Kernel, 0) else Frame(Available, 0));
    PlantRoot(map[], roots, fs, map[], 0, 4096);
    s := Space(map[4096 := ZeroTable()], roots[0 := 4096], fs, map[4096 := Place(0, 3, 0)], seq(MAX_DOMAINS, _ => map[]));
    assert map[][4096 := ZeroTable()] == s.mem && map[][4096 := Place(0, 3, 0)] == s.own;
    CountAvailable(fs, 2);
    MissingIsNeeded(s.mem, 4096, virt, n);
  }

  /** A state in which the check lets through an access to a byte that the hardware refuses. */
  lemma MissedInState(addr: U64, size: U64, access: U32) returns (s: Space)
    requires !CheckCoversRange(addr, size) && TablesFit(addr, PagesFor(size))
    ensures s.Ok() && s.roots[0] != 0 && Verdict(s.flat[0], addr, size, access)
    ensures size > 0 && !GrantsByte(s.mem, s.roots[0], addr, size - 1, access)
  {
    hide CanGrow, Verdict, CheckCoversRange, TablesFit, PagesFor, ByteAllowed, GrantsByte;
    var s0 := FreshSpace(addr, PagesFor(size));
    CanGrowIndex(s0, 0, addr, PagesFor(size));
    s := GrowRange(s0, 0, addr, 0, 7, PagesFor(size), PagesFor(size));
    CanGrowShape(s, 0, addr, PagesFor(size));
    MissedPage(s.flat[0], addr, size, access);
    ByteGranted(s.mem, s.roots, s.fs, s.own, s.flat, 0, addr, size - 1, access);
  }

  lemma CanGrowIndex(s: Space, d: nat, virt: U64, n: nat)
    requires CanGrow(s, d, virt, n)
    ensures |s.flat| == MAX_DOMAINS && d < MAX_DOMAINS
  {
  }

  lemma CanGrowShape(s: Space, d: nat, virt: U64, n: nat)
    requires CanGrow(s, d, virt, n)
    ensures s.Ok() && |s.flat| == |s.roots| == MAX_DOMAINS && d < MAX_DOMAINS && s.roots[d] != 0
  {
  }

  // ---------- the exact condition ----------

  /** A state that the machine can be in, with a domain that has an address space. */
  ghost predicate HasRoot(s: Space, d: nat) {
    s.Ok() && d < MAX_DOMAINS && s.roots[d] != 0
  }

  /** The check agrees with the hardware on the whole range, for this state and domain. */
  ghost predicate DecidesRightly(s: Space, d: nat, addr: U64, size: U64, access: U32)
    requires HasRoot(s, d)
  {
    Verdict(s.flat[d], addr, size, access) <==> HardwareGrantsRange(s.mem, s.roots[d], addr, size, access)
  }

  lemma GrantedRangePasses(s: Space, d: nat, addr: U64, size: U64, access: U32)
    requires s.Ok() && d < MAX_DOMAINS && s.roots[d] != 0 && HardwareGrantsRange(s.mem, s.roots[d], addr, size, access)
    ensures Verdict(s.flat[d], addr, size, access)
  {
    hide GrantsByte, ByteAllowed, PageAllowed, PagesFor, Forest, AllAgree;
    assert |s.flat| == MAX_DOMAINS by { FlatsOfOk(s); }
    forall k: nat | k < size
      ensures ByteAllowed(s.flat[d], addr, k, access)
    {
      ByteGranted(s.mem, s.roots, s.fs, s.own, s.flat, d, addr, k, access);
    }
    forall i | 0 <= i < PagesFor(size)
      ensures PageAllowed(s.flat[d], addr, i, access)
    {
      FirstByte(s.flat[d], addr, size, i, access);
    }
  }

  lemma FlatsOfOk(s: Space)
    requires s.Ok()
    ensures |s.flat| == |s.roots| == MAX_DOMAINS
  {
  }

  /** In every state and for every domain with a root, the check passes exactly when the hardware
      grants every byte, if and only if the check covers the range or the range needs more tables
      than the machine has frames. */
  lemma VerdictIsExactIff(addr: U64, size: U64, access: U32)
    ensures (forall s: Space, d: nat :: HasRoot(s, d) ==> DecidesRightly(s, d, addr, size, access))
            <==> CheckCoversRange(addr, size) || !TablesFit(addr, PagesFor(size))
  {
    hide CheckCoversRange, TablesFit, PagesFor, Verdict, HardwareGrantsRange, Forest, AllAgree;
    if CheckCoversRange(addr, size) || !TablesFit(addr, PagesFor(size)) {
      forall s: Space, d: nat | HasRoot(s, d)
        ensures DecidesRightly(s, d, addr, size, access)
      {
        FlatsOfOk(s);
        if CheckCoversRange(addr, size) {
          CheckIsHardwareForCoveredRange(s.mem, s.roots, s.fs, s.own, s.flat, d, addr, size, access);
        } else {
          if Verdict(s.flat[d], addr, size, access) {
            PassingFits(s, d, addr, size, access);
          }
          if HardwareGrantsRange(s.mem, s.roots[d], addr, size, access) {
            GrantedRangePasses(s, d, addr, size, access);
          }
        }
      }
    } else {
      var s := MissedInState(addr, size, access);
      FlatsOfOk(s);
      NotWholeRange(s.mem, s.roots[0], addr, size, access);
      assert !DecidesRightly(s, 0, addr, size, access);
    }
  }

  lemma NotWholeRange(mem: Memory, root: U64, addr: U64, size: U64, access: U32)
    requires size > 0 && !GrantsByte(mem, root, addr, size - 1, access)
    ensures !HardwareGrantsRange(mem, root, addr, size, access)
  {
  }

  // ---------- the same with the operations themselves ----------

  /** A client that boots the largest machine, maps exactly the pages the check will look at, and
      asks: the check says yes, and the last byte of the range faults. */
  method PassesAndFaults(addr: U64, size: U64, access: U32) returns (s: IsolationState, r: int)
    requires !CheckCoversRange(addr, size) && TablesFit(addr, PagesFor(size))
    ensures s.Valid() && s.domains[0].pml4 != 0 && r == 0
    ensures size > 0 && !GrantsByte(s.mem, s.domains[0].pml4, addr, size - 1, access)
  {
    hide Forest, AllAgree, CheckCoversRange, TablesFit, PagesFor, Verdict, EnoughFrames, GrantsByte;
    hide HardwareGrantsRange, OneTableTaken, Frame0Taken, LowestTaken, FramesAreTables, OthersUntouched, AvailableFrames;
    var mm := BootFrames();
    s := new IsolationState(mm);
    TableFrameLeft(mm.Table());
    ghost var fs := mm.Table();
    r := s.CreatePageTables(0, 0);
    ghost var root := s.domains[0].pml4;
    EnoughAfterRoot(s.mem, root, fs, mm.Table(), addr, PagesFor(size));
    ghost var done;
    r, done := s.MapMemory(0, addr, 0, size, Data, true);
    assert MapFlags(Data) == 7 by { LeafValue(0, Data); }
    MissedPage(s.flat[0], addr, size, access);
    r := s.VerifyAccess(0, addr, size, access);
    ByteGranted(s.mem, s.Roots(), s.mm.Table(), s.own, s.flat, 0, addr, size - 1, access);
  }

  /** All frames but frame 0 released. */
  method BootFrames() returns (mm: FrameAllocator)
    ensures mm.Valid() && fresh(mm) && fresh(mm.frames) && |mm.Table()| == MAX_PAGES
    ensures forall k :: 0 <= k < MAX_PAGES ==> (mm.Table()[k].kind.Available? <==> k > 0)
  {
    mm := new FrameAllocator(MAX_PAGES * PAGE_SIZE);
    for k := 1 to MAX_PAGES
      invariant mm.Valid() && fresh(mm) && fresh(mm.frames) && |mm.Table()| == MAX_PAGES
      invariant forall j :: 0 <= j < MAX_PAGES ==> (mm.Table()[j].kind.Available? <==> 0 < j < k)
    {
      var r := mm.Free(k * PAGE_SIZE);
    }
  }

  lemma TableFrameLeft(fs: seq<Frame>)
    requires |fs| == MAX_PAGES && forall k :: 0 <= k < MAX_PAGES ==> (fs[k].kind.Available? <==> k > 0)
    ensures !NoTableFrame(fs) && |AvailableFrames(fs)| == MAX_PAGES - 1
  {
    assert fs[1].kind.Available?;
    CountAvailable(fs, 1);
  }

  lemma EnoughAfterRoot(mem: Memory, root: U64, fs: seq<Frame>, fs': seq<Frame>, virt: U64, n: nat)
    requires TablesFit(virt, n) && |AvailableFrames(fs)| == MAX_PAGES - 1 && OneTableTaken(fs, fs', 0, root)
    requires |fs| > 0 && !fs[0].kind.Available?
    ensures EnoughFrames(mem, root, fs', virt, n)
  {
    hide Missing, AvailableFrames, TablesNeeded;
    FramesAfterTable(fs, fs', root);
    MissingIsNeeded(mem, root, virt, n);
  }
}
