/** The four-level page tables of x86-64 as values: entries, the walk, and the forest they form. */
module PageTables {
  import opened MachineInts
  import opened Frames

  const MAX_DOMAINS: nat := 256
  const ENTRIES: nat := 512

  const PRESENT: U64 := 0x01
  const WRITABLE: U64 := 0x02
  const USER: U64 := 0x04
  const PWT: U64 := 0x08
  const PCD: U64 := 0x10
  const PS: U64 := 0x80
  const ADDRESS_MASK: U64 := 0x000F_FFFF_FFFF_F000

  /** One 4096-byte table; tables live in physical memory under their address. */
  type Table = t: seq<U64> | |t| == ENTRIES witness seq(ENTRIES, _ => 0)
  type Memory = map<U64, Table>

  /** What a table frame is for: the domain, the level (3 for PML4 down to 0 for PT), and
      the virtual-address bits that lead to it. */
  datatype Place = Place(domain: nat, level: nat, prefix: nat)

  datatype MapType = Code | Data | ReadOnly | Device | Shared | Other

  // ---------- bit fields ----------

  /** PML4_INDEX, PDPT_INDEX, PD_INDEX and PT_INDEX, for levels 3 down to 0. */
  function Index(v: U64, level: nat): (i: nat)
    ensures i < ENTRIES
  {
    BitAnd(Shr(v, 12 + 9 * level), 0x1FF)
  }

  /** The address bits that select the table of a level, most significant first. */
  function Prefix(v: U64, level: nat): nat
    requires level <= 3
    decreases 3 - level
  {
    if level == 3 then 0 else Prefix(v, level + 1) * ENTRIES + Index(v, level + 1)
  }

  lemma PrefixStep(v: U64, level: nat)
    requires 0 < level <= 3
    ensures Prefix(v, level - 1) == Prefix(v, level) * ENTRIES + Index(v, level)
  {
  }

  /** The page number, bits 47..12. */
  function Page(v: U64): nat {
    v / PAGE_SIZE % 0x10_0000_0000
  }

  lemma IndexIs(v: U64)
    ensures Index(v, 3) == v / 0x80_0000_0000 % 512
    ensures Index(v, 2) == v / 0x4000_0000 % 512
    ensures Index(v, 1) == v / 0x20_0000 % 512
    ensures Index(v, 0) == v / 0x1000 % 512
  {
    Pow2Values();
    assert Pow2(9) == 512;
    forall k: nat
      ensures BitAnd(Shr(v, k), 0x1FF) == v / Pow2(k) % 512
    {
      ShiftsArePowers(v, k);
      AndLowMask(Shr(v, k), 9);
    }
  }

  /** The four indices together are the page number: the walk tells all pages apart. */
  lemma PageIsPath(v: U64)
    ensures Page(v) == Prefix(v, 0) * ENTRIES + Index(v, 0)
  {
    hide Index, Prefix;
    IndexIsDigit(v);
    Digits(v / 0x1000);
    PrefixIsDigits(v);
  }

  /** The indices are the digits of the page number. */
  lemma IndexIsDigit(v: U64)
    ensures Index(v, 3) == v / 0x1000 / 0x800_0000 % 512 && Index(v, 2) == v / 0x1000 / 0x4_0000 % 512
    ensures Index(v, 1) == v / 0x1000 / 512 % 512 && Index(v, 0) == v / 0x1000 % 512
  {
    hide Index;
    IndexIs(v);
    PagesOfTop(v);
    PagesOfSecond(v);
    PagesOfThird(v);
  }

  lemma PagesOfTop(v: nat)
    ensures v / 0x1000 / 0x800_0000 == v / 0x80_0000_0000
  {
  }

  lemma PagesOfSecond(v: nat)
    ensures v / 0x1000 / 0x4_0000 == v / 0x4000_0000
  {
  }

  lemma PagesOfThird(v: nat)
    ensures v / 0x1000 / 512 == v / 0x20_0000
  {
  }

  lemma PrefixIsDigits(v: U64)
    ensures Prefix(v, 0) == (Index(v, 3) * ENTRIES + Index(v, 2)) * ENTRIES + Index(v, 1)
  {
    hide Index;
    assert Prefix(v, 2) == Index(v, 3);
    assert Prefix(v, 1) == Prefix(v, 2) * ENTRIES + Index(v, 2);
    assert Prefix(v, 0) == Prefix(v, 1) * ENTRIES + Index(v, 1);
  }

  lemma Digits(p: nat)
    ensures p % 0x10_0000_0000 ==
            ((p / 0x800_0000 % 512 * 512 + p / 0x4_0000 % 512) * 512 + p / 512 % 512) * 512 + p % 512
  {
    var q := p / 512;
    var r := q / 512;
    var t := r / 512;
    var low := ((t % 512 * 512 + r % 512) * 512 + q % 512) * 512 + p % 512;
    assert r == p / 0x4_0000 && t == p / 0x800_0000;
    assert p == 512 * q + p % 512 && q == 512 * r + q % 512 && r == 512 * t + r % 512 && t == t / 512 * 512 + t % 512;
    ModIs(p, 0x10_0000_0000, t / 512, low);
  }

  predicate Has(e: U64, flag: U64) {
    BitAnd(e, flag) != 0
  }

  predicate Present(e: U64) {
    Has(e, PRESENT)
  }

  /** PTE_GET_ADDRESS. */
  function Address(e: U64): (a: U64)
  {
    BitAnd(e, ADDRESS_MASK)
  }

  /** What create-on-demand stores for a child table. */
  function LinkEntry(table: U64): U64 {
    Or64(Or64(Or64(table, PRESENT), WRITABLE), USER)
  }

  function LeafEntry(phys: U64, flags: U64): U64 {
    Or64(phys, flags)
  }

  function MapFlags(t: MapType): U64 {
    match t
    case Code => Or64(PRESENT, USER)
    case Data => Or64(PRESENT, Or64(WRITABLE, USER))
    case ReadOnly => Or64(PRESENT, USER)
    case Device => Or64(PRESENT, Or64(Or64(WRITABLE, PCD), PWT))
    case Shared => Or64(PRESENT, Or64(WRITABLE, USER))
    case Other => PRESENT
  }

  lemma AddressIs(e: U64)
    ensures Address(e) == e / PAGE_SIZE % 0x100_0000_0000 * PAGE_SIZE
  {
    var m := 0xFF_FFFF_FFFF;
    Pow2Values();
    AndHighMask(e, m, 12);
    ShiftsArePowers(m, 12);
    ShiftsArePowers(e, 12);
    AndLowMask(e / PAGE_SIZE, 40);
    ShiftsArePowers(e / PAGE_SIZE % (m + 1), 12);
  }

  lemma FlagIs(e: U64, k: nat)
    requires Pow2(k) < TWO_64
    ensures Has(e, Pow2(k)) <==> e / Pow2(k) % 2 == 1
  {
    AndHighMask(e, 1, k);
    ShiftsArePowers(1, k);
    ShiftsArePowers(e, k);
    AndOddMask(e / Pow2(k), 0);
    assert BitAnd(e / Pow2(k) / 2, 0) == 0;
    ShiftsArePowers(e / Pow2(k) % 2, k);
  }

  lemma FlagsAre(e: U64)
    ensures Has(e, PRESENT) <==> e % 2 == 1
    ensures Has(e, WRITABLE) <==> e / 2 % 2 == 1
    ensures Has(e, USER) <==> e / 4 % 2 == 1
    ensures Has(e, PS) <==> e / 128 % 2 == 1
  {
    assert Pow2(0) == 1 && Pow2(1) == 2 && Pow2(2) == 4;
    assert Pow2(7) == 128;
    FlagIs(e, 0);
    FlagIs(e, 1);
    FlagIs(e, 2);
    FlagIs(e, 7);
  }

  lemma LinkValue(a: U64)
    requires a % PAGE_SIZE == 0
    ensures LinkEntry(a) == a + 7
  {
    hide BitOr;
    LowThreeClear(a);
    ThreeFlags(a / 8);
  }

  lemma LowThreeClear(a: U64)
    requires a % PAGE_SIZE == 0
    ensures a == 8 * (a / 8)
  {
    ModIs(a, 8, 512 * (a / PAGE_SIZE), 0);
  }

  lemma ThreeFlags(h: nat)
    ensures BitOr(BitOr(BitOr(8 * h, 1), 2), 4) == 8 * h + 7
  {
    hide BitOr;
    assert BitOr(2 * (4 * h), 1) == 8 * h + 1 by {
      OrEven(4 * h, 1);
      OrZero(4 * h);
    }
    assert BitOr(2 * (4 * h) + 1, 2) == 8 * h + 3 by {
      OrOdd(4 * h, 2);
      OrEven(2 * h, 1);
      OrZero(2 * h);
    }
    assert BitOr(2 * (4 * h + 1) + 1, 4) == 8 * h + 7 by {
      OrOdd(4 * h + 1, 4);
      OrOdd(2 * h, 2);
      OrEven(h, 1);
      OrZero(h);
    }
  }

  lemma OrZero(x: nat)
    ensures BitOr(x, 0) == x
  {
  }

  lemma OrOdd(x: nat, c: nat)
    ensures BitOr(2 * x + 1, c) == 2 * BitOr(x, c / 2) + 1
  {
  }

  lemma NothingPresent()
    ensures !Present(0)
  {
  }

  /** A link decodes to the table it was made from, with all rights and no large page. */
  lemma LinkRoundTrip(a: U64)
    requires a % PAGE_SIZE == 0 && a < 0x10_0000_0000_0000
    ensures var e := LinkEntry(a);
            Address(e) == a && Present(e) && Has(e, WRITABLE) && Has(e, USER) && !Has(e, PS)
  {
    hide LinkEntry, Address, Has;
    LinkValue(a);
    LowFieldBits(a + 7, a / PAGE_SIZE, 7);
    LowFieldAddress(a, 7);
    AddressIs(a + 7);
    FlagsAre(a + 7);
  }

  lemma LeafValue(phys: U64, t: MapType)
    requires phys % PAGE_SIZE == 0
    ensures MapFlags(t) == match t case Code => 5 case Data => 7 case ReadOnly => 5 case Device => 0x1B case Shared => 7 case Other => 1
    ensures LeafEntry(phys, MapFlags(t)) == phys + MapFlags(t)
  {
    assert BitOr(2, 4) == 6 && BitOr(1, 4) == 5 && BitOr(1, 6) == 7;
    assert BitOr(2, 16) == 18 && BitOr(18, 8) == 26 && BitOr(1, 26) == 27;
    LowFieldOr(phys, MapFlags(t));
  }

  lemma LowFieldOr(phys: U64, f: U64)
    requires phys % PAGE_SIZE == 0 && f < PAGE_SIZE
    ensures LeafEntry(phys, f) == phys + f
  {
    hide BitOr;
    Pow2Values();
    ShiftsArePowers(phys / PAGE_SIZE, 12);
    OrDisjoint(phys / PAGE_SIZE, f, 12);
  }

  lemma LowFieldBits(e: nat, h: nat, f: nat)
    requires e == h * PAGE_SIZE + f
    ensures e % 2 == f % 2 && e / 2 % 2 == f / 2 % 2
    ensures e / 4 % 2 == f / 4 % 2 && e / 128 % 2 == f / 128 % 2
  {
    DivShift(e, h * 2048, 2, f);
    DivShift(e / 2, h * 1024, 2, f / 2);
    DivShift(e, h * 1024, 4, f);
    DivShift(e / 4, h * 512, 2, f / 4);
    DivShift(e, h * 32, 128, f);
    DivShift(e / 128, h * 16, 2, f / 128);
  }

  lemma LowFieldAddress(phys: U64, f: nat)
    requires phys % PAGE_SIZE == 0 && f < PAGE_SIZE && phys < 0x10_0000_0000_0000
    ensures (phys + f) / PAGE_SIZE % 0x100_0000_0000 * PAGE_SIZE == phys
  {
    assert (phys + f) / PAGE_SIZE == phys / PAGE_SIZE;
  }

  /** For an aligned frame, the leaf decodes to the frame and exactly the rights of the type. */
  lemma LeafRoundTrip(phys: U64, t: MapType)
    requires phys % PAGE_SIZE == 0 && phys < 0x10_0000_0000_0000
    ensures var e := LeafEntry(phys, MapFlags(t));
            && Address(e) == phys && Present(e)
            && (Has(e, WRITABLE) <==> t.Data? || t.Device? || t.Shared?)
            && (Has(e, USER) <==> t.Code? || t.Data? || t.ReadOnly? || t.Shared?)
  {
    hide LeafEntry, Address, Has, MapFlags;
    LeafValue(phys, t);
    LowFieldBits(phys + MapFlags(t), phys / PAGE_SIZE, MapFlags(t));
    LowFieldAddress(phys, MapFlags(t));
    AddressIs(phys + MapFlags(t));
    FlagsAre(phys + MapFlags(t));
  }

  // ---------- the walk ----------

  function Entry(mem: Memory, table: U64, i: nat): U64
    requires i < ENTRIES
  {
    if table in mem then mem[table][i] else 0
  }

  /** One step down from the table of a level: the three walk functions of the source. */
  function Next(mem: Memory, table: U64, v: U64, level: nat): U64
    requires 0 < level <= 3
  {
    if table == 0 then 0
    else
      var e := Entry(mem, table, Index(v, level));
      if !Present(e) then 0 else Address(e)
  }

  /** The table that the walk for `v` visits at a level; 0 when the walk stops earlier. */
  function TableAt(mem: Memory, root: U64, v: U64, level: nat): U64
    requires level <= 3
    decreases 3 - level
  {
    if level == 3 then root else Next(mem, TableAt(mem, root, v, level + 1), v, level + 1)
  }

  /** The page-table entry that the walk finds for `v`; 0 when a level is missing. */
  function Walk(mem: Memory, root: U64, v: U64): U64 {
    var table := TableAt(mem, root, v, 0);
    if table == 0 then 0 else Entry(mem, table, Index(v, 0))
  }

  // ---------- the forest ----------

  ghost predicate LinkOk(e: U64, child: Place, own: map<U64, Place>) {
    && Address(e) in own && own[Address(e)] == child
    && Has(e, WRITABLE) && Has(e, USER) && !Has(e, PS)
  }

  ghost predicate TablesOk(mem: Memory, fs: seq<Frame>, own: map<U64, Place>) {
    && |fs| <= MAX_PAGES
    && forall a :: a in own ==>
         && a in mem && a > 0 && a % PAGE_SIZE == 0 && own[a].level <= 3
         && a / PAGE_SIZE < |fs| && !fs[a / PAGE_SIZE].kind.Available?
  }

  ghost predicate LinksOk(mem: Memory, own: map<U64, Place>) {
    forall a, i {:trigger Entry(mem, a, i)} :: a in own && own[a].level > 0 && 0 <= i < ENTRIES && Present(Entry(mem, a, i)) ==>
      LinkOk(Entry(mem, a, i), Place(own[a].domain, own[a].level - 1, own[a].prefix * ENTRIES + i), own)
  }

  ghost predicate RootsOk(roots: seq<U64>, own: map<U64, Place>) {
    && |roots| == MAX_DOMAINS
    && forall d :: 0 <= d < |roots| && roots[d] != 0 ==> roots[d] in own && own[roots[d]] == Place(d, 3, 0)
  }

  /** `own` gives every table frame one place, and every link leads to the place it should:
      hence no table is reached along two paths or from two domains. */
  ghost predicate Forest(mem: Memory, roots: seq<U64>, fs: seq<Frame>, own: map<U64, Place>) {
    TablesOk(mem, fs, own) && LinksOk(mem, own) && RootsOk(roots, own)
  }

  /** A walk visits only tables whose place is on its path. */
  lemma {:induction false} WalkStaysOnPath(mem: Memory, roots: seq<U64>, fs: seq<Frame>, own: map<U64, Place>,
                                           d: nat, v: U64, level: nat)
    requires Forest(mem, roots, fs, own) && d < MAX_DOMAINS && level <= 3
    ensures var t := TableAt(mem, roots[d], v, level);
            t != 0 ==> t in own && own[t] == Place(d, level, Prefix(v, level))
    decreases 3 - level
  {
    hide Present, Address, Has, Index;
    if level < 3 {
      WalkStaysOnPath(mem, roots, fs, own, d, v, level + 1);
    }
  }

  /** The tables of all domains form disjoint trees. */
  lemma NoTableIsShared(mem: Memory, roots: seq<U64>, fs: seq<Frame>, own: map<U64, Place>,
                        d: nat, v: U64, level: nat, d': nat, v': U64, level': nat)
    requires Forest(mem, roots, fs, own) && d < MAX_DOMAINS && d' < MAX_DOMAINS && level <= 3 && level' <= 3
    requires TableAt(mem, roots[d], v, level) == TableAt(mem, roots[d'], v', level') != 0
    ensures d == d' && level == level' && Prefix(v, level) == Prefix(v', level)
  {
    WalkStaysOnPath(mem, roots, fs, own, d, v, level);
    WalkStaysOnPath(mem, roots, fs, own, d', v', level');
  }

  /** Equal address bits above a level lead to the same table. */
  lemma {:induction false} SamePath(mem: Memory, root: U64, v: U64, w: U64, level: nat)
    requires level <= 3 && Prefix(v, level) == Prefix(w, level)
    ensures TableAt(mem, root, v, level) == TableAt(mem, root, w, level)
    decreases 3 - level
  {
    hide Present, Address, Has, Index;
    if level < 3 {
      SamePath(mem, root, v, w, level + 1);
    }
  }

  lemma {:induction false} StoppedWalk(mem: Memory, root: U64, v: U64, level: nat, lower: nat)
    requires lower <= level <= 3 && TableAt(mem, root, v, level) == 0
    ensures TableAt(mem, root, v, lower) == 0 && Walk(mem, root, v) == 0
    decreases level
  {
    hide Present, Address, Has, Index;
    if level > 0 {
      StoppedWalk(mem, root, v, level - 1, if lower < level then lower else level - 1);
    }
  }

  /** Memories that agree on all tables in use except entry i of table a. */
  ghost predicate SameBut(mem: Memory, mem': Memory, own: map<U64, Place>, a: U64, i: nat) {
    forall t, k :: t in own && 0 <= k < ENTRIES && !(t == a && k == i) ==> Entry(mem', t, k) == Entry(mem, t, k)
  }

  /** The walk for (d, v) goes through entry i of the table at `place`. */
  ghost predicate Through(d: nat, v: U64, place: Place, i: nat) {
    place.level <= 3 && d == place.domain && Prefix(v, place.level) == place.prefix && Index(v, place.level) == i
  }

  /** Writing one entry moves no other path. */
  lemma {:induction false} OtherPathsStay(mem: Memory, mem': Memory, roots: seq<U64>, fs: seq<Frame>, own: map<U64, Place>,
                                          a: U64, i: nat, d: nat, v: U64, level: nat)
    requires Forest(mem, roots, fs, own) && a in own && SameBut(mem, mem', own, a, i)
    requires d < MAX_DOMAINS && level <= 3
    requires level >= own[a].level || !Through(d, v, own[a], i)
    ensures TableAt(mem', roots[d], v, level) == TableAt(mem, roots[d], v, level)
    decreases 3 - level
  {
    hide Present, Address, Has, Index, Forest, Prefix;
    if level < 3 {
      OtherPathsStay(mem, mem', roots, fs, own, a, i, d, v, level + 1);
      WalkStaysOnPath(mem, roots, fs, own, d, v, level + 1);
    }
  }

  lemma OtherWalksStay(mem: Memory, mem': Memory, roots: seq<U64>, fs: seq<Frame>, own: map<U64, Place>,
                       a: U64, i: nat, d: nat, v: U64)
    requires Forest(mem, roots, fs, own) && a in own && SameBut(mem, mem', own, a, i)
    requires d < MAX_DOMAINS && !Through(d, v, own[a], i)
    ensures Walk(mem', roots[d], v) == Walk(mem, roots[d], v)
  {
    hide Present, Address, Has, Index, Forest, Prefix;
    OtherPathsStay(mem, mem', roots, fs, own, a, i, d, v, 0);
    WalkStaysOnPath(mem, roots, fs, own, d, v, 0);
  }

  // ---------- the three kinds of update ----------

  ghost function Written(mem: Memory, a: U64, i: nat, e: U64): Memory
    requires a in mem && i < ENTRIES
  {
    mem[a := mem[a][i := e]]
  }

  /** Every walk of every domain finds in mem' what it finds in mem. */
  ghost predicate SameWalks(mem: Memory, mem': Memory, roots: seq<U64>) {
    forall d, w: U64 :: 0 <= d < |roots| ==> Walk(mem', roots[d], w) == Walk(mem, roots[d], w)
  }

  ghost predicate NothingMapped(mem: Memory, root: U64) {
    forall w: U64 :: Walk(mem, root, w) == 0
  }

  /** The walks of domain d for one page now find e; all other walks are as they were. */
  ghost predicate OnePageChanged(mem: Memory, mem': Memory, roots: seq<U64>, d: nat, page: nat, e: U64) {
    forall d', w: U64 {:trigger Walk(mem', roots[d'], w)} :: 0 <= d' < |roots| ==>
      Walk(mem', roots[d'], w) == if d' == d && Page(w) == page then e else Walk(mem, roots[d'], w)
  }

  /** Storing a leaf changes the walk of exactly one page of one domain. */
  lemma StoreLeaf(mem: Memory, roots: seq<U64>, fs: seq<Frame>, own: map<U64, Place>, d: nat, v: U64, t: U64, e: U64)
    requires Forest(mem, roots, fs, own) && d < MAX_DOMAINS
    requires t == TableAt(mem, roots[d], v, 0) != 0
    ensures t in own && Forest(Written(mem, t, Index(v, 0), e), roots, fs, own)
    ensures OnePageChanged(mem, Written(mem, t, Index(v, 0), e), roots, d, Page(v), e)
  {
    hide Present, Address, Has, Index, Prefix, Walk;
    var i := Index(v, 0);
    WalkStaysOnPath(mem, roots, fs, own, d, v, 0);
    var mem' := Written(mem, t, i, e);
    forall a, k | a in own && own[a].level > 0 && 0 <= k < ENTRIES
      ensures Entry(mem', a, k) == Entry(mem, a, k)
    {
    }
    forall d', w: U64 {:trigger Walk(mem', roots[d'], w)} | 0 <= d' < |roots|
      ensures Walk(mem', roots[d'], w) == if d' == d && Page(w) == Page(v) then e else Walk(mem, roots[d'], w)
    {
      StoreLeafAt(mem, roots, fs, own, d, v, t, e, d', w);
    }
  }

  lemma StoreLeafAt(mem: Memory, roots: seq<U64>, fs: seq<Frame>, own: map<U64, Place>, d: nat, v: U64, t: U64, e: U64,
                    d': nat, w: U64)
    requires Forest(mem, roots, fs, own) && d < MAX_DOMAINS && d' < MAX_DOMAINS
    requires t == TableAt(mem, roots[d], v, 0) != 0
    ensures t in own && Walk(Written(mem, t, Index(v, 0), e), roots[d'], w)
                        == if d' == d && Page(w) == Page(v) then e else Walk(mem, roots[d'], w)
  {
    hide Present, Address, Has, Index, Page, Prefix;
    WalkStaysOnPath(mem, roots, fs, own, d, v, 0);
    var i := Index(v, 0);
    var mem' := Written(mem, t, i, e);
    assert SameBut(mem, mem', own, t, i);
    PageIsPath(v);
    PageIsPath(w);
    if d' == d && Page(w) == Page(v) {
      SamePath(mem, roots[d], v, w, 0);
      OtherPathsStay(mem, mem', roots, fs, own, t, i, d, w, 0);
    } else {
      OtherWalksStay(mem, mem', roots, fs, own, t, i, d', w);
    }
  }

  /** Storing a leaf moves no table of any domain. */
  lemma StoreKeepsTables(mem: Memory, roots: seq<U64>, fs: seq<Frame>, own: map<U64, Place>, d: nat, v: U64, t: U64, e: U64)
    requires Forest(mem, roots, fs, own) && d < MAX_DOMAINS
    requires t == TableAt(mem, roots[d], v, 0) != 0
    ensures t in own && SameTables(mem, Written(mem, t, Index(v, 0), e), roots[d])
    ensures OtherTablesStay(mem, Written(mem, t, Index(v, 0), e), roots, d)
  {
    hide Present, Address, Has, Index, Prefix;
    var i := Index(v, 0);
    WalkStaysOnPath(mem, roots, fs, own, d, v, 0);
    var mem' := Written(mem, t, i, e);
    assert SameBut(mem, mem', own, t, i);
    WriteKeepsOtherTables(mem, mem', roots, fs, own, t, i);
    forall w: U64, l: nat {:trigger TableAt(mem', roots[d], w, l)} | l <= 3
      ensures TableAt(mem', roots[d], w, l) == TableAt(mem, roots[d], w, l)
    {
      OtherPathsStay(mem, mem', roots, fs, own, t, i, d, w, l);
    }
  }

  ghost predicate SameTables(mem: Memory, mem': Memory, root: U64) {
    forall w: U64, l: nat {:trigger TableAt(mem', root, w, l)} :: l <= 3 ==> TableAt(mem', root, w, l) == TableAt(mem, root, w, l)
  }

  /** No domain but d has its tables moved. */
  ghost predicate OtherTablesStay(mem: Memory, mem': Memory, roots: seq<U64>, d: nat) {
    forall c :: 0 <= c < |roots| && c != d ==> SameTables(mem, mem', roots[c])
  }

  /** Writing an entry moves tables of the domain of its table alone. */
  lemma WriteKeepsOtherTables(mem: Memory, mem': Memory, roots: seq<U64>, fs: seq<Frame>, own: map<U64, Place>, a: U64, i: nat)
    requires Forest(mem, roots, fs, own) && a in own && SameBut(mem, mem', own, a, i)
    ensures OtherTablesStay(mem, mem', roots, own[a].domain)
  {
    hide LinksOk, SameBut;
    forall c, w: U64, l: nat {:trigger TableAt(mem', roots[c], w, l)} | 0 <= c < |roots| && c != own[a].domain && l <= 3
      ensures TableAt(mem', roots[c], w, l) == TableAt(mem, roots[c], w, l)
    {
      OtherPathsStay(mem, mem', roots, fs, own, a, i, c, w, l);
    }
  }

  function ZeroTable(): (t: Table)
    ensures forall i :: 0 <= i < ENTRIES ==> t[i] == 0
  {
    seq(ENTRIES, _ => 0)
  }

  ghost predicate FreshTable(b: U64, fs: seq<Frame>, own: map<U64, Place>) {
    b !in own && b > 0 && b % PAGE_SIZE == 0 && b / PAGE_SIZE < |fs| <= MAX_PAGES && !fs[b / PAGE_SIZE].kind.Available?
  }

  /** The memory after an empty table b is linked under the table t on the way to v. */
  ghost function Linked(mem: Memory, t: U64, v: U64, level: nat, b: U64): Memory
    requires t in mem
  {
    Written(mem[b := ZeroTable()], t, Index(v, level), LinkEntry(b))
  }

  lemma LinkKeepsForest(mem: Memory, roots: seq<U64>, fs: seq<Frame>, own: map<U64, Place>, d: nat, v: U64, level: nat, t: U64, b: U64)
    requires Forest(mem, roots, fs, own) && d < MAX_DOMAINS && 0 < level <= 3
    requires t == TableAt(mem, roots[d], v, level) != 0 && TableAt(mem, roots[d], v, level - 1) == 0
    requires FreshTable(b, fs, own)
    ensures t in own && own[t] == Place(d, level, Prefix(v, level))
    ensures SameBut(mem, Linked(mem, t, v, level, b), own, t, Index(v, level))
    ensures Forest(Linked(mem, t, v, level, b), roots, fs, own[b := Place(d, level - 1, Prefix(v, level - 1))])
    ensures TableAt(Linked(mem, t, v, level, b), roots[d], v, level - 1) == b
  {
    hide Present, Address, Has, Index, LinkEntry;
    var i := Index(v, level);
    WalkStaysOnPath(mem, roots, fs, own, d, v, level);
    LinkRoundTrip(b);
    var own' := own[b := Place(d, level - 1, Prefix(v, level - 1))];
    var mem' := Linked(mem, t, v, level, b);
    assert SameBut(mem, mem', own, t, i);
    NothingPresent();
    forall a, k | a in own' && own'[a].level > 0 && 0 <= k < ENTRIES && Present(Entry(mem', a, k))
      ensures LinkOk(Entry(mem', a, k), Place(own'[a].domain, own'[a].level - 1, own'[a].prefix * ENTRIES + k), own')
    {
      if !(a == t && k == i) && a != b {
        assert Entry(mem', a, k) == Entry(mem, a, k);
        assert LinkOk(Entry(mem, a, k), Place(own[a].domain, own[a].level - 1, own[a].prefix * ENTRIES + k), own);
      }
    }
    OtherPathsStay(mem, mem', roots, fs, own, t, i, d, v, level);
  }

  /** Linking an empty table under a missing entry changes no walk. */
  lemma LinkTable(mem: Memory, roots: seq<U64>, fs: seq<Frame>, own: map<U64, Place>, d: nat, v: U64, level: nat, t: U64, b: U64)
    requires Forest(mem, roots, fs, own) && d < MAX_DOMAINS && 0 < level <= 3
    requires t == TableAt(mem, roots[d], v, level) != 0 && TableAt(mem, roots[d], v, level - 1) == 0
    requires FreshTable(b, fs, own)
    ensures t in own
    ensures Forest(Linked(mem, t, v, level, b), roots, fs, own[b := Place(d, level - 1, Prefix(v, level - 1))])
    ensures TableAt(Linked(mem, t, v, level, b), roots[d], v, level - 1) == b
    ensures SameWalks(mem, Linked(mem, t, v, level, b), roots)
  {
    hide Present, Address, Has, Index, LinkEntry, LinksOk, SameBut, Linked, Prefix;
    LinkKeepsForest(mem, roots, fs, own, d, v, level, t, b);
    var i := Index(v, level);
    var mem' := Linked(mem, t, v, level, b);
    forall d', w: U64 | 0 <= d' < |roots|
      ensures Walk(mem', roots[d'], w) == Walk(mem, roots[d'], w)
    {
      if Through(d', w, own[t], i) {
        PrefixStep(v, level);
        PrefixStep(w, level);
        SamePath(mem, roots[d], v, w, level);
        SamePath(mem, roots[d], v, w, level - 1);
        StoppedWalk(mem, roots[d], w, level - 1, 0);
        SamePath(mem', roots[d], v, w, level - 1);
        LinkedIsEmpty(mem, t, v, level, b);
        EmptyTable(mem', roots[d], w, level - 1, b);
      } else {
        OtherWalksStay(mem, mem', roots, fs, own, t, i, d', w);
      }
    }
  }

  /** A new link adds one table to the walks: at its level, for the addresses of its prefix. */
  ghost predicate OneTableMore(mem: Memory, mem': Memory, root: U64, v: U64, level: nat, b: U64)
    requires level <= 3
  {
    forall w: U64, l: nat {:trigger TableAt(mem', root, w, l)} :: l <= 3 ==>
      TableAt(mem', root, w, l) == if l == level && Prefix(w, l) == Prefix(v, l) then b else TableAt(mem, root, w, l)
  }

  lemma LinkAddsOneTable(mem: Memory, roots: seq<U64>, fs: seq<Frame>, own: map<U64, Place>, d: nat, v: U64, level: nat,
                         t: U64, b: U64)
    requires Forest(mem, roots, fs, own) && d < MAX_DOMAINS && 0 < level <= 3
    requires t == TableAt(mem, roots[d], v, level) != 0 && TableAt(mem, roots[d], v, level - 1) == 0
    requires FreshTable(b, fs, own)
    ensures t in own && OneTableMore(mem, Linked(mem, t, v, level, b), roots[d], v, level - 1, b)
    ensures OtherTablesStay(mem, Linked(mem, t, v, level, b), roots, d)
  {
    hide Present, Address, Has, Index, LinkEntry, LinksOk, SameBut, Linked, Prefix;
    LinkKeepsForest(mem, roots, fs, own, d, v, level, t, b);
    var mem' := Linked(mem, t, v, level, b);
    WriteKeepsOtherTables(mem, mem', roots, fs, own, t, Index(v, level));
    forall w: U64, l: nat {:trigger TableAt(mem', roots[d], w, l)} | l <= 3
      ensures TableAt(mem', roots[d], w, l)
              == if l == level - 1 && Prefix(w, l) == Prefix(v, l) then b else TableAt(mem, roots[d], w, l)
    {
      PrefixStep(v, level);
      PrefixStep(w, level);
      if l >= level || !Through(d, w, own[t], Index(v, level)) {
        OtherPathsStay(mem, mem', roots, fs, own, t, Index(v, level), d, w, l);
        DigitsDiffer(Prefix(v, level), Index(v, level), Prefix(w, level), Index(w, level));
      } else {
        SamePath(mem, roots[d], v, w, level - 1);
        SamePath(mem', roots[d], v, w, level - 1);
        if l < level - 1 {
          StoppedWalk(mem, roots[d], w, level - 1, l);
          LinkedIsEmpty(mem, t, v, level, b);
          NextOfEmpty(mem', b, w, level - 1);
          assert TableAt(mem', roots[d], w, level - 2) == Next(mem', b, w, level - 1);
          StoppedWalk(mem', roots[d], w, level - 2, l);
        }
      }
    }
  }

  lemma DigitsDiffer(p: nat, i: nat, q: nat, j: nat)
    requires i < ENTRIES && j < ENTRIES
    ensures p * ENTRIES + i == q * ENTRIES + j <==> p == q && i == j
  {
  }

  lemma NextOfEmpty(mem: Memory, b: U64, v: U64, level: nat)
    requires 0 < level <= 3 && b in mem && mem[b] == ZeroTable()
    ensures Next(mem, b, v, level) == 0
  {
    hide Index, Address, Has;
    NothingPresent();
  }

  lemma LinkedIsEmpty(mem: Memory, t: U64, v: U64, level: nat, b: U64)
    requires t in mem && t != b
    ensures b in Linked(mem, t, v, level, b) && Linked(mem, t, v, level, b)[b] == ZeroTable()
  {
  }

  lemma EmptyTable(mem: Memory, root: U64, v: U64, level: nat, b: U64)
    requires level <= 3 && b in mem && mem[b] == ZeroTable() && b != 0 && TableAt(mem, root, v, level) == b
    ensures Walk(mem, root, v) == 0
  {
    hide Present, Address, Has, Index;
    if level > 0 {
      NothingPresent();
      assert Entry(mem, b, Index(v, level)) == 0;
      assert Next(mem, b, v, level) == 0;
      StoppedWalk(mem, root, v, level - 1, 0);
    }
  }

  /** Contents of memory that no table owns do not matter. */
  lemma UnownedTable(mem: Memory, mem': Memory, roots: seq<U64>, fs: seq<Frame>, own: map<U64, Place>)
    requires Forest(mem, roots, fs, own)
    requires forall a :: a in own ==> a in mem' && mem'[a] == mem[a]
    ensures Forest(mem', roots, fs, own) && SameWalks(mem, mem', roots)
  {
    hide Present, Address, Has, Index, Prefix;
    forall a, i | a in own && 0 <= i < ENTRIES
      ensures Entry(mem', a, i) == Entry(mem, a, i)
    {
    }
    forall d, w: U64 {:trigger Walk(mem', roots[d], w)} | 0 <= d < |roots|
      ensures Walk(mem', roots[d], w) == Walk(mem, roots[d], w)
    {
      FrameOut(mem, mem', roots, fs, own, d, w, 0);
      WalkStaysOnPath(mem, roots, fs, own, d, w, 0);
    }
  }

  /** A new root makes an empty address space and leaves every other one as it was. */
  lemma PlantRoot(mem: Memory, roots: seq<U64>, fs: seq<Frame>, own: map<U64, Place>, d: nat, b: U64)
    requires Forest(mem, roots, fs, own) && d < MAX_DOMAINS && FreshTable(b, fs, own)
    ensures Forest(mem[b := ZeroTable()], roots[d := b], fs, own[b := Place(d, 3, 0)])
    ensures SameWalks(mem, mem[b := ZeroTable()], roots[d := 0])
    ensures NothingMapped(mem[b := ZeroTable()], b)
  {
    hide Present, Address, Has, Index;
    var mem', own' := mem[b := ZeroTable()], own[b := Place(d, 3, 0)];
    NothingPresent();
    assert LinksOk(mem', own') by {
      forall a, k | a in own' && own'[a].level > 0 && 0 <= k < ENTRIES && Present(Entry(mem', a, k))
        ensures LinkOk(Entry(mem', a, k), Place(own'[a].domain, own'[a].level - 1, own'[a].prefix * ENTRIES + k), own')
      {
        if a != b {
          assert Entry(mem', a, k) == Entry(mem, a, k);
          assert LinkOk(Entry(mem, a, k), Place(own[a].domain, own[a].level - 1, own[a].prefix * ENTRIES + k), own);
        }
      }
    }
    forall w: U64
      ensures Walk(mem', b, w) == 0
    {
      EmptyTable(mem', b, w, 3, b);
    }
    forall d', w: U64 | 0 <= d' < MAX_DOMAINS && d' != d
      ensures Walk(mem', roots[d'], w) == Walk(mem, roots[d'], w)
    {
      FrameOut(mem, mem', roots, fs, own, d', w, 0);
      WalkStaysOnPath(mem, roots, fs, own, d', w, 0);
    }
    forall w: U64
      ensures Walk(mem', 0, w) == Walk(mem, 0, w)
    {
      StoppedWalk(mem', 0, w, 3, 0);
      StoppedWalk(mem, 0, w, 3, 0);
    }
  }

  lemma {:induction false} FrameOut(mem: Memory, mem': Memory, roots: seq<U64>, fs: seq<Frame>, own: map<U64, Place>,
                                    d: nat, v: U64, level: nat)
    requires Forest(mem, roots, fs, own) && d < MAX_DOMAINS && level <= 3
    requires forall t, k :: t in own && 0 <= k < ENTRIES ==> Entry(mem', t, k) == Entry(mem, t, k)
    ensures TableAt(mem', roots[d], v, level) == TableAt(mem, roots[d], v, level)
    decreases 3 - level
  {
    hide Present, Address, Has, Index, Entry, Forest, Prefix, LinkOk;
    if level < 3 {
      FrameOut(mem, mem', roots, fs, own, d, v, level + 1);
      WalkStaysOnPath(mem, roots, fs, own, d, v, level + 1);
    }
  }

  /** Freeing a root (and only it) keeps the other trees intact. */
  lemma UprootDomain(mem: Memory, roots: seq<U64>, fs: seq<Frame>, own: map<U64, Place>, d: nat, frame: Frame)
    requires Forest(mem, roots, fs, own) && d < MAX_DOMAINS && roots[d] != 0
    ensures roots[d] / PAGE_SIZE < |fs|
    ensures Forest(mem, roots[d := 0], fs[roots[d] / PAGE_SIZE := frame], own - {roots[d]})
  {
    hide Present, Address, Has, Index;
    var r := roots[d];
    var fs', own' := fs[r / PAGE_SIZE := frame], own - {r};
    forall a | a in own'
      ensures fs'[a / PAGE_SIZE] == fs[a / PAGE_SIZE]
    {
      assert a / PAGE_SIZE == r / PAGE_SIZE ==> a == r;
    }
    forall a, i | a in own' && own'[a].level > 0 && 0 <= i < ENTRIES && Present(Entry(mem, a, i))
      ensures LinkOk(Entry(mem, a, i), Place(own'[a].domain, own'[a].level - 1, own'[a].prefix * ENTRIES + i), own')
    {
      assert LinkOk(Entry(mem, a, i), Place(own[a].domain, own[a].level - 1, own[a].prefix * ENTRIES + i), own);
    }
    assert forall d' :: 0 <= d' < MAX_DOMAINS && d' != d && roots[d'] != 0 ==> roots[d'] != r;
  }

  // ---------- what destroying leaves behind ----------

  /** No table of the tree below a root holds a frame any more. */
  ghost predicate NothingLeft(mem: Memory, root: U64, fs: seq<Frame>) {
    forall v: U64, level: nat {:trigger TableAt(mem, root, v, level)} :: level <= 3 && TableAt(mem, root, v, level) != 0 ==>
      TableAt(mem, root, v, level) / PAGE_SIZE < |fs| && fs[TableAt(mem, root, v, level) / PAGE_SIZE].kind.Available?
  }

  ghost predicate RootIsEmpty(mem: Memory, root: U64) {
    forall i :: 0 <= i < ENTRIES ==> !Present(Entry(mem, root, i))
  }

  /** Freeing the root alone gives back the whole tree exactly when no root entry is present. */
  lemma RootFreesTreeIff(mem: Memory, roots: seq<U64>, fs: seq<Frame>, own: map<U64, Place>, d: nat)
    requires Forest(mem, roots, fs, own) && d < MAX_DOMAINS && roots[d] != 0
    ensures roots[d] / PAGE_SIZE < |fs|
    ensures NothingLeft(mem, roots[d], fs[roots[d] / PAGE_SIZE := Frame(Available, 0)]) <==> RootIsEmpty(mem, roots[d])
  {
    hide Present, Address, Has, Index, Entry;
    var r := roots[d];
    var fs' := fs[r / PAGE_SIZE := Frame(Available, 0)];
    if RootIsEmpty(mem, r) {
      forall v: U64, level: nat {:trigger TableAt(mem, r, v, level)} | level < 3
        ensures TableAt(mem, r, v, level) == 0
      {
        assert TableAt(mem, r, v, 2) == Next(mem, r, v, 3) == 0;
        StoppedWalk(mem, r, v, 2, level);
      }
    } else {
      var i :| 0 <= i < ENTRIES && Present(Entry(mem, r, i));
      var v := AddressOfRootEntry(i);
      ChildStaysTaken(mem, roots, fs, own, d, v);
    }
  }

  /** An address whose walk starts at root entry i. */
  lemma AddressOfRootEntry(i: nat) returns (v: U64)
    requires i < ENTRIES
    ensures Index(v, 3) == i
  {
    hide Index;
    v := i * 0x80_0000_0000;
    IndexIs(v);
    ModIs(i, 512, 0, i);
    ModIs(i * 0x80_0000_0000, 0x80_0000_0000, i, 0);
  }

  lemma ChildStaysTaken(mem: Memory, roots: seq<U64>, fs: seq<Frame>, own: map<U64, Place>, d: nat, v: U64)
    requires Forest(mem, roots, fs, own) && d < MAX_DOMAINS && roots[d] != 0
    requires Present(Entry(mem, roots[d], Index(v, 3)))
    ensures roots[d] / PAGE_SIZE < |fs|
    ensures var c := TableAt(mem, roots[d], v, 2);
            c != 0 && c / PAGE_SIZE < |fs| && !fs[roots[d] / PAGE_SIZE := Frame(Available, 0)][c / PAGE_SIZE].kind.Available?
  {
    hide Present, Address, Has, Index;
    var r := roots[d];
    var e := Entry(mem, r, Index(v, 3));
    assert LinkOk(e, Place(d, 2, Index(v, 3)), own);
    assert TableAt(mem, r, v, 2) == Next(mem, r, v, 3) == Address(e);
    var c := Address(e);
    assert own[c].level == 2 && own[r].level == 3;
    assert c / PAGE_SIZE == r / PAGE_SIZE ==> c == r;
  }

  /** The smallest leak: a root with one child, destroyed. */
  lemma DestroyCanLeak() returns (mem: Memory, roots: seq<U64>, fs: seq<Frame>, own: map<U64, Place>)
    ensures Forest(mem, roots, fs, own) && roots[0] == 4096 && |fs| == 3
    ensures !NothingLeft(mem, roots[0], fs[1 := Frame(Available, 0)])
  {
    hide Present, Address, Has, Index;
    roots := seq(MAX_DOMAINS, _ => 0);
    fs := [Frame(Reserved, 0), Frame(Kernel, 0), Frame(Kernel, 0)];
    mem, own := map[], map[];
    PlantRoot(mem, roots, fs, own, 0, 4096);
    mem, own, roots := mem[4096 := ZeroTable()], own[4096 := Place(0, 3, 0)], roots[0 := 4096];
    NextOfEmpty(mem, 4096, 0, 3);
    assert TableAt(mem, 4096, 0, 2) == Next(mem, 4096, 0, 3);
    LinkTable(mem, roots, fs, own, 0, 0, 3, 4096, 8192);
    mem, own := Linked(mem, 4096, 0, 3, 8192), own[8192 := Place(0, 2, Prefix(0, 2))];
    assert TableAt(mem, roots[0], 0, 2) == 8192;
  }

  /** Whatever other users of the frame table do, the trees stand as long as table frames
      stay taken. */
  lemma ForestSurvivesFrameChange(mem: Memory, roots: seq<U64>, fs: seq<Frame>, own: map<U64, Place>, fs': seq<Frame>)
    requires Forest(mem, roots, fs, own) && |fs'| == |fs|
    requires forall a :: a in own && a / PAGE_SIZE < |fs'| ==> !fs'[a / PAGE_SIZE].kind.Available?
    ensures Forest(mem, roots, fs', own)
  {
  }

  // ---------- what the hardware sees ----------

  datatype Translation = Fault | Maps(address: U64, writable: bool, user: bool)

  /** Address translation of the Intel SDM, volume 3A, sections 4.5 and 4.6, from a level down:
      rights are the AND over all levels, and a set PS bit at level 1 or 2 would end the walk. */
  ghost function Translate(mem: Memory, table: U64, v: U64, level: nat): Translation
    requires level <= 3
    decreases level
  {
    var e := Entry(mem, table, Index(v, level));
    if !Present(e) then Fault
    else if level == 0 || (level <= 2 && Has(e, PS)) then
      Maps(Wrap(Address(e) / Pow2(12 + 9 * level) * Pow2(12 + 9 * level) + v % Pow2(12 + 9 * level)), Has(e, WRITABLE), Has(e, USER))
    else
      match Translate(mem, Address(e), v, level - 1)
      case Fault => Fault
      case Maps(address, writable, user) => Maps(address, writable && Has(e, WRITABLE), user && Has(e, USER))
  }

  /** In the forest, the rights of the leaf are the rights the hardware grants. */
  lemma {:induction false} HardwareAgrees(mem: Memory, roots: seq<U64>, fs: seq<Frame>, own: map<U64, Place>,
                                          d: nat, v: U64, level: nat)
    requires Forest(mem, roots, fs, own) && d < MAX_DOMAINS && level <= 3
    requires TableAt(mem, roots[d], v, level) != 0
    ensures Translate(mem, TableAt(mem, roots[d], v, level), v, level) == LeafTranslation(Walk(mem, roots[d], v), v)
  {
    hide Present, Address, Has, Index, Prefix, LeafTranslation;
    if level == 0 {
      LeafIsTranslation(mem, TableAt(mem, roots[d], v, 0), v);
    } else {
      WalkStaysOnPath(mem, roots, fs, own, d, v, level);
      var t := TableAt(mem, roots[d], v, level);
      var e := Entry(mem, t, Index(v, level));
      assert TableAt(mem, roots[d], v, level - 1) == Next(mem, t, v, level);
      if Present(e) {
        assert LinkOk(e, Place(own[t].domain, own[t].level - 1, own[t].prefix * ENTRIES + Index(v, level)), own);
        assert Address(e) != 0;
        HardwareAgrees(mem, roots, fs, own, d, v, level - 1);
      } else {
        StoppedWalk(mem, roots[d], v, level - 1, 0);
        NoTranslation(v);
      }
    }
  }

  /** The translation that the leaf entry alone describes. */
  ghost function LeafTranslation(e: U64, v: U64): Translation {
    if !Present(e) then Fault else Maps(Wrap(Address(e) + v % PAGE_SIZE), Has(e, WRITABLE), Has(e, USER))
  }

  lemma LeafIsTranslation(mem: Memory, t: U64, v: U64)
    ensures Translate(mem, t, v, 0) == LeafTranslation(Entry(mem, t, Index(v, 0)), v)
  {
    hide Present, Has, Index, Address, Entry, Pow2, Wrap;
    AddressIsAligned(Entry(mem, t, Index(v, 0)));
    assert Pow2(12 + 9 * 0) == PAGE_SIZE by { Pow2Values(); }
  }

  lemma AddressIsAligned(e: U64)
    ensures Address(e) / PAGE_SIZE * PAGE_SIZE == Address(e)
  {
    hide Address;
    AddressIs(e);
  }

  lemma NoTranslation(v: U64)
    ensures LeafTranslation(0, v) == Fault
  {
    NothingPresent();
  }
}
