/** The memory regions of a Core-1 service. */
module Regions {
  import opened MachineInts
  import opened Sequences

  const MAX_REGIONS: nat := 16

  datatype RegionType = Code | Data | Stack | Heap | Shared | Device

  datatype Region = Region(kind: RegionType, physBase: U64, virtBase: U64, size: U64, permissions: U32, capHandle: U64)

  /** The overlap test of the source, with 64-bit wrap-around of both ends. */
  predicate Clash(base: U64, size: U64, other: Region) {
    base < Wrap(other.physBase + other.size) && Wrap(base + size) > other.physBase
  }

  predicate Covers(needed: U32, held: U32) {
    BitAnd(held, needed) == needed
  }

  /** The test of rights is inclusion, bit by bit. */
  lemma CoversIsInclusion(needed: U32, held: U32)
    ensures Covers(needed, held) <==> forall k :: 0 <= k < 32 && Bit(needed, k) ==> Bit(held, k)
  {
    hide Bit, BitAnd;
    MaskIsSubset(held, needed);
  }

  /** A region that is not empty and ends below 2^64. */
  ghost predicate Proper(r: Region) {
    r.size > 0 && r.physBase + r.size < TWO_64 && r.virtBase == r.physBase
  }

  ghost predicate InRegion(r: Region, x: nat) {
    r.physBase <= x < r.physBase + r.size
  }

  /** All regions are proper, and no byte belongs to two of them. */
  ghost predicate Disjoint(rs: seq<Region>) {
    && (forall i :: 0 <= i < |rs| ==> Proper(rs[i]))
    && forall i, j :: 0 <= i < j < |rs| ==> Apart(rs[i], rs[j])
  }

  ghost predicate Apart(r: Region, q: Region) {
    r.physBase + r.size <= q.physBase || q.physBase + q.size <= r.physBase
  }

  /** For proper regions the overlap test is exactly overlap. */
  lemma ClashIsOverlap(base: U64, size: U64, r: Region)
    requires Proper(r) && size > 0 && base + size < TWO_64
    ensures Clash(base, size, r) <==> exists x :: base <= x < base + size && InRegion(r, x)
  {
    WrapSmall(r.physBase + r.size);
    WrapSmall(base + size);
    if Clash(base, size, r) {
      var x := if base <= r.physBase then r.physBase else base;
      assert base <= x < base + size && InRegion(r, x);
    }
  }

  lemma WrapSmall(x: nat)
    requires x < TWO_64
    ensures Wrap(x) == x
  {
  }

  // ---------- the table as a value ----------

  /** Whether the table takes a region: it has room and the region clashes with none there. */
  ghost predicate Accepts(rs: seq<Region>, r: Region) {
    |rs| < MAX_REGIONS && forall q :: q in rs ==> !Clash(r.physBase, r.size, q)
  }

  ghost function AddSpec(rs: seq<Region>, r: Region): seq<Region> {
    if Accepts(rs, r) then rs + [r] else rs
  }

  /** The first region with this base; |rs| when there is none. */
  function IndexOfBase(rs: seq<Region>, base: U64): (i: nat)
    ensures i <= |rs|
    ensures i < |rs| ==> rs[i].physBase == base
    ensures forall k :: 0 <= k < i ==> rs[k].physBase != base
  {
    if rs == [] then 0 else if rs[0].physBase == base then 0 else 1 + IndexOfBase(rs[1..], base)
  }

  function RemoveSpec(rs: seq<Region>, base: U64): seq<Region> {
    var i := IndexOfBase(rs, base);
    if i < |rs| then rs[..i] + rs[i + 1..] else rs
  }

  lemma AddKeepsDisjoint(rs: seq<Region>, r: Region)
    requires Disjoint(rs) && Proper(r)
    ensures Disjoint(AddSpec(rs, r))
  {
    forall i | 0 <= i < |rs| && !Clash(r.physBase, r.size, rs[i])
      ensures Apart(rs[i], r)
    {
      assert Proper(rs[i]);
      WrapSmall(rs[i].physBase + rs[i].size);
      WrapSmall(r.physBase + r.size);
    }
  }

  /** A disjoint table stays disjoint exactly when the region is refused or proper. */
  lemma AddKeepsDisjointIff(rs: seq<Region>, r: Region)
    requires Disjoint(rs)
    ensures Disjoint(AddSpec(rs, r)) <==> !Accepts(rs, r) || Proper(r)
  {
    hide Proper, Apart;
    if Proper(r) {
      AddKeepsDisjoint(rs, r);
    } else if Accepts(rs, r) {
      assert AddSpec(rs, r)[|rs|] == r;
    }
  }

  lemma RemoveKeepsDisjoint(rs: seq<Region>, base: U64)
    requires Disjoint(rs)
    ensures Disjoint(RemoveSpec(rs, base))
  {
  }

  datatype Op = Add(region: Region) | Remove(base: U64)

  ghost function Run(rs: seq<Region>, ops: seq<Op>): seq<Region>
    decreases |ops|
  {
    if ops == [] then rs
    else
      match ops[0]
      case Add(r) => Run(AddSpec(rs, r), ops[1..])
      case Remove(base) => Run(RemoveSpec(rs, base), ops[1..])
  }

  /** Every run that adds proper regions keeps the table disjoint. */
  lemma {:induction false} RunKeepsDisjoint(rs: seq<Region>, ops: seq<Op>)
    requires Disjoint(rs) && forall i :: 0 <= i < |ops| && ops[i].Add? ==> Proper(ops[i].region)
    ensures Disjoint(Run(rs, ops))
    decreases |ops|
  {
    if ops != [] {
      match ops[0]
      case Add(r) =>
        AddKeepsDisjoint(rs, r);
        RunKeepsDisjoint(AddSpec(rs, r), ops[1..]);
      case Remove(base) =>
        RemoveKeepsDisjoint(rs, base);
        RunKeepsDisjoint(RemoveSpec(rs, base), ops[1..]);
    }
  }

  // ---------- what is in the table ----------

  /** What one call does to the number of times region r is in the table: an addition that is
      accepted puts it there, a removal takes the first region with its base. */
  ghost function Effect(rs: seq<Region>, op: Op, r: Region): int {
    match op
    case Add(q) => if q == r && Accepts(rs, q) then 1 else 0
    case Remove(base) =>
      if exists i :: 0 <= i < |rs| && rs[i] == r && base == r.physBase && forall k :: 0 <= k < i ==> rs[k].physBase != base
      then -1 else 0
  }

  ghost function Net(rs: seq<Region>, ops: seq<Op>, r: Region): int
    decreases |ops|
  {
    if ops == [] then 0
    else
      var next := match ops[0] case Add(q) => AddSpec(rs, q) case Remove(base) => RemoveSpec(rs, base);
      Effect(rs, ops[0], r) + Net(next, ops[1..], r)
  }

  lemma AddCounts(rs: seq<Region>, q: Region, r: Region)
    ensures multiset(AddSpec(rs, q))[r] == multiset(rs)[r] + Effect(rs, Add(q), r)
  {
  }

  lemma RemoveCounts(rs: seq<Region>, base: U64, r: Region)
    ensures multiset(RemoveSpec(rs, base))[r] == multiset(rs)[r] + Effect(rs, Remove(base), r)
  {
    var i := IndexOfBase(rs, base);
    if i < |rs| {
      assert rs == rs[..i] + [rs[i]] + rs[i + 1..];
      assert RemoveSpec(rs, base) == rs[..i] + rs[i + 1..];
      if rs[i] != r {
        assert Effect(rs, Remove(base), r) == 0;
      }
    }
  }

  /** After every run, a region is in the table as often as it was accepted, less the times it was
      removed; in particular it is there if and only if that number is positive. */
  lemma {:induction false} RunCounts(rs: seq<Region>, ops: seq<Op>, r: Region)
    ensures multiset(Run(rs, ops))[r] == multiset(rs)[r] + Net(rs, ops, r)
    ensures r in Run(rs, ops) <==> multiset(rs)[r] + Net(rs, ops, r) > 0
    decreases |ops|
  {
    hide Accepts, Effect;
    if ops != [] {
      match ops[0]
      case Add(q) =>
        AddCounts(rs, q, r);
        RunCounts(AddSpec(rs, q), ops[1..], r);
      case Remove(base) =>
        RemoveCounts(rs, base, r);
        RunCounts(RemoveSpec(rs, base), ops[1..], r);
    }
  }

  // ---------- shared bytes ----------

  /** Byte x of the 64-bit address space is one of the region's, counting past the end from 0 on. */
  ghost predicate HasByte(r: Region, x: U64) {
    Wrap(x - r.physBase) < r.size
  }

  ghost predicate ShareAByte(r: Region, q: Region) {
    exists x: U64 :: HasByte(r, x) && HasByte(q, x)
  }

  /** The region ends at 2^64 or wraps past it. */
  predicate ReachesEnd(r: Region) {
    r.physBase + r.size >= TWO_64
  }

  /** One of the two ends of w, which reaches the end of memory, lies in q. */
  predicate OneEndMeets(w: Region, q: Region) {
    w.physBase < q.physBase + q.size || q.physBase < Wrap(w.physBase + w.size)
  }

  /** The overlaps that the test lets pass: two regions that both reach the end of memory, or one
      that does and another that meets one of its ends. */
  predicate SharesUnnoticed(r: Region, q: Region) {
    && r.size > 0 && q.size > 0
    && if ReachesEnd(r) then ReachesEnd(q) || OneEndMeets(r, q) else ReachesEnd(q) && OneEndMeets(q, r)
  }

  /** Two regions that do not clash share a byte exactly in those cases. */
  lemma UnnoticedIff(r: Region, q: Region)
    requires !Clash(r.physBase, r.size, q)
    ensures ShareAByte(r, q) <==> SharesUnnoticed(r, q)
  {
    hide HasByte, Wrap;
    if r.size > 0 && q.size > 0 {
      if ReachesEnd(r) && ReachesEnd(q) {
        LastByte(r);
        LastByte(q);
      } else if ReachesEnd(r) {
        OneReaches(r, q);
      } else if ReachesEnd(q) {
        ClashIsSymmetric(r, q);
        OneReaches(q, r);
      } else {
        NoneReaches(r, q);
      }
    } else if ShareAByte(r, q) {
      var x: U64 :| HasByte(r, x) && HasByte(q, x);
      BytesAre(r, x);
      BytesAre(q, x);
    }
  }

  /** The bytes of a region, without modular arithmetic. */
  lemma BytesAre(r: Region, x: U64)
    ensures HasByte(r, x) <==> if x >= r.physBase then x < r.physBase + r.size else x + TWO_64 < r.physBase + r.size
  {
    if x >= r.physBase {
      WrapSmall(x - r.physBase);
    } else {
      ModIs(x - r.physBase, TWO_64, -1, x - r.physBase + TWO_64);
    }
  }

  lemma LastByte(r: Region)
    requires ReachesEnd(r) && r.size > 0
    ensures HasByte(r, TWO_64 - 1)
  {
    hide HasByte;
    BytesAre(r, TWO_64 - 1);
  }

  lemma WrapOnce(x: nat)
    requires TWO_64 <= x < 2 * TWO_64
    ensures Wrap(x) == x - TWO_64
  {
    ModIs(x, TWO_64, 1, x - TWO_64);
  }

  /** A region that reaches the end and one that does not share the bytes at either end of the first. */
  lemma OneReaches(w: Region, q: Region)
    requires w.size > 0 && q.size > 0 && ReachesEnd(w) && !ReachesEnd(q)
    ensures ShareAByte(w, q) <==> OneEndMeets(w, q)
  {
    hide HasByte, Wrap;
    WrapOnce(w.physBase + w.size);
    forall x: U64
      ensures HasByte(w, x) <==> w.physBase <= x || x < w.physBase + w.size - TWO_64
      ensures HasByte(q, x) <==> q.physBase <= x < q.physBase + q.size
    {
      BytesAre(w, x);
      BytesAre(q, x);
    }
    if w.physBase < q.physBase + q.size {
      assert HasByte(w, q.physBase + q.size - 1) && HasByte(q, q.physBase + q.size - 1);
    }
    if q.physBase < w.physBase + w.size - TWO_64 {
      assert HasByte(w, q.physBase) && HasByte(q, q.physBase);
    }
  }

  lemma NoneReaches(r: Region, q: Region)
    requires r.size > 0 && q.size > 0 && !ReachesEnd(r) && !ReachesEnd(q) && !Clash(r.physBase, r.size, q)
    ensures !ShareAByte(r, q)
  {
    hide HasByte, Wrap;
    WrapSmall(r.physBase + r.size);
    WrapSmall(q.physBase + q.size);
    forall x: U64
      ensures !(HasByte(r, x) && HasByte(q, x))
    {
      BytesAre(r, x);
      BytesAre(q, x);
    }
  }

  ghost predicate NoSharedByte(rs: seq<Region>) {
    forall i, j :: 0 <= i < j < |rs| ==> !ShareAByte(rs[i], rs[j])
  }

  /** Adding a region, of whatever size and place, keeps the regions apart byte for byte exactly
      when it is refused or overlaps none of them unnoticed. */
  lemma AddKeepsApartIff(rs: seq<Region>, r: Region)
    requires NoSharedByte(rs)
    ensures NoSharedByte(AddSpec(rs, r)) <==> !Accepts(rs, r) || forall q :: q in rs ==> !SharesUnnoticed(r, q)
  {
    hide ShareAByte, SharesUnnoticed, Clash;
    if Accepts(rs, r) {
      var cs := AddSpec(rs, r);
      assert cs[|rs|] == r;
      forall i | 0 <= i < |rs|
        ensures ShareAByte(cs[i], cs[|rs|]) <==> SharesUnnoticed(r, rs[i])
      {
        UnnoticedIff(r, rs[i]);
        SharingIsSymmetric(r, rs[i]);
      }
    }
  }

  lemma SharingIsSymmetric(r: Region, q: Region)
    ensures ShareAByte(r, q) <==> ShareAByte(q, r)
  {
  }

  /** The last page of memory can be added twice. */
  lemma LastPageTwice(capHandle: U64)
    ensures var r := Region(Data, TWO_64 - 4096, TWO_64 - 4096, 4096, 0, capHandle);
            AddSpec(AddSpec([], r), r) == [r, r] && ShareAByte(r, r)
  {
    hide HasByte, Wrap;
    var r := Region(Data, TWO_64 - 4096, TWO_64 - 4096, 4096, 0, capHandle);
    WrapOnce(r.physBase + r.size);
    LastByte(r);
    assert AddSpec([], r) == [r];
  }

  // ---------- the consistency check ----------

  /** No region is empty, and no two pass the overlap test. */
  ghost predicate Consistent(rs: seq<Region>) {
    && (forall k :: 0 <= k < |rs| ==> rs[k].size > 0)
    && forall k, j :: 0 <= k < j < |rs| ==> !Clash(rs[k].physBase, rs[k].size, rs[j])
  }

  lemma DisjointIsConsistent(rs: seq<Region>)
    requires Disjoint(rs)
    ensures Consistent(rs)
  {
    forall k, j | 0 <= k < j < |rs|
      ensures !Clash(rs[k].physBase, rs[k].size, rs[j])
    {
      assert Apart(rs[k], rs[j]) && Proper(rs[k]) && Proper(rs[j]);
      WrapSmall(rs[k].physBase + rs[k].size);
      WrapSmall(rs[j].physBase + rs[j].size);
    }
    forall k | 0 <= k < |rs|
      ensures rs[k].size > 0
    {
      assert Proper(rs[k]);
    }
  }

  /** The overlap test does not depend on which region came first. */
  lemma ClashIsSymmetric(r: Region, q: Region)
    ensures Clash(r.physBase, r.size, q) <==> Clash(q.physBase, q.size, r)
  {
  }

  /** A consistent table stays consistent exactly when the region is refused or not empty,
      whether or not it wraps. */
  lemma AddKeepsConsistentIff(rs: seq<Region>, r: Region)
    requires Consistent(rs)
    ensures Consistent(AddSpec(rs, r)) <==> !Accepts(rs, r) || r.size > 0
  {
    hide Clash;
    if Accepts(rs, r) {
      assert AddSpec(rs, r)[|rs|] == r;
      forall k | 0 <= k < |rs|
        ensures !Clash(rs[k].physBase, rs[k].size, r)
      {
        ClashIsSymmetric(r, rs[k]);
      }
    }
  }

  lemma RemoveKeepsConsistent(rs: seq<Region>, base: U64)
    requires Consistent(rs)
    ensures Consistent(RemoveSpec(rs, base))
  {
    hide Clash;
    var i, cs := IndexOfBase(rs, base), RemoveSpec(rs, base);
    assert forall k :: 0 <= k < |cs| ==> cs[k] == rs[if k < i then k else k + 1];
  }

  /** Every run that adds no empty region ends with a table that passes the check. */
  lemma {:induction false} RunKeepsConsistent(rs: seq<Region>, ops: seq<Op>)
    requires Consistent(rs) && forall i :: 0 <= i < |ops| && ops[i].Add? ==> ops[i].region.size > 0
    ensures Consistent(Run(rs, ops))
    decreases |ops|
  {
    hide Clash;
    if ops != [] {
      match ops[0]
      case Add(r) =>
        AddKeepsConsistentIff(rs, r);
        RunKeepsConsistent(AddSpec(rs, r), ops[1..]);
      case Remove(base) =>
        RemoveKeepsConsistent(rs, base);
        RunKeepsConsistent(RemoveSpec(rs, base), ops[1..]);
    }
  }

  /** One call from the empty table is enough to fail the check: an empty region is accepted. */
  lemma EmptyRegionIsAccepted(capHandle: U64)
    ensures var rs := Run([], [Add(Region(Code, 0, 0, 0, 0, capHandle))]);
            |rs| == 1 && !Consistent(rs) && !Disjoint(rs)
  {
    var op := Add(Region(Code, 0, 0, 0, 0, capHandle));
    var rs := AddSpec([], op.region);
    assert rs == [op.region] && rs[0].size == 0 && [op][1..] == [];
    assert Run(rs, []) == rs;
  }

  // ---------- access decisions ----------

  /** The range test of the source, with wrap-around. */
  predicate RangeTest(r: Region, addr: U64, size: U64) {
    addr >= r.virtBase && Wrap(addr + size) <= Wrap(r.virtBase + r.size)
  }

  /** The test of the address lookup, with wrap-around. */
  predicate FallsIn(addr: U64, r: Region) {
    addr >= r.virtBase && addr < Wrap(r.virtBase + r.size)
  }

  /** The first region that passes the range test decides. */
  function Verdict(rs: seq<Region>, addr: U64, size: U64, needed: U32): bool {
    rs != [] && if RangeTest(rs[0], addr, size) then Covers(needed, rs[0].permissions) else Verdict(rs[1..], addr, size, needed)
  }

  ghost predicate Contains(r: Region, addr: U64, size: U64) {
    r.physBase <= addr && addr + size <= r.physBase + r.size
  }

  /** Some region contains the whole range and has the rights: what the verdict is for. */
  ghost predicate Allowed(rs: seq<Region>, addr: U64, size: U64, needed: U32) {
    exists r :: r in rs && Contains(r, addr, size) && Covers(needed, r.permissions)
  }

  ghost predicate AtMostOneContains(rs: seq<Region>, addr: U64, size: U64) {
    forall i, j :: 0 <= i < j < |rs| ==> !(Contains(rs[i], addr, size) && Contains(rs[j], addr, size))
  }

  lemma {:induction false} VerdictOfUniqueRegion(rs: seq<Region>, addr: U64, size: U64, needed: U32)
    requires Disjoint(rs) && addr + size < TWO_64
    requires AtMostOneContains(rs, addr, size) || needed == 0
    ensures Verdict(rs, addr, size, needed) <==> Allowed(rs, addr, size, needed)
  {
    hide Wrap;
    if rs != [] {
      var r := rs[0];
      assert Proper(r);
      WrapSmall(addr + size);
      WrapSmall(r.virtBase + r.size);
      RestIsDisjoint(rs, addr, size);
      VerdictOfUniqueRegion(rs[1..], addr, size, needed);
      assert rs == [r] + rs[1..];
      NothingNeeded(r.permissions);
      forall q | q in rs[1..] && Contains(r, addr, size) && AtMostOneContains(rs, addr, size)
        ensures !Contains(q, addr, size)
      {
        var j :| 0 <= j < |rs[1..]| && rs[1..][j] == q;
        assert rs[j + 1] == q;
      }
    }
  }

  lemma NothingNeeded(held: U32)
    ensures Covers(0, held)
  {
  }

  lemma RestIsDisjoint(rs: seq<Region>, addr: U64, size: U64)
    requires Disjoint(rs) && rs != []
    ensures Disjoint(rs[1..]) && (AtMostOneContains(rs, addr, size) ==> AtMostOneContains(rs[1..], addr, size))
  {
    var t := rs[1..];
    assert forall i :: 0 <= i < |t| ==> t[i] == rs[i + 1];
  }

  /** The accesses that the first-match loop decides for every disjoint table: non-empty ranges
      that end below 2^64, and empty ranges that cannot lie between two regions or need nothing. */
  predicate DecidedRightly(addr: U64, size: U64, needed: U32) {
    if size > 0 then addr + size < TWO_64 else needed == 0 || addr == 0 || addr == TWO_64 - 1
  }

  lemma UniqueUnlessBetween(rs: seq<Region>, addr: U64, size: U64)
    requires Disjoint(rs) && addr + size < TWO_64 && (size > 0 || addr == 0 || addr == TWO_64 - 1)
    ensures AtMostOneContains(rs, addr, size)
  {
    forall i, j | 0 <= i < j < |rs|
      ensures !(Contains(rs[i], addr, size) && Contains(rs[j], addr, size))
    {
      assert Apart(rs[i], rs[j]) && Proper(rs[i]) && Proper(rs[j]);
    }
  }

  /** The order of the regions does not matter to such an access. */
  lemma OrderDoesNotMatter(rs: seq<Region>, qs: seq<Region>, addr: U64, size: U64, needed: U32)
    requires Disjoint(rs) && Disjoint(qs) && DecidedRightly(addr, size, needed)
    requires forall r :: r in rs <==> r in qs
    ensures Verdict(rs, addr, size, needed) == Verdict(qs, addr, size, needed)
  {
    VerdictWhenDecided(rs, addr, size, needed);
    VerdictWhenDecided(qs, addr, size, needed);
  }

  lemma VerdictWhenDecided(rs: seq<Region>, addr: U64, size: U64, needed: U32)
    requires Disjoint(rs) && DecidedRightly(addr, size, needed)
    ensures Verdict(rs, addr, size, needed) <==> Allowed(rs, addr, size, needed)
  {
    if needed != 0 || size > 0 {
      UniqueUnlessBetween(rs, addr, size);
    }
    VerdictOfUniqueRegion(rs, addr, size, needed);
  }

  /** The first-match verdict means "some region contains the range with all rights" for all
      disjoint tables exactly for the accesses named above. */
  lemma VerdictIsExactIff(addr: U64, size: U64, needed: U32)
    ensures (forall rs :: Disjoint(rs) ==> (Verdict(rs, addr, size, needed) <==> Allowed(rs, addr, size, needed)))
            <==> DecidedRightly(addr, size, needed)
  {
    hide Disjoint, Verdict, Allowed;
    if DecidedRightly(addr, size, needed) {
      forall rs | Disjoint(rs)
        ensures Verdict(rs, addr, size, needed) <==> Allowed(rs, addr, size, needed)
      {
        VerdictWhenDecided(rs, addr, size, needed);
      }
    } else if size > 0 {
      var rs := WrappingRange(addr, size, needed);
    } else {
      var rs := RangeBetween(addr, needed);
    }
  }

  /** A range that wraps passes against a region below it. */
  lemma WrappingRange(addr: U64, size: U64, needed: U32) returns (rs: seq<Region>)
    requires size > 0 && addr + size >= TWO_64
    ensures Disjoint(rs) && Verdict(rs, addr, size, needed) && !Allowed(rs, addr, size, needed)
  {
    var w := addr + size - TWO_64;
    assert Wrap(addr + size) == w by { ModIs(addr + size, TWO_64, 1, w); }
    var r := Region(Data, 0, 0, w + 1, needed, 0);
    rs := [r];
    WrapSmall(w + 1);
    AndSelf(needed);
  }

  lemma {:induction false} AndSelf(x: nat)
    ensures BitAnd(x, x) == x
  {
    if x > 0 {
      AndSelf(x / 2);
    }
  }

  /** An empty range between two regions is decided by whichever comes first. */
  lemma RangeBetween(addr: U64, needed: U32) returns (rs: seq<Region>)
    requires 0 < addr < TWO_64 - 1 && needed != 0
    ensures Disjoint(rs) && !Verdict(rs, addr, 0, needed) && Allowed(rs, addr, 0, needed)
  {
    var below := Region(Data, addr - 1, addr - 1, 1, 0, 0);
    var above := Region(Data, addr, addr, 1, needed, 0);
    rs := [below, above];
    WrapSmall(addr);
    AndSelf(needed);
    assert RangeTest(below, addr, 0);
    assert above in rs && Contains(above, addr, 0) && Covers(needed, above.permissions);
  }

  // ---------- the table in place ----------

  /** Region i was the first with this base, and the others moved up in order. */
  ghost predicate FirstRemoved(rs: seq<Region>, rs': seq<Region>, i: nat, base: U64) {
    && i < |rs| && rs[i].physBase == base && (forall k :: 0 <= k < i ==> rs[k].physBase != base)
    && rs' == rs[..i] + rs[i + 1..]
  }

  /** Region i is the first whose tested range takes in [addr, addr + size), both ends taken modulo 2^64. */
  ghost predicate FirstMatch(rs: seq<Region>, i: nat, addr: U64, size: U64) {
    && i < |rs| && addr >= rs[i].virtBase && (addr + size) % TWO_64 <= (rs[i].virtBase + rs[i].size) % TWO_64
    && forall k :: 0 <= k < i ==> addr < rs[k].virtBase || (addr + size) % TWO_64 > (rs[k].virtBase + rs[k].size) % TWO_64
  }

  /** It is the first match, and has every right asked for, bit by bit. */
  ghost predicate GrantedBy(rs: seq<Region>, i: nat, addr: U64, size: U64, needed: U32) {
    FirstMatch(rs, i, addr, size) && forall k :: 0 <= k < 32 && Bit(needed, k) ==> Bit(rs[i].permissions, k)
  }

  /** The first region that passes the test decides. */
  lemma {:induction false} VerdictIsFirstMatch(rs: seq<Region>, addr: U64, size: U64, needed: U32)
    ensures Verdict(rs, addr, size, needed) <==> exists i: nat :: GrantedBy(rs, i, addr, size, needed)
  {
    hide Bit, Covers, RangeTest, FirstMatch;
    if rs == [] {
      NothingMatches(rs, addr, size);
    } else {
      var rest := rs[1..];
      VerdictIsFirstMatch(rest, addr, size, needed);
      CoversIsInclusion(needed, rs[0].permissions);
      if RangeTest(rs[0], addr, size) {
        FirstIsMatch(rs, addr, size);
        if Covers(needed, rs[0].permissions) {
          assert GrantedBy(rs, 0, addr, size, needed);
        }
      } else {
        forall i: nat
          ensures GrantedBy(rs, i + 1, addr, size, needed) <==> GrantedBy(rest, i, addr, size, needed)
        {
          GrantedInRest(rs, i, addr, size, needed);
        }
        MatchInRest(rs, 0, addr, size);
        if i: nat :| GrantedBy(rs, i, addr, size, needed) {
          assert i > 0;
          assert GrantedBy(rs, i - 1 + 1, addr, size, needed);
          assert GrantedBy(rest, i - 1, addr, size, needed);
        }
      }
    }
  }

  lemma GrantedInRest(rs: seq<Region>, i: nat, addr: U64, size: U64, needed: U32)
    requires rs != [] && !RangeTest(rs[0], addr, size)
    ensures GrantedBy(rs, i + 1, addr, size, needed) <==> GrantedBy(rs[1..], i, addr, size, needed)
  {
    hide Bit, RangeTest, BitAnd;
    MatchInRest(rs, i, addr, size);
  }

  lemma NothingMatches(rs: seq<Region>, addr: U64, size: U64)
    requires rs == []
    ensures forall i: nat :: !FirstMatch(rs, i, addr, size)
  {
  }

  lemma FirstIsMatch(rs: seq<Region>, addr: U64, size: U64)
    requires rs != [] && RangeTest(rs[0], addr, size)
    ensures forall i: nat :: FirstMatch(rs, i, addr, size) <==> i == 0
  {
  }

  lemma MatchInRest(rs: seq<Region>, i: nat, addr: U64, size: U64)
    requires rs != [] && !RangeTest(rs[0], addr, size)
    ensures FirstMatch(rs, i + 1, addr, size) <==> FirstMatch(rs[1..], i, addr, size)
    ensures i + 1 < |rs| ==> rs[1..][i] == rs[i + 1]
    ensures !FirstMatch(rs, 0, addr, size)
  {
    var rest := rs[1..];
    assert forall k :: 0 <= k < |rest| ==> rest[k] == rs[k + 1];
    if FirstMatch(rs, i + 1, addr, size) {
      forall k | 0 <= k < i
        ensures addr < rest[k].virtBase || (addr + size) % TWO_64 > (rest[k].virtBase + rest[k].size) % TWO_64
      {
        assert rest[k] == rs[k + 1];
      }
    }
  }

  class RegionTable {
    const regions: array<Region>
    var numRegions: nat
    var enabled: bool

    ghost predicate Valid()
      reads this
    {
      regions.Length == MAX_REGIONS && numRegions <= MAX_REGIONS
    }

    /** The regions in use, in order. */
    ghost function Table(): (rs: seq<Region>)
      requires Valid()
      reads this, regions
      ensures |rs| == numRegions
    {
      regions[..numRegions]
    }

    constructor ()
      ensures Valid() && Table() == [] && !enabled && fresh(regions)
    {
      regions := new Region[MAX_REGIONS](_ => Region(Code, 0, 0, 0, 0, 0));
      numRegions, enabled := 0, false;
    }

    /** Appends a region unless the table is full (-1) or it clashes with one there (-2). */
    method Add(kind: RegionType, physBase: U64, size: U64, permissions: U32, capHandle: U64) returns (r: int)
      requires Valid()
      modifies this`numRegions, regions
      ensures Valid()
      ensures r == if old(numRegions) == MAX_REGIONS then -1
                   else if exists q :: q in old(Table()) && Clash(physBase, size, q) then -2 else 0
      ensures Table() == AddSpec(old(Table()), Region(kind, physBase, physBase, size, permissions, capHandle))
      ensures r != 0 ==> Table() == old(Table())
      ensures r == 0 ==>
        && |Table()| == |old(Table())| + 1 && Table()[..|old(Table())|] == old(Table())
        && var added := Table()[|old(Table())|];
           && added.kind == kind && added.physBase == physBase && added.virtBase == physBase && added.size == size
           && added.permissions == permissions && added.capHandle == capHandle
    {
      hide Wrap;
      if numRegions >= MAX_REGIONS {
        return -1;
      }
      ghost var rs := Table();
      var i := 0;
      while i < numRegions
        invariant 0 <= i <= numRegions && Table() == rs && numRegions == old(numRegions)
        invariant forall k :: 0 <= k < i ==> !Clash(physBase, size, rs[k])
      {
        assert regions[i] == rs[i];
        if physBase < Wrap(regions[i].physBase + regions[i].size) && Wrap(physBase + size) > regions[i].physBase {
          assert Clash(physBase, size, rs[i]);
          return -2;
        }
        i := i + 1;
      }
      regions[numRegions] := Region(kind, physBase, physBase, size, permissions, capHandle);
      numRegions := numRegions + 1;
      assert Table() == rs + [Region(kind, physBase, physBase, size, permissions, capHandle)];
      r := 0;
    }

    /** Removes the first region with this base. */
    method Remove(physBase: U64) returns (r: int)
      requires Valid()
      modifies this`numRegions, regions
      ensures Valid()
      ensures r == if IndexOfBase(old(Table()), physBase) < |old(Table())| then 0 else -1
      ensures Table() == RemoveSpec(old(Table()), physBase)
      ensures r == 0 ==> exists i :: 0 <= i < |old(Table())| && FirstRemoved(old(Table()), Table(), i, physBase)
      ensures r != 0 ==> Table() == old(Table()) && forall k :: 0 <= k < |old(Table())| ==> old(Table())[k].physBase != physBase
    {
      hide MovedDown;
      ghost var rs := Table();
      var i := 0;
      while i < numRegions
        invariant 0 <= i <= numRegions && numRegions == |rs| && Table() == rs
        invariant forall k :: 0 <= k < i ==> rs[k].physBase != physBase
      {
        assert regions[i] == rs[i];
        if regions[i].physBase == physBase {
          IndexOfBaseIs(rs, physBase, i);
          NothingMoved(rs, i);
          var j := i;
          while j < numRegions - 1
            invariant i <= j < numRegions == |rs|
            invariant Table() == MovedDown(rs, i, j)
          {
            MoveOneDown(rs, i, j);
            assert regions[j + 1] == Table()[j + 1];
            label Before:
            regions[j] := regions[j + 1];
            assert Table() == old@Before(Table())[j := rs[j + 1]];
            j := j + 1;
          }
          GapClosed(rs, i, numRegions);
          numRegions := numRegions - 1;
          assert Table() == MovedDown(rs, i, j)[..j] == rs[..i] + rs[i + 1..];
          assert FirstRemoved(rs, Table(), i, physBase);
          return 0;
        }
        i := i + 1;
      }
      IndexOfBaseIs(rs, physBase, i);
      r := -1;
    }

    /** 1 when access is granted, which is always while isolation is off. */
    method VerifyAccess(addr: U64, size: U64, needed: U32) returns (r: int)
      requires Valid()
      ensures r == if !enabled || Verdict(Table(), addr, size, needed) then 1 else 0
      ensures r == 1 <==>
        !enabled || exists i: nat :: GrantedBy(Table(), i, addr, size, needed)
    {
      hide Wrap, BitAnd, GrantedBy;
      VerdictIsFirstMatch(Table(), addr, size, needed);
      if !enabled {
        return 1;
      }
      var i := 0;
      assert Table()[0..] == Table();
      while i < numRegions
        invariant 0 <= i <= numRegions
        invariant Verdict(Table()[i..], addr, size, needed) == Verdict(Table(), addr, size, needed)
      {
        assert Table()[i..][0] == regions[i] && Table()[i..][1..] == Table()[i + 1..];
        if addr >= regions[i].virtBase && Wrap(addr + size) <= Wrap(regions[i].virtBase + regions[i].size) {
          return if BitAnd(regions[i].permissions, needed) == needed then 1 else 0;
        }
        i := i + 1;
      }
      r := 0;
    }

    /** Index of the first region that an address falls in; -1 for none. In a disjoint table it is
        the only one. */
    method GetRegion(addr: U64) returns (i: int)
      requires Valid()
      ensures -1 <= i < numRegions
      ensures i >= 0 ==> FallsIn(addr, Table()[i])
      ensures i >= 0 ==> Table()[i].virtBase <= addr < (Table()[i].virtBase + Table()[i].size) % TWO_64
      ensures i < 0 ==> forall k :: 0 <= k < numRegions ==>
                          addr < Table()[k].virtBase || addr >= (Table()[k].virtBase + Table()[k].size) % TWO_64
      ensures forall k :: 0 <= k < numRegions && (i < 0 || k < i) ==> !FallsIn(addr, Table()[k])
      ensures Disjoint(Table()) ==> forall k :: 0 <= k < numRegions ==> (InRegion(Table()[k], addr) <==> k == i)
    {
      hide Disjoint, InRegion;
      i := 0;
      while i < numRegions
        invariant 0 <= i <= numRegions
        invariant forall k :: 0 <= k < i ==> !FallsIn(addr, Table()[k])
      {
        assert regions[i] == Table()[i];
        if addr >= regions[i].virtBase && addr < Wrap(regions[i].virtBase + regions[i].size) {
          if Disjoint(Table()) {
            OnlyRegion(Table(), i, addr);
          }
          return;
        }
        i := i + 1;
      }
      if Disjoint(Table()) {
        NoRegion(Table(), addr);
      }
      i := -1;
    }

    /** The consistency check: 0 exactly when no region is empty and no two pass the overlap test. */
    method Validate() returns (r: int)
      requires Valid()
      ensures r in {0, -1, -2} && (r == 0 <==> Consistent(Table()))
      ensures r == -1 ==> exists k :: 0 <= k < numRegions && Table()[k].size == 0
      ensures r == -2 ==>
        exists k, j :: 0 <= k < j < numRegions && Clash(Table()[k].physBase, Table()[k].size, Table()[j])
      ensures Disjoint(Table()) ==> r == 0
    {
      hide Wrap, Disjoint;
      if Disjoint(Table()) {
        DisjointIsConsistent(Table());
      }
      var i := 0;
      while i < numRegions
        invariant 0 <= i <= numRegions
        invariant forall k :: 0 <= k < i ==> Table()[k].size > 0
        invariant forall k, j :: 0 <= k < i && k < j < numRegions ==> !Clash(Table()[k].physBase, Table()[k].size, Table()[j])
      {
        assert regions[i] == Table()[i];
        if regions[i].size == 0 {
          assert Table()[i].size == 0;
          return -1;
        }
        var j := i + 1;
        while j < numRegions
          invariant i < j <= numRegions
          invariant forall x :: i < x < j ==> !Clash(Table()[i].physBase, Table()[i].size, Table()[x])
        {
          assert regions[j] == Table()[j];
          if regions[i].physBase < Wrap(regions[j].physBase + regions[j].size)
             && Wrap(regions[i].physBase + regions[i].size) > regions[j].physBase {
            assert Clash(Table()[i].physBase, Table()[i].size, Table()[j]);
            return -2;
          }
          j := j + 1;
        }
        i := i + 1;
      }
      r := 0;
    }
  }

  /** In a disjoint table, the region an address falls in is the only one that contains it. */
  lemma OnlyRegion(rs: seq<Region>, i: nat, addr: U64)
    requires Disjoint(rs) && i < |rs| && FallsIn(addr, rs[i])
    ensures forall k :: 0 <= k < |rs| ==> (InRegion(rs[k], addr) <==> k == i)
  {
    FallsInIsInside(addr, rs[i]);
    forall k | 0 <= k < |rs| && k != i
      ensures !InRegion(rs[k], addr)
    {
      assert if k < i then Apart(rs[k], rs[i]) else Apart(rs[i], rs[k]);
    }
  }

  lemma NoRegion(rs: seq<Region>, addr: U64)
    requires Disjoint(rs) && forall k :: 0 <= k < |rs| ==> !FallsIn(addr, rs[k])
    ensures forall k :: 0 <= k < |rs| ==> !InRegion(rs[k], addr)
  {
    forall k | 0 <= k < |rs|
      ensures !InRegion(rs[k], addr)
    {
      FallsInIsInside(addr, rs[k]);
    }
  }

  lemma FallsInIsInside(addr: U64, r: Region)
    requires Proper(r)
    ensures FallsIn(addr, r) <==> InRegion(r, addr)
  {
    WrapSmall(r.virtBase + r.size);
  }

  lemma IndexOfBaseIs(rs: seq<Region>, base: U64, i: nat)
    requires i <= |rs| && (i < |rs| ==> rs[i].physBase == base)
    requires forall k :: 0 <= k < i ==> rs[k].physBase != base
    ensures IndexOfBase(rs, base) == i
  {
  }
}
