/** Core-0's capability table and the capability spaces of its domains. */
module Capability {
  import opened MachineInts
  import opened Sequences

  const MAX_CAPABILITIES: nat := 1024
  const MAX_DOMAINS: nat := 256
  const SPACE_SIZE: nat := 64
  const CAP_MAGIC: U64 := 0x43415000
  const PERM_GRANT: U32 := 0x08

  datatype Cap = Cap(magic: U64, kind: nat, permissions: U32, resourceId: U64, base: U64, size: U64,
                     owner: U64, refCount: U32, flags: U32)

  datatype Domain = Domain(id: U64, memoryBase: U64, memorySize: U64, capSpace: seq<U32>, numCaps: U32, state: U32)

  const NO_CAP: Cap := Cap(0, 0, 0, 0, 0, 0, 0, 0, 0)
  const NO_DOMAIN: Domain := Domain(0, 0, 0, EmptySpace(), 0, 0)

  function EmptySpace(): (s: seq<U32>)
    ensures |s| == SPACE_SIZE && forall k :: 0 <= k < SPACE_SIZE ==> s[k] == 0
  {
    seq(SPACE_SIZE, _ => 0)
  }

  predicate Grantable(permissions: U32) {
    BitAnd(permissions, PERM_GRANT) != 0
  }

  /** All rights of `needed` are among `held`. */
  predicate Permits(held: U32, needed: U32) {
    BitAnd(held, needed) == needed
  }

  /** The test of rights is inclusion, bit by bit. */
  lemma PermitsIsInclusion(held: U32, needed: U32)
    ensures Permits(held, needed) <==> forall k :: 0 <= k < 32 && Bit(needed, k) ==> Bit(held, k)
  {
    hide Bit, BitAnd;
    MaskIsSubset(held, needed);
  }

  /** The right to grant is bit 3. */
  lemma GrantableIsBit(permissions: U32)
    ensures Grantable(permissions) <==> Bit(permissions, 3)
  {
    hide Bit, BitAnd;
    assert Pow2(3) == 8;
    MaskIsBit(permissions, 3);
  }

  // ---------- capability spaces ----------

  /** A packed prefix of handles below `next`, followed by zeros. */
  ghost predicate Packed(d: Domain, next: nat) {
    && |d.capSpace| == SPACE_SIZE && d.numCaps <= SPACE_SIZE
    && (forall k :: 0 <= k < d.numCaps ==> 1 <= d.capSpace[k] < next)
    && forall k :: d.numCaps <= k < SPACE_SIZE ==> d.capSpace[k] == 0
  }

  ghost predicate Holds(d: Domain, handle: nat) {
    handle != 0 && handle in d.capSpace
  }

  /** The domain with one more handle, when there is room. */
  function WithCap(d: Domain, handle: U32): (r: Domain)
    requires |d.capSpace| == SPACE_SIZE && d.numCaps < SPACE_SIZE
  {
    d.(capSpace := d.capSpace[d.numCaps := handle], numCaps := d.numCaps + 1)
  }

  /** The domain without the handle at index i. */
  function WithoutIndex(d: Domain, i: nat): (r: Domain)
    requires |d.capSpace| == SPACE_SIZE && i < d.numCaps <= SPACE_SIZE
  {
    d.(capSpace := d.capSpace[..i] + d.capSpace[i + 1..d.numCaps] + [0] + d.capSpace[d.numCaps..], numCaps := d.numCaps - 1)
  }

  /** Entering a handle in a free place of a space. */
  lemma AddCounts(d: Domain, handle: U32)
    requires |d.capSpace| == SPACE_SIZE && d.numCaps < SPACE_SIZE && d.capSpace[d.numCaps] == 0
    ensures multiset(WithCap(d, handle).capSpace) == multiset(d.capSpace) + multiset{handle} - multiset{0}
  {
    var s, k := d.capSpace, d.numCaps;
    assert s == s[..k] + [s[k]] + s[k + 1..];
    assert WithCap(d, handle).capSpace == s[..k] + [handle] + s[k + 1..];
  }

  lemma AddKeepsPacked(d: Domain, handle: U32, next: nat)
    requires Packed(d, next) && d.numCaps < SPACE_SIZE && 1 <= handle < next
    ensures Packed(WithCap(d, handle), next)
    ensures multiset(WithCap(d, handle).capSpace) == multiset(d.capSpace) + multiset{handle} - multiset{0}
  {
    AddCounts(d, handle);
  }

  lemma RemoveKeepsPacked(d: Domain, i: nat, next: nat)
    requires Packed(d, next) && i < d.numCaps
    ensures Packed(WithoutIndex(d, i), next)
    ensures multiset(WithoutIndex(d, i).capSpace) == multiset(d.capSpace) - multiset{d.capSpace[i]} + multiset{0}
  {
    var s, n := d.capSpace, d.numCaps;
    var r := WithoutIndex(d, i);
    assert s == s[..i] + [s[i]] + s[i + 1..n] + s[n..];
    assert forall k :: i <= k < n - 1 ==> r.capSpace[k] == s[k + 1];
  }

  /** How often a handle stands in the capability spaces of all domains. */
  ghost function Occurrences(ds: seq<Domain>, handle: nat): nat {
    if ds == [] then 0 else multiset(ds[0].capSpace)[handle] + Occurrences(ds[1..], handle)
  }

  lemma {:induction false} OccurrencesAfterUpdate(ds: seq<Domain>, i: nat, d: Domain, handle: nat)
    requires i < |ds|
    ensures Occurrences(ds[i := d], handle)
            == Occurrences(ds, handle) - multiset(ds[i].capSpace)[handle] + multiset(d.capSpace)[handle]
  {
    if i == 0 {
      assert ds[0 := d][1..] == ds[1..];
    } else {
      OccurrencesAfterUpdate(ds[1..], i - 1, d, handle);
      assert ds[i := d][1..] == ds[1..][i - 1 := d];
    }
  }

  /** The first slot with this id; |ds| when there is none. */
  function FindDomain(ds: seq<Domain>, id: U64): (i: nat)
    ensures i <= |ds|
    ensures i < |ds| ==> ds[i].id == id
    ensures forall k :: 0 <= k < i ==> ds[k].id != id
  {
    if ds == [] then 0 else if ds[0].id == id then 0 else 1 + FindDomain(ds[1..], id)
  }

  // ---------- the system as a value ----------

  /** The tables, with the history that the invariants speak of: the record each handle was
      created with, the handles whose creation found no place in the owner's space, and the
      grants made (handle, domain id). */
  datatype System = System(caps: seq<Cap>, domains: seq<Domain>, nextHandle: nat, nextDomainId: nat,
                           created: seq<Cap>, orphans: set<nat>, granted: set<(nat, nat)>)

  ghost predicate TableOk(s: System) {
    && |s.caps| == MAX_CAPABILITIES && 1 <= s.nextHandle <= MAX_CAPABILITIES + 1 && |s.created| == s.nextHandle - 1
    && (forall i :: 0 <= i < MAX_CAPABILITIES ==> (s.caps[i].magic == CAP_MAGIC <==> i < s.nextHandle - 1))
    && (forall i :: 0 <= i < s.nextHandle - 1 ==> s.caps[i] == s.created[i].(refCount := s.caps[i].refCount))
    && forall h :: h in s.orphans ==> 1 <= h < s.nextHandle
  }

  /** Domain slots are filled in the order of their ids. */
  ghost predicate SlotsInOrder(s: System) {
    && |s.domains| == MAX_DOMAINS && 1 <= s.nextDomainId <= MAX_DOMAINS + 1
    && forall i :: 0 <= i < MAX_DOMAINS ==> s.domains[i].id == if i < s.nextDomainId - 1 then i + 1 else 0
  }

  ghost predicate DomainsOk(s: System) {
    && SlotsInOrder(s)
    && (forall i :: 0 <= i < MAX_DOMAINS ==> Packed(s.domains[i], s.nextHandle))
    && forall i :: s.nextDomainId - 1 <= i < MAX_DOMAINS ==> s.domains[i].numCaps == 0
  }

  /** Each reference count is the number of places the handle stands in, plus one for an orphan. */
  ghost predicate CountsOk(s: System)
    requires TableOk(s)
  {
    forall h :: 1 <= h < s.nextHandle ==>
      s.caps[h - 1].refCount == Occurrences(s.domains, h) + (if h in s.orphans then 1 else 0)
  }

  /** A domain holds a capability as its owner, or by a grant of a grantable capability. */
  ghost predicate Entitled(s: System, handle: nat, id: nat) {
    && 1 <= handle <= |s.created|
    && (s.created[handle - 1].owner == id
        || ((handle, id) in s.granted && Grantable(s.created[handle - 1].permissions)))
  }

  /** The handle at place k of domain slot i is there rightly. */
  ghost predicate EntitledAt(s: System, i: nat, k: nat) {
    && i < |s.domains| && k < |s.domains[i].capSpace|
    && Entitled(s, s.domains[i].capSpace[k], s.domains[i].id)
  }

  ghost predicate AuthorityOk(s: System)
    requires DomainsOk(s)
  {
    forall i, k :: 0 <= i < MAX_DOMAINS && 0 <= k < s.domains[i].numCaps ==> EntitledAt(s, i, k)
  }

  ghost predicate Inv(s: System) {
    TableOk(s) && DomainsOk(s) && CountsOk(s) && AuthorityOk(s)
  }

  // ---------- consequences ----------

  /** What `cap_check` decides. */
  ghost predicate MayUse(s: System, id: U64, handle: nat, permission: U32)
    requires TableOk(s)
  {
    && FindDomain(s.domains, id) < |s.domains| && 1 <= handle < s.nextHandle
    && Holds(s.domains[FindDomain(s.domains, id)], handle)
    && Permits(s.created[handle - 1].permissions, permission)
  }

  /** A domain that may use a capability it does not own was granted it, the capability is
      grantable, and the rights are among those it was created with. */
  lemma UseByNonOwnerWasGranted(s: System, id: U64, handle: nat, permission: U32)
    requires Inv(s) && MayUse(s, id, handle, permission) && s.created[handle - 1].owner != id
    ensures (handle, id) in s.granted
    ensures Grantable(s.created[handle - 1].permissions)
    ensures Permits(s.created[handle - 1].permissions, permission)
  {
    var i := FindDomain(s.domains, id);
    var k :| 0 <= k < SPACE_SIZE && s.domains[i].capSpace[k] == handle;
    assert Packed(s.domains[i], s.nextHandle);
    assert EntitledAt(s, i, k);
  }

  /** A capability without the grant right is held by nobody but its owner. */
  lemma UngrantableStaysWithOwner(s: System, i: nat, handle: nat)
    requires Inv(s) && i < MAX_DOMAINS && 1 <= handle < s.nextHandle && Holds(s.domains[i], handle)
    requires !Grantable(s.created[handle - 1].permissions)
    ensures s.domains[i].id == s.created[handle - 1].owner
  {
    var k :| 0 <= k < SPACE_SIZE && s.domains[i].capSpace[k] == handle;
    assert Packed(s.domains[i], s.nextHandle);
    assert EntitledAt(s, i, k);
  }

  // ---------- the operations on values ----------

  ghost function SetDomain(s: System, i: nat, d: Domain): System
    requires i < |s.domains|
  {
    s.(domains := s.domains[i := d])
  }

  ghost function CreateDomainSpec(s: System, memoryBase: U64, memorySize: U64): System
    requires SlotsInOrder(s)
  {
    if s.nextDomainId > MAX_DOMAINS then s
    else
      SetDomain(s, s.nextDomainId - 1, Domain(s.nextDomainId, memoryBase, memorySize, EmptySpace(), 0, 0))
      .(nextDomainId := s.nextDomainId + 1)
  }

  /** Whether domain `id` exists and has room for one more handle. */
  ghost predicate HasRoom(s: System, id: U64) {
    FindDomain(s.domains, id) < |s.domains| && s.domains[FindDomain(s.domains, id)].numCaps < SPACE_SIZE
  }

  ghost function AddSpec(s: System, id: U64, handle: U32): System
    requires HasRoom(s, id) && DomainsOk(s)
  {
    var i := FindDomain(s.domains, id);
    assert Packed(s.domains[i], s.nextHandle);
    SetDomain(s, i, WithCap(s.domains[i], handle))
  }

  /** A new record under the next handle, entered in its owner's space if that has room. */
  ghost function CreateSpec(s: System, record: Cap): System
    requires TableOk(s) && DomainsOk(s)
  {
    if s.nextHandle > MAX_CAPABILITIES then s
    else
      var t := s.(caps := s.caps[s.nextHandle - 1 := record], created := s.created + [record]);
      if HasRoom(s, record.owner) then AddSpec(t, record.owner, s.nextHandle).(nextHandle := s.nextHandle + 1)
      else t.(orphans := s.orphans + {s.nextHandle}, nextHandle := s.nextHandle + 1)
  }

  /** A grant takes effect when the handle is valid and grantable and the target has room. */
  ghost predicate GrantWorks(s: System, handle: nat, target: U64)
    requires TableOk(s)
  {
    1 <= handle < s.nextHandle && Grantable(s.caps[handle - 1].permissions) && HasRoom(s, target)
  }

  /** What `cap_grant` returns: the handle when it is valid and grantable, else 0. */
  ghost function GrantResult(s: System, handle: nat): nat
    requires TableOk(s)
  {
    if 1 <= handle < s.nextHandle && Grantable(s.caps[handle - 1].permissions) then handle else 0
  }

  ghost function SetRefCount(s: System, handle: nat, n: U32): System
    requires 1 <= handle <= |s.caps|
  {
    s.(caps := s.caps[handle - 1 := s.caps[handle - 1].(refCount := n)])
  }

  ghost function GrantSpec(s: System, handle: U32, target: U64): System
    requires Inv(s)
  {
    if GrantWorks(s, handle, target) then
      RefCountFits(s, handle);
      SetRefCount(AddSpec(s, target, handle), handle, s.caps[handle - 1].refCount + 1)
      .(granted := s.granted + {(handle as nat, target as nat)})
    else s
  }

  /** The first place of a handle in a domain's space. */
  function IndexOfCap(d: Domain, handle: U32, from: nat): (i: nat)
    requires |d.capSpace| == SPACE_SIZE && from <= d.numCaps <= SPACE_SIZE
    ensures from <= i <= d.numCaps
    ensures i < d.numCaps ==> d.capSpace[i] == handle
    ensures forall k :: from <= k < i ==> d.capSpace[k] != handle
    decreases d.numCaps - from
  {
    if from == d.numCaps || d.capSpace[from] == handle then from else IndexOfCap(d, handle, from + 1)
  }

  ghost predicate RevokeWorks(s: System, handle: nat, id: U64)
    requires TableOk(s) && DomainsOk(s)
  {
    1 <= handle < s.nextHandle && FindDomain(s.domains, id) < |s.domains| && Holds(s.domains[FindDomain(s.domains, id)], handle)
  }

  ghost function RevokeSpec(s: System, handle: U32, id: U64): System
    requires Inv(s)
  {
    if RevokeWorks(s, handle, id) then
      var i := FindDomain(s.domains, id);
      var d := s.domains[i];
      HeldIsPlaced(s, i, handle);
      SetRefCount(SetDomain(s, i, WithoutIndex(d, IndexOfCap(d, handle, 0))), handle, s.caps[handle - 1].refCount - 1)
    else s
  }

  lemma {:induction false} OccurrencesBound(ds: seq<Domain>, handle: nat)
    requires forall i :: 0 <= i < |ds| ==> |ds[i].capSpace| == SPACE_SIZE
    ensures Occurrences(ds, handle) <= SPACE_SIZE * |ds|
  {
    if ds != [] {
      OccurrencesBound(ds[1..], handle);
      CountBound(ds[0].capSpace, handle);
    }
  }

  lemma {:induction false} CountBound(s: seq<U32>, h: nat)
    ensures multiset(s)[h] <= |s|
  {
    if s != [] {
      CountBound(s[1..], h);
      assert s == [s[0]] + s[1..];
    }
  }

  lemma {:induction false} NoOccurrences(ds: seq<Domain>, next: nat, handle: nat)
    requires forall i :: 0 <= i < |ds| ==> Packed(ds[i], next)
    requires handle >= next && handle > 0
    ensures Occurrences(ds, handle) == 0
  {
    if ds != [] {
      NoOccurrences(ds[1..], next, handle);
      assert handle !in ds[0].capSpace;
    }
  }

  lemma RefCountFits(s: System, handle: nat)
    requires Inv(s) && 1 <= handle < s.nextHandle
    ensures s.caps[handle - 1].refCount + 1 < TWO_32
  {
    assert forall i :: 0 <= i < MAX_DOMAINS ==> Packed(s.domains[i], s.nextHandle);
    OccurrencesBound(s.domains, handle);
  }

  lemma HeldIsPlaced(s: System, i: nat, handle: nat)
    requires Inv(s) && i < MAX_DOMAINS && 1 <= handle < s.nextHandle && Holds(s.domains[i], handle)
    ensures Packed(s.domains[i], s.nextHandle) && IndexOfCap(s.domains[i], handle, 0) < s.domains[i].numCaps
    ensures s.caps[handle - 1].refCount >= 1 && Occurrences(s.domains, handle) >= 1
  {
    assert Packed(s.domains[i], s.nextHandle);
    var k :| 0 <= k < SPACE_SIZE && s.domains[i].capSpace[k] == handle;
    OccurrencesAfterUpdate(s.domains, i, NO_DOMAIN, handle);
  }

  // ---------- every operation keeps the invariant ----------

  lemma CreateDomainKeeps(s: System, memoryBase: U64, memorySize: U64)
    requires Inv(s)
    ensures Inv(CreateDomainSpec(s, memoryBase, memorySize))
  {
    hide Packed, EntitledAt, Occurrences;
    var t := CreateDomainSpec(s, memoryBase, memorySize);
    if s.nextDomainId <= MAX_DOMAINS {
      var i := s.nextDomainId - 1;
      EmptySpaceIsPacked(s.domains[i], t.domains[i], s.nextHandle);
      forall h | 1 <= h < s.nextHandle
        ensures Occurrences(t.domains, h) == Occurrences(s.domains, h)
      {
        OccurrencesAfterUpdate(s.domains, i, t.domains[i], h);
      }
      forall j, k | 0 <= j < MAX_DOMAINS && 0 <= k < t.domains[j].numCaps
        ensures EntitledAt(t, j, k)
      {
        assert EntitledAt(s, j, k);
        StillEntitled(s, t, j, k);
      }
    }
  }

  lemma EmptySpaceIsPacked(free: Domain, d: Domain, next: nat)
    requires Packed(free, next) && free.numCaps == 0 && d.capSpace == EmptySpace() && d.numCaps == 0
    ensures Packed(d, next) && free.capSpace == d.capSpace
  {
  }

  lemma StillEntitled(s: System, t: System, j: nat, k: nat)
    requires EntitledAt(s, j, k) && j < |t.domains| && t.domains[j] == s.domains[j]
    requires t.created == s.created && t.granted == s.granted
    ensures EntitledAt(t, j, k)
  {
  }

  /** The id does not name the first free slot, as 0 does while there is one. */
  predicate NamesNoFreeSlot(s: System, id: U64) {
    id != 0 || s.nextDomainId > MAX_DOMAINS
  }

  /** Creation keeps the invariant exactly when it does not enter its handle in a free slot. */
  lemma CreateKeeps(s: System, record: Cap)
    requires Inv(s) && record.magic == CAP_MAGIC && record.refCount == 1
    ensures Inv(CreateSpec(s, record)) <==> NamesNoFreeSlot(s, record.owner) || s.nextHandle > MAX_CAPABILITIES
  {
    hide TableOk, DomainsOk, CountsOk, AuthorityOk, CreateSpec;
    if s.nextHandle <= MAX_CAPABILITIES {
      if NamesNoFreeSlot(s, record.owner) {
        CreateKeepsTables(s, record);
        CreateKeepsAuthority(s, record);
      } else {
        CreateInFreeSlot(s, record);
      }
    } else {
      assert CreateSpec(s, record) == s by { CreateRefused(s, record); }
    }
  }

  lemma CreateInFreeSlot(s: System, record: Cap)
    requires Inv(s) && s.nextHandle <= MAX_CAPABILITIES && !NamesNoFreeSlot(s, record.owner)
    ensures !DomainsOk(CreateSpec(s, record))
  {
    FirstFreeSlot(s, FindDomain(s.domains, 0));
    assert CreateSpec(s, record).domains[s.nextDomainId - 1].numCaps == 1;
  }

  /** The first capability, created for domain id 0, stands in the space of a free slot, where the
      invariant allows nothing. The next domain takes that slot and clears it: the count stays 1,
      and the handle is nowhere. */
  lemma FreeSlotTakesHandle(record: Cap, memoryBase: U64, memorySize: U64) returns (s: System, t: System)
    requires record.magic == CAP_MAGIC && record.refCount == 1 && record.owner == 0
    ensures s == CreateSpec(EmptySystem(), record) && |s.caps| == MAX_CAPABILITIES && SlotsInOrder(s)
    ensures s.caps[0].refCount == 1 && Places(s, 1, 0) == 1 && !Inv(s)
    ensures t == CreateDomainSpec(s, memoryBase, memorySize) && |t.caps| == MAX_CAPABILITIES && |t.domains| == MAX_DOMAINS
    ensures t.domains[0].id == 1 && t.caps[0].refCount == 1 && Occurrences(t.domains, 1) == 0
  {
    hide Occurrences, CountsOk, AuthorityOk, Places, Packed, EmptySpace;
    var e := EmptySystem();
    CreateKeeps(e, record);
    FreeSlotHoldsNothing(e, 1);
    FirstFreeSlot(e, FindDomain(e.domains, 0));
    assert HasRoom(e, 0);
    PlacesAfterAdd(e, 0, 1, 0, 1);
    s := CreateSpec(e, record);
    SameDomains(AddSpec(e, 0, 1), s, 1, 0);
    t := CreateDomainSpec(s, memoryBase, memorySize);
    ClearedSlot(e.domains, t.domains, t.domains[0]);
  }

  lemma ClearedSlot(ds: seq<Domain>, ds': seq<Domain>, d: Domain)
    requires |ds| == MAX_DOMAINS && ds' == ds[0 := d] && d.capSpace == EmptySpace()
    requires forall i :: 0 <= i < |ds| ==> Packed(ds[i], 1)
    ensures Occurrences(ds', 1) == 0
  {
    hide Packed;
    NoOccurrences(ds, 1, 1);
    OccurrencesAfterUpdate(ds, 0, d, 1);
  }

  lemma CreateRefused(s: System, record: Cap)
    requires Inv(s) && s.nextHandle > MAX_CAPABILITIES
    ensures CreateSpec(s, record) == s
  {
  }

  lemma CreateKeepsTables(s: System, record: Cap)
    requires Inv(s) && record.magic == CAP_MAGIC && record.refCount == 1 && NamesNoFreeSlot(s, record.owner)
    requires s.nextHandle <= MAX_CAPABILITIES
    ensures TableOk(CreateSpec(s, record)) && DomainsOk(CreateSpec(s, record)) && CountsOk(CreateSpec(s, record))
  {
    hide AuthorityOk, Occurrences;
    var h := s.nextHandle;
    NoOccurrences(s.domains, h, h);
    var i := FindDomain(s.domains, record.owner);
    if HasRoom(s, record.owner) {
      assert Packed(s.domains[i], h + 1) by { assert Packed(s.domains[i], h); }
      AddKeepsPacked(s.domains[i], h, h + 1);
      AddedOnce(s.domains, i, h);
    }
  }

  lemma CreateKeepsAuthority(s: System, record: Cap)
    requires Inv(s) && s.nextHandle <= MAX_CAPABILITIES
    requires DomainsOk(CreateSpec(s, record))
    ensures AuthorityOk(CreateSpec(s, record))
  {
    hide CountsOk, Occurrences, Grantable, Packed;
    var t := CreateSpec(s, record);
    forall j, k | 0 <= j < MAX_DOMAINS && 0 <= k < t.domains[j].numCaps
      ensures EntitledAt(t, j, k)
    {
      PackedHandles(s, j);
      PackedHandles(t, j);
      if k < s.domains[j].numCaps {
        assert EntitledAt(s, j, k);
      }
    }
  }

  /** Adding a handle to one space raises its own count by one and no other's. */
  lemma AddedOnce(ds: seq<Domain>, i: nat, handle: U32)
    requires i < |ds| && |ds[i].capSpace| == SPACE_SIZE && ds[i].numCaps < SPACE_SIZE && handle > 0
    requires ds[i].capSpace[ds[i].numCaps] == 0
    ensures forall h :: 1 <= h ==>
              Occurrences(ds[i := WithCap(ds[i], handle)], h) == Occurrences(ds, h) + if h == handle then 1 else 0
  {
    hide WithCap, Occurrences;
    AddCounts(ds[i], handle);
    forall h | 1 <= h
      ensures Occurrences(ds[i := WithCap(ds[i], handle)], h) == Occurrences(ds, h) + if h == handle then 1 else 0
    {
      OccurrencesAfterUpdate(ds, i, WithCap(ds[i], handle), h);
    }
  }

  /** A grant keeps the invariant exactly when it does not enter its handle in a free slot. */
  lemma GrantKeeps(s: System, handle: U32, target: U64)
    requires Inv(s)
    ensures Inv(GrantSpec(s, handle, target)) <==> NamesNoFreeSlot(s, target) || GrantResult(s, handle) == 0
  {
    hide TableOk, DomainsOk, CountsOk, AuthorityOk, GrantSpec, Grantable;
    if !NamesNoFreeSlot(s, target) && GrantResult(s, handle) != 0 {
      GrantInFreeSlot(s, handle, target);
    } else if GrantWorks(s, handle, target) {
      GrantKeepsTables(s, handle, target);
      GrantKeepsAuthority(s, handle, target);
    } else {
      assert GrantSpec(s, handle, target) == s by { GrantRefused(s, handle, target); }
    }
  }

  lemma GrantInFreeSlot(s: System, handle: U32, target: U64)
    requires Inv(s) && !NamesNoFreeSlot(s, target) && GrantResult(s, handle) != 0
    ensures !DomainsOk(GrantSpec(s, handle, target))
  {
    hide Grantable, CountsOk, AuthorityOk;
    FirstFreeSlot(s, FindDomain(s.domains, 0));
    assert GrantSpec(s, handle, target).domains[s.nextDomainId - 1].numCaps == 1;
  }

  lemma GrantRefused(s: System, handle: U32, target: U64)
    requires Inv(s) && !GrantWorks(s, handle, target)
    ensures GrantSpec(s, handle, target) == s
  {
  }

  lemma GrantKeepsTables(s: System, handle: U32, target: U64)
    requires Inv(s) && NamesNoFreeSlot(s, target) && GrantWorks(s, handle, target)
    ensures TableOk(GrantSpec(s, handle, target)) && DomainsOk(GrantSpec(s, handle, target))
    ensures CountsOk(GrantSpec(s, handle, target))
  {
    hide AuthorityOk, Occurrences, Grantable;
    var i := FindDomain(s.domains, target);
    assert Packed(s.domains[i], s.nextHandle);
    AddKeepsPacked(s.domains[i], handle, s.nextHandle);
    AddedOnce(s.domains, i, handle);
  }

  lemma GrantKeepsAuthority(s: System, handle: U32, target: U64)
    requires Inv(s) && GrantWorks(s, handle, target)
    requires TableOk(GrantSpec(s, handle, target)) && DomainsOk(GrantSpec(s, handle, target))
    ensures AuthorityOk(GrantSpec(s, handle, target))
  {
    hide CountsOk, Occurrences, Grantable, Packed;
    var t := GrantSpec(s, handle, target);
    forall j, k | 0 <= j < MAX_DOMAINS && 0 <= k < t.domains[j].numCaps
      ensures EntitledAt(t, j, k)
    {
      PackedHandles(s, j);
      PackedHandles(t, j);
      if k < s.domains[j].numCaps {
        assert EntitledAt(s, j, k);
      }
    }
  }

  lemma PackedHandles(s: System, i: nat)
    requires DomainsOk(s) && i < MAX_DOMAINS
    ensures Packed(s.domains[i], s.nextHandle) && |s.domains[i].capSpace| == SPACE_SIZE && s.domains[i].numCaps <= SPACE_SIZE
    ensures forall k :: 0 <= k < s.domains[i].numCaps ==> 1 <= s.domains[i].capSpace[k] < s.nextHandle
  {
    assert Packed(s.domains[i], s.nextHandle);
  }

  /** Revoking keeps it for every id: a free slot holds nothing to revoke. */
  lemma RevokeKeeps(s: System, handle: U32, id: U64)
    requires Inv(s)
    ensures Inv(RevokeSpec(s, handle, id))
  {
    hide TableOk, DomainsOk, CountsOk, AuthorityOk, RevokeSpec;
    if RevokeWorks(s, handle, id) {
      RevokeKeepsTables(s, handle, id);
      RevokeKeepsAuthority(s, handle, id);
    } else {
      assert RevokeSpec(s, handle, id) == s by { RevokeRefused(s, handle, id); }
    }
  }

  lemma RevokeRefused(s: System, handle: U32, id: U64)
    requires Inv(s) && !RevokeWorks(s, handle, id)
    ensures RevokeSpec(s, handle, id) == s
  {
  }

  lemma RevokeKeepsTables(s: System, handle: U32, id: U64)
    requires Inv(s) && RevokeWorks(s, handle, id)
    ensures TableOk(RevokeSpec(s, handle, id)) && DomainsOk(RevokeSpec(s, handle, id))
    ensures CountsOk(RevokeSpec(s, handle, id))
  {
    hide AuthorityOk, Occurrences, WithoutIndex;
    var i := FindDomain(s.domains, id);
    HeldIsPlaced(s, i, handle);
    var x := IndexOfCap(s.domains[i], handle, 0);
    RemoveKeepsPacked(s.domains[i], x, s.nextHandle);
    RemovedOnce(s.domains, i, x, s.nextHandle);
    assert WithoutIndex(s.domains[i], x).id == s.domains[i].id && WithoutIndex(s.domains[i], x).numCaps < s.domains[i].numCaps by {
      WithoutIs(s.domains[i], x);
    }
  }

  lemma WithoutIs(d: Domain, i: nat)
    requires |d.capSpace| == SPACE_SIZE && i < d.numCaps <= SPACE_SIZE
    ensures WithoutIndex(d, i).id == d.id && WithoutIndex(d, i).numCaps == d.numCaps - 1
    ensures |WithoutIndex(d, i).capSpace| == SPACE_SIZE
    ensures forall k :: 0 <= k < d.numCaps - 1 ==> WithoutIndex(d, i).capSpace[k] == d.capSpace[if k < i then k else k + 1]
  {
  }

  lemma RemovedOnce(ds: seq<Domain>, i: nat, x: nat, next: nat)
    requires i < |ds| && Packed(ds[i], next) && x < ds[i].numCaps
    ensures forall h :: 1 <= h ==>
              Occurrences(ds[i := WithoutIndex(ds[i], x)], h) == Occurrences(ds, h) - if h == ds[i].capSpace[x] then 1 else 0
  {
    hide WithoutIndex;
    RemoveKeepsPacked(ds[i], x, next);
    forall h | 1 <= h
      ensures Occurrences(ds[i := WithoutIndex(ds[i], x)], h) == Occurrences(ds, h) - if h == ds[i].capSpace[x] then 1 else 0
    {
      OccurrencesAfterUpdate(ds, i, WithoutIndex(ds[i], x), h);
    }
  }

  lemma RevokeKeepsAuthority(s: System, handle: U32, id: U64)
    requires Inv(s) && RevokeWorks(s, handle, id)
    requires TableOk(RevokeSpec(s, handle, id)) && DomainsOk(RevokeSpec(s, handle, id))
    ensures AuthorityOk(RevokeSpec(s, handle, id))
  {
    hide CountsOk, Occurrences, Packed, WithoutIndex;
    var i, t := FindDomain(s.domains, id), RevokeSpec(s, handle, id);
    HeldIsPlaced(s, i, handle);
    PackedHandles(s, i);
    var x := IndexOfCap(s.domains[i], handle, 0);
    WithoutIs(s.domains[i], x);
    forall j, k | 0 <= j < MAX_DOMAINS && 0 <= k < t.domains[j].numCaps
      ensures EntitledAt(t, j, k)
    {
      PackedHandles(s, j);
      PackedHandles(t, j);
      var k' := if j == i && k >= x then k + 1 else k;
      assert EntitledAt(s, j, k');
    }
  }

  // ---------- whole runs ----------

  datatype Op = MakeDomain(memoryBase: U64, memorySize: U64) | Create(record: Cap)
              | Grant(handle: U32, target: U64) | Revoke(handle: U32, id: U64)

  /** Records are fresh, and nothing is entered under domain id 0, which marks a free slot. */
  ghost predicate Proper(op: Op) {
    match op
    case MakeDomain(_, _) => true
    case Create(record) => record.magic == CAP_MAGIC && record.refCount == 1 && record.owner != 0
    case Grant(_, target) => target != 0
    case Revoke(_, _) => true
  }

  ghost function Step(s: System, op: Op): System
    requires Inv(s)
  {
    match op
    case MakeDomain(memoryBase, memorySize) => CreateDomainSpec(s, memoryBase, memorySize)
    case Create(record) => CreateSpec(s, record)
    case Grant(handle, target) => GrantSpec(s, handle, target)
    case Revoke(handle, id) => RevokeSpec(s, handle, id)
  }

  lemma StepKeeps(s: System, op: Op)
    requires Inv(s) && Proper(op)
    ensures Inv(Step(s, op))
  {
    match op
    case MakeDomain(memoryBase, memorySize) => CreateDomainKeeps(s, memoryBase, memorySize);
    case Create(record) => CreateKeeps(s, record);
    case Grant(handle, target) => GrantKeeps(s, handle, target);
    case Revoke(handle, id) => RevokeKeeps(s, handle, id);
  }

  ghost function Run(s: System, ops: seq<Op>): (r: System)
    requires Inv(s) && forall i :: 0 <= i < |ops| ==> Proper(ops[i])
    ensures Inv(r)
    decreases |ops|
  {
    if ops == [] then s
    else
      StepKeeps(s, ops[0]);
      Run(Step(s, ops[0]), ops[1..])
  }

  ghost function EmptySystem(): (s: System)
    ensures Inv(s)
  {
    var s := System(seq(MAX_CAPABILITIES, _ => NO_CAP), seq(MAX_DOMAINS, _ => NO_DOMAIN), 1, 1, [], {}, {});
    assert forall i :: 0 <= i < MAX_DOMAINS ==> s.domains[i] == NO_DOMAIN;
    s
  }

  /** Records are never lost or altered, and every grant on record was an operation of the run. */
  lemma {:induction false} RunHistory(s: System, ops: seq<Op>)
    requires Inv(s) && forall i :: 0 <= i < |ops| ==> Proper(ops[i])
    ensures s.created <= Run(s, ops).created
    ensures forall h, d :: (h, d) in Run(s, ops).granted && (h, d) !in s.granted ==> GrantedIn(ops, h, d)
    decreases |ops|
  {
    hide Inv;
    if ops != [] {
      StepKeeps(s, ops[0]);
      StepHistory(s, ops[0]);
      RunHistory(Step(s, ops[0]), ops[1..]);
      forall h, d | (h, d) in Run(s, ops).granted && (h, d) !in s.granted
        ensures GrantedIn(ops, h, d)
      {
        if (h, d) in Step(s, ops[0]).granted {
          assert ops[0].Grant?;
        } else {
          assert GrantedIn(ops[1..], h, d);
        }
      }
    }
  }

  ghost predicate GrantedIn(ops: seq<Op>, h: nat, d: nat) {
    exists op :: op in ops && op.Grant? && op.handle == h && op.target == d
  }

  lemma StepHistory(s: System, op: Op)
    requires Inv(s) && Proper(op)
    ensures s.created <= Step(s, op).created
    ensures forall h, d :: (h, d) in Step(s, op).granted && (h, d) !in s.granted ==>
              op.Grant? && op.handle == h && op.target == d
  {
  }

  /** In every run from the empty system, a domain that may use a capability it does not own
      was named in an earlier grant of that very handle, which was created grantable. */
  lemma UseByNonOwnerNeedsGrant(ops: seq<Op>, id: U64, handle: nat, permission: U32)
    requires forall i :: 0 <= i < |ops| ==> Proper(ops[i])
    requires MayUse(Run(EmptySystem(), ops), id, handle, permission)
    requires Run(EmptySystem(), ops).created[handle - 1].owner != id
    ensures GrantedIn(ops, handle, id) && Grantable(Run(EmptySystem(), ops).created[handle - 1].permissions)
  {
    hide Run, Grantable, Permits;
    RunHistory(EmptySystem(), ops);
    UseByNonOwnerWasGranted(Run(EmptySystem(), ops), id, handle, permission);
  }

  // ---------- who holds what ----------

  /** How often a handle stands in the space of a domain. */
  ghost function Places(s: System, handle: nat, id: U64): nat {
    var i := FindDomain(s.domains, id);
    if i < |s.domains| then multiset(s.domains[i].capSpace)[handle] else 0
  }

  /** A grant that returns the handle has entered it, exactly when it was not asked for in vain:
      the handle is refused, or the target exists and has room. */
  lemma GrantReportsTrulyIff(s: System, handle: U32, target: U64)
    requires Inv(s)
    ensures (GrantResult(s, handle) != 0 ==>
               Places(GrantSpec(s, handle, target), handle, target) == Places(s, handle, target) + 1)
            <==> !(1 <= handle < s.nextHandle) || !Grantable(s.created[handle - 1].permissions) || HasRoom(s, target)
    ensures !HasRoom(s, target) ==> GrantSpec(s, handle, target) == s
  {
    hide Grantable, CountsOk, AuthorityOk, Packed;
    if GrantWorks(s, handle, target) {
      PlacesAfterAdd(s, target, handle, target, handle);
    }
  }

  /** The handle of the first capability, granted to a domain that does not exist: the handle is
      returned, and nothing is entered anywhere. */
  lemma GrantToNobody(record: Cap, target: U64)
    requires Proper(Create(record)) && Grantable(record.permissions)
    ensures var s := CreateSpec(EmptySystem(), record);
            && Inv(s) && GrantResult(s, 1) == 1
            && (target != 0 ==> GrantSpec(s, 1, target) == s && Places(s, 1, target) == 0)
  {
    hide Occurrences, CountsOk, AuthorityOk, Grantable;
    CreateKeeps(EmptySystem(), record);
    assert !HasRoom(EmptySystem(), record.owner);
  }

  lemma PlacesAfterAdd(s: System, id: U64, added: U32, id': U64, handle: nat)
    requires DomainsOk(s) && HasRoom(s, id) && handle > 0
    ensures Places(AddSpec(s, id, added), handle, id') == Places(s, handle, id') + if id == id' && added == handle then 1 else 0
  {
    var i := FindDomain(s.domains, id);
    var d := s.domains[i];
    assert Packed(d, s.nextHandle) && |d.capSpace| == SPACE_SIZE && d.capSpace[d.numCaps] == 0;
    SameIds(s.domains, i, WithCap(d, added), id');
    hide WithCap, DomainsOk, Packed;
    AddCounts(d, added);
    assert AddSpec(s, id, added).domains == s.domains[i := WithCap(d, added)];
  }

  lemma SameIds(ds: seq<Domain>, i: nat, d: Domain, id: U64)
    requires i < |ds| && d.id == ds[i].id
    ensures FindDomain(ds[i := d], id) == FindDomain(ds, id)
  {
    FindDomainIs(ds[i := d], id, FindDomain(ds, id));
  }

  /** What one operation does to the places of a handle in a domain: a creation for this owner or
      an effective grant adds one, an effective revoke takes one. */
  ghost function Effect(s: System, op: Op, handle: nat, id: U64): int
    requires Inv(s)
  {
    match op
    case MakeDomain(_, _) => 0
    case Create(record) =>
      if s.nextHandle == handle <= MAX_CAPABILITIES && record.owner == id && HasRoom(s, id) then 1 else 0
    case Grant(h, target) => if h == handle && target == id && GrantWorks(s, h, target) then 1 else 0
    case Revoke(h, t) => if h == handle && t == id && RevokeWorks(s, h, t) then -1 else 0
  }

  /** The same over a run. */
  ghost function Net(s: System, ops: seq<Op>, handle: nat, id: U64): int
    requires Inv(s) && forall i :: 0 <= i < |ops| ==> Proper(ops[i])
    decreases |ops|
  {
    if ops == [] then 0
    else
      StepKeeps(s, ops[0]);
      Effect(s, ops[0], handle, id) + Net(Step(s, ops[0]), ops[1..], handle, id)
  }

  lemma PlacesAfterStep(s: System, op: Op, handle: nat, id: U64)
    requires Inv(s) && Proper(op) && handle > 0
    ensures Places(Step(s, op), handle, id) == Places(s, handle, id) + Effect(s, op, handle, id)
  {
    hide CountsOk, AuthorityOk, Grantable, Packed, Places;
    match op
    case MakeDomain(memoryBase, memorySize) => PlacesAfterMakeDomain(s, memoryBase, memorySize, handle, id);
    case Create(record) => PlacesAfterCreate(s, record, handle, id);
    case Grant(h, target) =>
      if GrantWorks(s, h, target) {
        PlacesAfterAdd(s, target, h, id, handle);
        SameDomains(AddSpec(s, target, h), GrantSpec(s, h, target), handle, id);
      }
    case Revoke(h, t) =>
      if RevokeWorks(s, h, t) {
        PlacesAfterRevoke(s, h, t, handle, id);
      }
  }

  lemma SameDomains(s: System, t: System, handle: nat, id: U64)
    requires s.domains == t.domains
    ensures Places(s, handle, id) == Places(t, handle, id)
  {
  }

  lemma FreeSlotHoldsNothing(s: System, handle: nat)
    requires DomainsOk(s) && handle > 0
    ensures Places(s, handle, 0) == 0
  {
    var i := FindDomain(s.domains, 0);
    if i < MAX_DOMAINS {
      assert Packed(s.domains[i], s.nextHandle);
    }
  }

  lemma PlacesAfterMakeDomain(s: System, memoryBase: U64, memorySize: U64, handle: nat, id: U64)
    requires Inv(s) && handle > 0
    ensures Places(CreateDomainSpec(s, memoryBase, memorySize), handle, id) == Places(s, handle, id)
  {
    hide CountsOk, AuthorityOk, Packed;
    if s.nextDomainId <= MAX_DOMAINS {
      var t := CreateDomainSpec(s, memoryBase, memorySize);
      if id == 0 {
        CreateDomainKeeps(s, memoryBase, memorySize);
        FreeSlotHoldsNothing(s, handle);
        FreeSlotHoldsNothing(t, handle);
      } else if id == s.nextDomainId {
        FindDomainIs(s.domains, id, |s.domains|);
        FindDomainIs(t.domains, id, s.nextDomainId - 1);
      } else {
        FindDomainIs(t.domains, id, FindDomain(s.domains, id));
      }
    }
  }

  lemma PlacesAfterCreate(s: System, record: Cap, handle: nat, id: U64)
    requires Inv(s) && handle > 0
    ensures Places(CreateSpec(s, record), handle, id) == Places(s, handle, id) + Effect(s, Create(record), handle, id)
  {
    hide CountsOk, AuthorityOk, Packed, Places;
    if s.nextHandle <= MAX_CAPABILITIES {
      var t := CreateSpec(s, record);
      if HasRoom(s, record.owner) {
        PlacesAfterAdd(s, record.owner, s.nextHandle, id, handle);
        SameDomains(AddSpec(s, record.owner, s.nextHandle), t, handle, id);
      } else {
        SameDomains(s, t, handle, id);
      }
    }
  }

  lemma PlacesAfterRevoke(s: System, h: U32, t: U64, handle: nat, id: U64)
    requires Inv(s) && RevokeWorks(s, h, t) && handle > 0
    ensures Places(RevokeSpec(s, h, t), handle, id) == Places(s, handle, id) - if h == handle && t == id then 1 else 0
  {
    hide CountsOk, AuthorityOk, Packed, WithoutIndex;
    var i := FindDomain(s.domains, t);
    var d := s.domains[i];
    HeldIsPlaced(s, i, h);
    var x := IndexOfCap(d, h, 0);
    RemoveKeepsPacked(d, x, s.nextHandle);
    WithoutIs(d, x);
    SameIds(s.domains, i, WithoutIndex(d, x), id);
  }

  /** After any run, a handle stands in a domain's space as often as it was put there, by creation
      or grant, less the times it was revoked. */
  lemma {:induction false} PlacesAreNet(s: System, ops: seq<Op>, handle: nat, id: U64)
    requires Inv(s) && handle > 0 && forall i :: 0 <= i < |ops| ==> Proper(ops[i])
    ensures Places(Run(s, ops), handle, id) == Places(s, handle, id) + Net(s, ops, handle, id)
    decreases |ops|
  {
    hide Inv, Places, Effect;
    if ops != [] {
      StepKeeps(s, ops[0]);
      PlacesAfterStep(s, ops[0], handle, id);
      PlacesAreNet(Step(s, ops[0]), ops[1..], handle, id);
    }
  }

  /** A domain may use a capability exactly when it has been given it more often than it was taken
      away, and the rights asked for are among those of its creation. */
  lemma UseIsNet(ops: seq<Op>, id: U64, handle: nat, permission: U32)
    requires forall i :: 0 <= i < |ops| ==> Proper(ops[i])
    ensures MayUse(Run(EmptySystem(), ops), id, handle, permission) <==>
              && 1 <= handle < Run(EmptySystem(), ops).nextHandle
              && Net(EmptySystem(), ops, handle, id) > 0
              && Permits(Run(EmptySystem(), ops).created[handle - 1].permissions, permission)
  {
    hide Run, Net, Permits, EmptySystem, Inv, Places;
    if handle > 0 {
      PlacesAreNet(EmptySystem(), ops, handle, id);
      NothingPlaced(handle, id);
    }
    UseIsPlace(Run(EmptySystem(), ops), id, handle, permission);
  }

  /** To use a capability is to hold it with the rights. */
  lemma UseIsPlace(s: System, id: U64, handle: nat, permission: U32)
    requires Inv(s)
    ensures MayUse(s, id, handle, permission) <==>
              1 <= handle < s.nextHandle && Places(s, handle, id) > 0 && Permits(s.created[handle - 1].permissions, permission)
  {
    hide Permits, CountsOk, AuthorityOk, Packed;
  }

  lemma NothingPlaced(handle: nat, id: U64)
    requires handle > 0
    ensures Places(EmptySystem(), handle, id) == 0
  {
    hide CountsOk, AuthorityOk, Packed;
    var s := EmptySystem();
    if id == 0 {
      FreeSlotHoldsNothing(s, handle);
    } else {
      FindDomainIs(s.domains, id, |s.domains|);
    }
  }

  // ---------- reference counts over runs ----------

  /** Whether a handle is an orphan is settled when it is created. */
  lemma {:induction false} OrphansAreSettled(s: System, ops: seq<Op>, handle: nat)
    requires Inv(s) && handle < s.nextHandle && forall i :: 0 <= i < |ops| ==> Proper(ops[i])
    ensures handle < Run(s, ops).nextHandle
    ensures handle in Run(s, ops).orphans <==> handle in s.orphans
    decreases |ops|
  {
    hide Inv;
    if ops != [] {
      StepKeeps(s, ops[0]);
      OrphansAfterStep(s, ops[0], handle);
      OrphansAreSettled(Step(s, ops[0]), ops[1..], handle);
    }
  }

  lemma OrphansAfterStep(s: System, op: Op, handle: nat)
    requires Inv(s) && Proper(op) && handle < s.nextHandle
    ensures handle < Step(s, op).nextHandle && (handle in Step(s, op).orphans <==> handle in s.orphans)
  {
  }

  /** The reference count of a capability stays its number of occurrences over all domains, in
      every run after its creation, exactly when the owner existed and had room at that moment. */
  lemma RefCountStaysExactIff(s: System, ops: seq<Op>)
    requires Inv(s) && s.nextHandle <= MAX_CAPABILITIES
    requires forall i :: 0 <= i < |ops| ==> Proper(ops[i])
    requires ops != [] && ops[0].Create?
    ensures var h, t := s.nextHandle, Run(s, ops);
            && h < t.nextHandle
            && (t.caps[h - 1].refCount == Occurrences(t.domains, h) <==> HasRoom(s, ops[0].record.owner))
  {
    hide Occurrences, AuthorityOk, DomainsOk, HasRoom, Step;
    StepKeeps(s, ops[0]);
    OrphanWithoutRoom(s, ops[0]);
    OrphansAreSettled(Step(s, ops[0]), ops[1..], s.nextHandle);
  }

  lemma OrphanWithoutRoom(s: System, op: Op)
    requires Inv(s) && s.nextHandle <= MAX_CAPABILITIES && op.Create?
    ensures s.nextHandle < Step(s, op).nextHandle
    ensures s.nextHandle in Step(s, op).orphans <==> !HasRoom(s, op.record.owner)
  {
  }

  /** The first capability created for a domain that does not exist counts a place it is not in. */
  lemma CountOfOrphanIsWrong(record: Cap)
    requires Proper(Create(record))
    ensures CreateSpec(EmptySystem(), record).caps[0].refCount == 1
    ensures Occurrences(CreateSpec(EmptySystem(), record).domains, 1) == 0
  {
    hide Occurrences, CountsOk, AuthorityOk;
    NoOccurrences(EmptySystem().domains, 1, 1);
    assert !HasRoom(EmptySystem(), record.owner);
  }

  // ---------- the tables in place ----------

  class CapSystem {
    const capabilities: array<Cap>
    const domains: array<Domain>
    var nextHandle: nat
    var nextDomainId: nat
    ghost var created: seq<Cap>
    ghost var orphans: set<nat>
    ghost var granted: set<(nat, nat)>

    /** The tables and their history as a value. */
    ghost function Value(): System
      reads this, capabilities, domains
    {
      System(capabilities[..], domains[..], nextHandle, nextDomainId, created, orphans, granted)
    }

    ghost predicate Valid()
      reads this, capabilities, domains
    {
      Inv(Value())
    }

    constructor ()
      ensures Valid() && Value() == EmptySystem() && fresh(capabilities) && fresh(domains)
    {
      capabilities := new Cap[MAX_CAPABILITIES](_ => NO_CAP);
      domains := new Domain[MAX_DOMAINS](_ => NO_DOMAIN);
      nextHandle, nextDomainId := 1, 1;
      created, orphans, granted := [], {}, {};
      new;
      assert capabilities[..] == EmptySystem().caps && domains[..] == EmptySystem().domains;
    }

    /** The slot of a domain id; the table size when there is none. */
    method GetDomain(id: U64) returns (i: nat)
      requires domains.Length == MAX_DOMAINS
      ensures i == FindDomain(domains[..], id) && i <= MAX_DOMAINS
    {
      i := 0;
      while i < MAX_DOMAINS
        invariant 0 <= i <= MAX_DOMAINS
        invariant forall k :: 0 <= k < i ==> domains[k].id != id
      {
        if domains[i].id == id {
          FindDomainIs(domains[..], id, i);
          return;
        }
        i := i + 1;
      }
      FindDomainIs(domains[..], id, i);
    }

    /** Resolves a handle: for every handle issued, the slot of the record created with it. */
    method GetCapability(handle: U32) returns (found: bool, i: nat)
      requires Valid()
      ensures found <==> 1 <= handle < nextHandle
      ensures found ==> i == handle - 1 && i < MAX_CAPABILITIES
                        && capabilities[i] == created[i].(refCount := capabilities[i].refCount)
    {
      if handle == 0 || handle >= nextHandle {
        return false, 0;
      }
      i := 0;
      while i < MAX_CAPABILITIES
        invariant 0 <= i <= handle - 1
      {
        assert capabilities[i] == Value().caps[i];
        if capabilities[i].magic == CAP_MAGIC {
          if i == (handle - 1) % MAX_CAPABILITIES {
            return true, i;
          }
        }
        i := i + 1;
      }
      assert false;
    }

    /** The next domain, in the first free slot, whose space is cleared. */
    method CreateDomain(memoryBase: U64, memorySize: U64) returns (id: nat)
      requires SlotsInOrder(Value())
      modifies this`nextDomainId, domains
      ensures Value() == CreateDomainSpec(old(Value()), memoryBase, memorySize)
      ensures old(Valid()) ==> Valid()
      ensures id == if old(nextDomainId) > MAX_DOMAINS then 0 else old(nextDomainId)
      ensures id == 0 ==> domains[..] == old(domains[..]) && nextDomainId == old(nextDomainId)
      ensures id != 0 ==>
        && nextDomainId == id + 1 && domains[..] == old(domains[..])[id - 1 := domains[id - 1]]
        && domains[id - 1].id == id && domains[id - 1].memoryBase == memoryBase && domains[id - 1].memorySize == memorySize
        && domains[id - 1].numCaps == 0 && domains[id - 1].state == 0
        && domains[id - 1].capSpace == EmptySpace()
    {
      hide TableOk, CountsOk, AuthorityOk, Packed;
      if Valid() {
        CreateDomainKeeps(Value(), memoryBase, memorySize);
      }
      var slot := GetDomain(0);
      FirstFreeSlot(Value(), slot);
      if slot >= MAX_DOMAINS {
        return 0;
      }
      domains[slot] := Domain(nextDomainId, memoryBase, memorySize, EmptySpace(), 0, 0);
      nextDomainId := nextDomainId + 1;
      assert Value() == CreateDomainSpec(old(Value()), memoryBase, memorySize);
      id := nextDomainId - 1;
    }

    /** Enters a handle in a domain's space: -1 without such a domain, -2 without room. */
    method AddCap(id: U64, handle: U32) returns (r: int)
      requires DomainsOk(Value())
      modifies domains
      ensures r == if FindDomain(old(domains[..]), id) == MAX_DOMAINS then -1 else if HasRoom(old(Value()), id) then 0 else -2
      ensures r != 0 ==> domains[..] == old(domains[..])
      ensures r == 0 ==> Value() == AddSpec(old(Value()), id, handle)
      ensures r == -2 ==> old(domains[FindDomain(domains[..], id)].numCaps) >= 64
      ensures r == 0 ==>
        var i, was := FindDomain(old(domains[..]), id), old(domains[..]);
        && was[i].numCaps < 64 && |was[i].capSpace| == 64
        && domains[..] == was[i := was[i].(capSpace := was[i].capSpace[was[i].numCaps := handle], numCaps := was[i].numCaps + 1)]
    {
      hide Packed;
      var i := GetDomain(id);
      if i >= MAX_DOMAINS {
        return -1;
      }
      PackedHandles(Value(), i);
      if domains[i].numCaps >= SPACE_SIZE {
        return -2;
      }
      domains[i] := domains[i].(capSpace := domains[i].capSpace[domains[i].numCaps := handle], numCaps := domains[i].numCaps + 1);
      assert Value() == AddSpec(old(Value()), id, handle);
      r := 0;
    }

    /** Takes the first occurrence of a handle out of a domain's space: -1 without such a domain,
        -2 when it is not there. */
    method RemoveCap(id: U64, handle: U32) returns (r: int)
      requires DomainsOk(Value()) && handle != 0
      modifies domains
      ensures r == if FindDomain(old(domains[..]), id) == MAX_DOMAINS then -1
                   else if Holds(old(domains[..])[FindDomain(old(domains[..]), id)], handle) then 0 else -2
      ensures r != 0 ==> domains[..] == old(domains[..])
      ensures r == 0 ==>
        var i := FindDomain(old(domains[..]), id);
        var d := old(domains[..])[i];
        && Packed(d, nextHandle) && IndexOfCap(d, handle, 0) < d.numCaps
        && domains[..] == old(domains[..])[i := WithoutIndex(d, IndexOfCap(d, handle, 0))]
    {
      hide WithoutIndex;
      var i := GetDomain(id);
      if i >= MAX_DOMAINS {
        return -1;
      }
      PackedHandles(Value(), i);
      ghost var d := domains[i];
      var k := 0;
      while k < domains[i].numCaps
        invariant 0 <= k <= d.numCaps && domains[..] == old(domains[..])
        invariant forall x :: 0 <= x < k ==> d.capSpace[x] != handle
      {
        if domains[i].capSpace[k] == handle {
          FirstIndexIs(d, handle, k);
          ShiftOut(i, k);
          return 0;
        }
        k := k + 1;
      }
      assert !Holds(d, handle);
      r := -2;
    }

    /** Closes the gap at index k of a space and clears the last place. */
    method ShiftOut(i: nat, k: nat)
      requires domains.Length == MAX_DOMAINS && i < MAX_DOMAINS && |domains[i].capSpace| == SPACE_SIZE
      requires k < domains[i].numCaps <= SPACE_SIZE
      modifies domains
      ensures domains[..] == old(domains[..])[i := WithoutIndex(old(domains[i]), k)]
      ensures var was := old(domains[i]);
              && domains[..] == old(domains[..])[i := was.(capSpace := domains[i].capSpace, numCaps := was.numCaps - 1)]
              && domains[i].capSpace == was.capSpace[..k] + was.capSpace[k + 1..was.numCaps] + [0] + was.capSpace[was.numCaps..]
    {
      hide MovedDown;
      ghost var d := domains[i];
      var j := k;
      NothingMoved(d.capSpace, k);
      while j < domains[i].numCaps - 1
        invariant k <= j < d.numCaps && |domains[i].capSpace| == SPACE_SIZE
        invariant domains[..] == old(domains[..])[i := d.(capSpace := MovedDown(d.capSpace, k, j))]
      {
        MoveOneDown(d.capSpace, k, j);
        domains[i] := domains[i].(capSpace := domains[i].capSpace[j := domains[i].capSpace[j + 1]]);
        j := j + 1;
      }
      GapClosed(d.capSpace, k, d.numCaps);
      var n := domains[i].numCaps - 1;
      domains[i] := domains[i].(numCaps := n, capSpace := domains[i].capSpace[n := 0]);
      ghost var t := MovedDown(d.capSpace, k, n);
      assert t[n := 0] == t[..n] + [0] + t[n + 1..];
      assert domains[i].capSpace == WithoutIndex(d, k).capSpace;
    }

    /** A new capability under the next handle, entered in its owner's space when that is possible. */
    method Create(kind: nat, permissions: U32, resourceId: U64, base: U64, size: U64, owner: U64) returns (handle: nat)
      requires Valid()
      modifies this`nextHandle, this`created, this`orphans, capabilities, domains
      ensures Valid() <==> NamesNoFreeSlot(old(Value()), owner) || old(nextHandle) > MAX_CAPABILITIES
      ensures Value() == CreateSpec(old(Value()), Cap(CAP_MAGIC, kind, permissions, resourceId, base, size, owner, 1, 0))
      ensures handle == if old(nextHandle) > MAX_CAPABILITIES then 0 else old(nextHandle)
      ensures handle == 0 ==> capabilities[..] == old(capabilities[..]) && nextHandle == old(nextHandle)
      ensures handle != 0 ==>
        && nextHandle == handle + 1 && capabilities[..] == old(capabilities[..])[handle - 1 := capabilities[handle - 1]]
        && capabilities[handle - 1].kind == kind && capabilities[handle - 1].permissions == permissions
        && capabilities[handle - 1].resourceId == resourceId && capabilities[handle - 1].base == base
        && capabilities[handle - 1].size == size && capabilities[handle - 1].owner == owner
        && capabilities[handle - 1].refCount == 1 && capabilities[handle - 1].flags == 0
      ensures var i, ds := FindDomain(old(domains[..]), owner), old(domains[..]);
              if handle == 0 || i == MAX_DOMAINS || ds[i].numCaps >= 64 then domains[..] == ds
              else OneAdded(ds, domains[..], i, handle)
    {
      hide CountsOk, AuthorityOk, Packed, OneAdded;
      ghost var s, record := Value(), Cap(CAP_MAGIC, kind, permissions, resourceId, base, size, owner, 1, 0);
      CreateKeeps(s, record);
      CreateIsEntry(s, record);
      var slot := 0;
      while slot < MAX_CAPABILITIES && capabilities[slot].magic == CAP_MAGIC
        invariant 0 <= slot <= nextHandle - 1 && Value() == s
      {
        assert capabilities[slot] == s.caps[slot];
        slot := slot + 1;
      }
      assert slot < MAX_CAPABILITIES ==> capabilities[slot] == s.caps[slot];
      if slot >= MAX_CAPABILITIES {
        return 0;
      }
      capabilities[slot] := Cap(CAP_MAGIC, kind, permissions, resourceId, base, size, owner, 1, 0);
      handle := nextHandle;
      nextHandle := nextHandle + 1;
      created := created + [record];
      NextHandleKeepsDomains(s, Value());
      var r := AddCap(owner, handle);
      if r != 0 {
        orphans := orphans + {handle};
      }
      assert Value() == CreateSpec(s, record);
    }

    /** Grants a capability to a domain. Returns the handle even when nothing was entered, which
        is so exactly when the target is missing or full. */
    method Grant(handle: U32, target: U64) returns (r: nat)
      requires Valid()
      modifies this`granted, capabilities, domains
      ensures Value() == GrantSpec(old(Value()), handle, target)
      ensures Valid() <==> NamesNoFreeSlot(old(Value()), target) || r == 0
      ensures r == GrantResult(old(Value()), handle)
      ensures r == if 1 <= handle < nextHandle && Bit(old(capabilities[..])[handle - 1].permissions, 3) then handle else 0
      ensures var i, ds, cs := FindDomain(old(domains[..]), target), old(domains[..]), old(capabilities[..]);
              if r == 0 || i == MAX_DOMAINS || ds[i].numCaps >= 64 then domains[..] == ds && capabilities[..] == cs
              else OneEntered(ds, cs, domains[..], capabilities[..], i, handle)
      ensures r != 0 ==>
        (Places(Value(), handle, target) == old(Places(Value(), handle, target)) + 1 <==> HasRoom(old(Value()), target))
    {
      hide CountsOk, AuthorityOk, Packed, BitAnd, Bit, Places, OneEntered;
      ghost var s := Value();
      GrantIsEntry(s, handle, target);
      if 1 <= handle < nextHandle {
        GrantableIsBit(capabilities[..][handle - 1].permissions);
      }
      GrantKeeps(s, handle, target);
      GrantReportsTrulyIff(s, handle, target);
      var found, i := GetCapability(handle);
      if !found {
        return 0;
      }
      if BitAnd(capabilities[i].permissions, PERM_GRANT) == 0 {
        return 0;
      }
      RefCountFits(s, handle);
      var result := AddCap(target, handle);
      if result == 0 {
        capabilities[i] := capabilities[i].(refCount := capabilities[i].refCount + 1);
        granted := granted + {(handle as nat, target as nat)};
        assert Value() == GrantSpec(s, handle, target);
      }
      r := handle;
    }

    /** Takes one occurrence of a capability from a domain: -1 for an unknown handle or domain, -2
        when the domain does not hold it. */
    method Revoke(handle: U32, id: U64) returns (r: int)
      requires Valid()
      modifies capabilities, domains
      ensures Valid() && Value() == RevokeSpec(old(Value()), handle, id)
      ensures r == if !(1 <= handle < nextHandle) || FindDomain(old(domains[..]), id) == MAX_DOMAINS then -1
                   else if handle in old(domains[..])[FindDomain(old(domains[..]), id)].capSpace then 0 else -2
      ensures r != 0 ==> domains[..] == old(domains[..]) && capabilities[..] == old(capabilities[..])
      ensures r == 0 ==>
        var i, ds, cs := FindDomain(old(domains[..]), id), old(domains[..]), old(capabilities[..]);
        && cs[handle - 1].refCount >= 1
        && capabilities[..] == cs[handle - 1 := cs[handle - 1].(refCount := cs[handle - 1].refCount - 1)]
        && OneTakenOut(ds[i], domains[i], handle) && domains[..] == ds[i := domains[i]]
    {
      hide CountsOk, AuthorityOk, Packed, WithoutIndex, OneTakenOut;
      ghost var s := Value();
      RevokeKeeps(s, handle, id);
      var found, i := GetCapability(handle);
      if !found {
        return -1;
      }
      r := RemoveCap(id, handle);
      if r == 0 {
        HeldIsPlaced(s, FindDomain(s.domains, id), handle);
        TakenOut(s.domains[FindDomain(s.domains, id)], handle);
        capabilities[i] := capabilities[i].(refCount := capabilities[i].refCount - 1);
        assert Value() == RevokeSpec(s, handle, id);
      }
    }

    /** Whether a domain may use a capability with the given rights. */
    method Check(id: U64, handle: U32, permission: U32) returns (r: int)
      requires Valid()
      ensures r == 0 <==> MayUse(Value(), id, handle, permission)
      ensures r == 0 <==>
        && FindDomain(domains[..], id) < MAX_DOMAINS && 1 <= handle < nextHandle
        && handle in domains[FindDomain(domains[..], id)].capSpace
        && forall k :: 0 <= k < 32 && Bit(permission, k) ==> Bit(created[handle - 1].permissions, k)
      ensures r == -1 <==> FindDomain(domains[..], id) == MAX_DOMAINS
      ensures r == -2 <==> FindDomain(domains[..], id) < MAX_DOMAINS && handle !in domains[FindDomain(domains[..], id)].capSpace
      ensures r in {0, -1, -2, -3}
    {
      hide CountsOk, AuthorityOk, BitAnd, Bit, Packed;
      if 1 <= handle < nextHandle {
        PermitsIsInclusion(created[handle - 1].permissions, permission);
      }
      var i := GetDomain(id);
      if i >= MAX_DOMAINS {
        return -1;
      }
      PackedHandles(Value(), i);
      var hasCap, k := false, 0;
      while k < SPACE_SIZE && !hasCap
        invariant 0 <= k <= SPACE_SIZE
        invariant hasCap ==> handle in domains[i].capSpace
        invariant !hasCap ==> forall x :: 0 <= x < k ==> domains[i].capSpace[x] != handle
        decreases SPACE_SIZE - k, !hasCap
      {
        if domains[i].capSpace[k] == handle {
          hasCap := true;
        } else {
          k := k + 1;
        }
      }
      if !hasCap {
        return -2;
      }
      var found, c := GetCapability(handle);
      if !found || BitAnd(capabilities[c].permissions, permission) != permission {
        return -3;
      }
      r := 0;
    }
  }

  /** Domain i after a handle is entered in the first free place of its space. */
  ghost predicate OneAdded(ds: seq<Domain>, ds': seq<Domain>, i: nat, handle: U32) {
    && i < |ds| && ds[i].numCaps < |ds[i].capSpace| == 64
    && ds' == ds[i := ds[i].(capSpace := ds[i].capSpace[ds[i].numCaps := handle], numCaps := ds[i].numCaps + 1)]
  }

  /** The handle entered there, and its record counted. */
  ghost predicate OneEntered(ds: seq<Domain>, cs: seq<Cap>, ds': seq<Domain>, cs': seq<Cap>, i: nat, handle: U32) {
    && OneAdded(ds, ds', i, handle) && 1 <= handle <= |cs| && cs[handle - 1].refCount + 1 < TWO_32
    && cs' == cs[handle - 1 := cs[handle - 1].(refCount := cs[handle - 1].refCount + 1)]
  }

  lemma CreateIsEntry(s: System, record: Cap)
    requires Inv(s)
    ensures var i, t := FindDomain(s.domains, record.owner), CreateSpec(s, record);
            if s.nextHandle > MAX_CAPABILITIES || i == MAX_DOMAINS || s.domains[i].numCaps >= 64 then t.domains == s.domains
            else OneAdded(s.domains, t.domains, i, s.nextHandle)
  {
    hide CountsOk, AuthorityOk;
    if s.nextHandle <= MAX_CAPABILITIES && HasRoom(s, record.owner) {
      assert Packed(s.domains[FindDomain(s.domains, record.owner)], s.nextHandle);
    }
  }

  lemma GrantIsEntry(s: System, handle: U32, target: U64)
    requires Inv(s)
    ensures var i, t := FindDomain(s.domains, target), GrantSpec(s, handle, target);
            if GrantResult(s, handle) == 0 || i == MAX_DOMAINS || s.domains[i].numCaps >= 64
            then t.domains == s.domains && t.caps == s.caps
            else OneEntered(s.domains, s.caps, t.domains, t.caps, i, handle)
  {
    hide CountsOk, AuthorityOk, Grantable;
    if GrantWorks(s, handle, target) {
      RefCountFits(s, handle);
      assert Packed(s.domains[FindDomain(s.domains, target)], s.nextHandle);
    }
  }

  /** A domain after the loss of the first occurrence of a handle: the later handles move down one
      place, and the last place is cleared. */
  ghost predicate OneTakenOut(d: Domain, d': Domain, handle: nat) {
    exists k :: 0 <= k < d.numCaps <= |d.capSpace| && d.capSpace[k] == handle && handle !in d.capSpace[..k]
                && d'.capSpace == d.capSpace[..k] + d.capSpace[k + 1..d.numCaps] + [0] + d.capSpace[d.numCaps..]
                && d' == d.(capSpace := d'.capSpace, numCaps := d'.numCaps) && d'.numCaps == d.numCaps - 1
  }

  lemma TakenOut(d: Domain, handle: U32)
    requires |d.capSpace| == SPACE_SIZE && d.numCaps <= SPACE_SIZE && IndexOfCap(d, handle, 0) < d.numCaps
    ensures OneTakenOut(d, WithoutIndex(d, IndexOfCap(d, handle, 0)), handle)
  {
    var k := IndexOfCap(d, handle, 0);
    assert d.capSpace[k] == handle && handle !in d.capSpace[..k];
  }

  /** Slots are taken in order, so the first free one is the next. */
  lemma FirstFreeSlot(s: System, slot: nat)
    requires SlotsInOrder(s) && slot == FindDomain(s.domains, 0)
    ensures slot == s.nextDomainId - 1
  {
    if s.nextDomainId <= MAX_DOMAINS {
      assert s.domains[s.nextDomainId - 1].id == 0;
    }
  }

  lemma FirstIndexIs(d: Domain, handle: U32, k: nat)
    requires |d.capSpace| == SPACE_SIZE && k < d.numCaps <= SPACE_SIZE && d.capSpace[k] == handle
    requires forall x :: 0 <= x < k ==> d.capSpace[x] != handle
    ensures IndexOfCap(d, handle, 0) == k
  {
  }

  lemma NextHandleKeepsDomains(s: System, t: System)
    requires DomainsOk(s) && t.domains == s.domains && t.nextDomainId == s.nextDomainId && t.nextHandle >= s.nextHandle
    ensures DomainsOk(t)
  {
    forall i | 0 <= i < MAX_DOMAINS
      ensures Packed(t.domains[i], t.nextHandle)
    {
      assert Packed(s.domains[i], s.nextHandle);
    }
  }

  lemma FindDomainIs(ds: seq<Domain>, id: U64, i: nat)
    requires i <= |ds| && (i < |ds| ==> ds[i].id == id)
    requires forall k :: 0 <= k < i ==> ds[k].id != id
    ensures FindDomain(ds, id) == i
  {
  }
}
