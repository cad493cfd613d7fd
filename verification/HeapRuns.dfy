/** Whole runs of the heap with the bytes that clients put in their payloads. */
module HeapRuns {
  import opened MachineInts
  import opened HeapBlocks
  import opened HeapHeaders
  import H = Heap

  /** The bytes of a heap at an address, and the tiling they hold. */
  datatype Snapshot = Snapshot(bytes: seq<Byte>, base: nat, blocks: seq<Block>)

  /** What a client does: the three calls, and a store of one byte into a payload. */
  datatype Call = Malloc(request: U64) | Release(ptr: U64) | Resize(ptr: U64, request: U64) | Put(ptr: U64, i: nat, v: Byte)

  ghost predicate Sane(s: Snapshot) {
    s.base > 0 && Linked(s.bytes, s.base, s.blocks)
  }

  ghost predicate IsLive(s: Snapshot, ptr: nat) {
    ptr >= HEADER && Live(s.blocks, ptr - HEADER)
  }

  ghost function BlockOf(s: Snapshot, ptr: nat): (b: Block)
    requires IsLive(s, ptr)
    ensures b in UsedSet(s.blocks) && b.at + HEADER == ptr
  {
    s.blocks[IndexOf(s.blocks, ptr - HEADER)]
  }

  /** What the heap demands of its callers. */
  ghost predicate Allowed(s: Snapshot, c: Call) {
    match c
    case Malloc(request) => H.AllocSafe(s.blocks, request)
    case Release(ptr) => ptr == 0 || IsLive(s, ptr)
    case Resize(ptr, request) =>
      if ptr == 0 then H.AllocSafe(s.blocks, request)
      else IsLive(s, ptr) && (request <= BlockOf(s, ptr).size - HEADER || H.MoveSafe(s.blocks, BlockOf(s, ptr), request))
    case Put(ptr, i, v) => IsLive(s, ptr) && HEADER + i < BlockOf(s, ptr).size
  }

  // ---------- what one call does to the payloads ----------

  ghost predicate Same(s: Snapshot, s': Snapshot) {
    UsedSet(s'.blocks) == UsedSet(s.blocks) && KeepsPayloads(s.bytes, s'.bytes, s.base, UsedSet(s.blocks))
  }

  ghost predicate Gained(s: Snapshot, s': Snapshot, nb: Block) {
    && nb !in UsedSet(s.blocks) && UsedSet(s'.blocks) == UsedSet(s.blocks) + {nb}
    && KeepsPayloads(s.bytes, s'.bytes, s.base, UsedSet(s.blocks))
  }

  ghost predicate Lost(s: Snapshot, s': Snapshot, b: Block) {
    && b in UsedSet(s.blocks) && UsedSet(s'.blocks) == UsedSet(s.blocks) - {b}
    && KeepsPayloads(s.bytes, s'.bytes, s.base, UsedSet(s'.blocks))
  }

  ghost predicate Replaced(s: Snapshot, s': Snapshot, b: Block, nb: Block) {
    && b in UsedSet(s.blocks) && nb !in UsedSet(s.blocks) && UsedSet(s'.blocks) == UsedSet(s.blocks) - {b} + {nb}
    && H.StartsWith(s.bytes, s'.bytes, s.base, b, nb)
    && KeepsPayloads(s.bytes, s'.bytes, s.base, UsedSet(s.blocks) - {b})
  }

  ghost predicate ByteSet(s: Snapshot, s': Snapshot, x: nat, v: Byte) {
    && s'.blocks == s.blocks && s.base <= x < s.base + |s.bytes|
    && s'.bytes == s.bytes[x - s.base := v]
  }

  ghost predicate GainedAt(s: Snapshot, s': Snapshot, ptr: nat) {
    exists nb: Block :: nb.at + HEADER == ptr && Gained(s, s', nb)
  }

  ghost predicate LostAt(s: Snapshot, s': Snapshot, ptr: nat) {
    exists b: Block :: b.at + HEADER == ptr && Lost(s, s', b)
  }

  ghost predicate ReplacedAt(s: Snapshot, s': Snapshot, ptr: nat, newPtr: nat) {
    exists b: Block, nb: Block :: b.at + HEADER == ptr && nb.at + HEADER == newPtr && Replaced(s, s', b, nb)
  }

  /** One call with result r. */
  ghost predicate Step(s: Snapshot, c: Call, r: nat, s': Snapshot) {
    && Sane(s) && Sane(s') && s'.base == s.base && |s'.bytes| == |s.bytes|
    && match c
       case Malloc(_) => if r == 0 then Same(s, s') else GainedAt(s, s', r)
       case Release(ptr) => if ptr == 0 then Same(s, s') else LostAt(s, s', ptr)
       case Resize(ptr, request) =>
         if ptr == 0 then (if r == 0 then Same(s, s') else GainedAt(s, s', r))
         else if request == 0 then LostAt(s, s', ptr)
         else if r == 0 || r == ptr then Same(s, s')
         else ReplacedAt(s, s', ptr, r)
       case Put(ptr, i, v) => IsLive(s, ptr) && HEADER + i < BlockOf(s, ptr).size && ByteSet(s, s', ptr + i, v)
  }

  ghost function Snap(h: H.Heap): Snapshot
    reads h, h.mem
  {
    Snapshot(h.mem[..], h.base, h.blocks)
  }

  lemma ValidIsSane(h: H.Heap)
    requires h.Valid()
    ensures Sane(Snap(h)) && Canonical(h.blocks, h.base, h.base + |h.mem[..]|)
  {
    hide Bytes, HeaderIn;
    LinkedTiles(h.mem[..], h.base, h.blocks);
  }

  lemma ObtainedIsGained(s: Snapshot, s': Snapshot, request: U64, r: nat)
    requires H.Obtained(s.blocks, s'.blocks, s.base, s.base + |s.bytes|, request, r)
    requires KeepsPayloads(s.bytes, s'.bytes, s.base, UsedSet(s.blocks))
    ensures GainedAt(s, s', r)
  {
    hide KeepsPayloads, H.TotalSize, FreeStretch;
    assert Gained(s, s', s'.blocks[IndexOf(s'.blocks, r - HEADER)]);
  }

  lemma FreedIsLost(s: Snapshot, s': Snapshot, ptr: nat)
    requires Canonical(s.blocks, s.base, s.base + |s.bytes|) && IsLive(s, ptr)
    requires s'.blocks == FreeSpec(s.blocks, ptr - HEADER)
    requires KeepsPayloads(s.bytes, s'.bytes, s.base, UsedSet(s'.blocks))
    ensures LostAt(s, s', ptr)
  {
    hide KeepsPayloads, FreeAt, Canonical;
    FreeRemovesOneBlock(s.blocks, s.base, s.base + |s.bytes|, IndexOf(s.blocks, ptr - HEADER));
    assert Lost(s, s', BlockOf(s, ptr));
  }

  lemma MovedIsReplaced(s: Snapshot, s': Snapshot, ptr: nat, request: nat, r: nat)
    requires IsLive(s, ptr) && H.Moved(s.bytes, s'.bytes, s.base, s.blocks, s'.blocks, BlockOf(s, ptr), r, request)
    ensures ReplacedAt(s, s', ptr, r)
  {
    hide KeepsPayloads, H.StartsWith;
    assert Replaced(s, s', BlockOf(s, ptr), s'.blocks[IndexOf(s'.blocks, r - HEADER)]);
  }

  /** The calls of the heap are such steps. */
  method Do(h: H.Heap, c: Call) returns (r: U64)
    requires h.Valid() && Allowed(Snap(h), c)
    modifies h`blocks, h`used, h.mem
    ensures h.Valid() && Step(old(Snap(h)), c, r, Snap(h))
  {
    match c
    case Malloc(request) => r := DoMalloc(h, request);
    case Release(ptr) =>
      r := 0;
      DoRelease(h, ptr);
    case Resize(ptr, request) => r := DoResize(h, ptr, request);
    case Put(ptr, i, v) =>
      r := 0;
      DoPut(h, ptr, i, v);
  }

  method DoMalloc(h: H.Heap, request: U64) returns (r: U64)
    requires h.Valid() && Allowed(Snap(h), Malloc(request))
    modifies h`blocks, h`used, h.mem
    ensures h.Valid() && Step(old(Snap(h)), Malloc(request), r, Snap(h))
  {
    hide Linked, Bytes, NoFreeNeighbours, H.AllocSafe, KeepsPayloads, H.TotalSize, FirstFit, AllocAt, H.Obtained, GainedAt, UsedSet;
    hide NoStretch;
    ghost var s := Snap(h);
    ValidIsSane(h);
    r := h.Alloc(request);
    ValidIsSane(h);
    if r != 0 {
      ObtainedIsGained(s, Snap(h), request, r);
    }
  }

  method DoRelease(h: H.Heap, ptr: U64)
    requires h.Valid() && Allowed(Snap(h), Release(ptr))
    modifies h`blocks, h`used, h.mem
    ensures h.Valid() && Step(old(Snap(h)), Release(ptr), 0, Snap(h))
  {
    hide Linked, Bytes, NoFreeNeighbours, KeepsPayloads, FreeSpec, LostAt, UsedSet, Canonical;
    ghost var s := Snap(h);
    ValidIsSane(h);
    h.Free(ptr);
    ValidIsSane(h);
    if ptr != 0 {
      FreedIsLost(s, Snap(h), ptr);
    }
  }

  method DoResize(h: H.Heap, ptr: U64, request: U64) returns (r: U64)
    requires h.Valid() && Allowed(Snap(h), Resize(ptr, request))
    modifies h`blocks, h`used, h.mem
    ensures h.Valid() && Step(old(Snap(h)), Resize(ptr, request), r, Snap(h))
  {
    hide Linked, Bytes, NoFreeNeighbours, H.AllocSafe, H.MoveSafe, KeepsPayloads, H.TotalSize, FirstFit, AllocSpec, H.Obtained;
    hide GainedAt, LostAt, ReplacedAt, H.Moved, FreeSpec, UsedSet, Canonical;
    ghost var s := Snap(h);
    ValidIsSane(h);
    H.KeepsItself(s.bytes, s.base, UsedSet(s.blocks));
    r := h.Realloc(ptr, request);
    ValidIsSane(h);
    if ptr == 0 {
      if r != 0 {
        ObtainedIsGained(s, Snap(h), request, r);
      } else if request != 0 {
        NoneTaken(s.blocks, request);
      }
    } else if request == 0 {
      FreedIsLost(s, Snap(h), ptr);
    } else if request > BlockOf(s, ptr).size - HEADER && r != 0 {
      MovedIsReplaced(s, Snap(h), ptr, request, r);
    }
  }

  lemma NoneTaken(bs: seq<Block>, request: U64)
    requires FirstFit(bs, H.TotalSize(request)) == |bs|
    ensures AllocSpec(bs, H.TotalSize(request)) == bs
  {
  }

  /** A client's store into its payload. */
  method DoPut(h: H.Heap, ptr: U64, i: nat, v: Byte)
    requires h.Valid() && Allowed(Snap(h), Put(ptr, i, v))
    modifies h.mem
    ensures h.Valid() && Step(old(Snap(h)), Put(ptr, i, v), 0, Snap(h))
  {
    hide Linked, Bytes, NoFreeNeighbours, KeepsPayloads, UsedSet;
    ghost var s, k := Snap(h), IndexOf(h.blocks, ptr - HEADER);
    ValidIsSane(h);
    TilesWithin(h.blocks, h.base, h.base + h.size, k);
    h.mem[ptr + i - h.base] := v;
    PayloadWrite(s.bytes, h.mem[..], h.base, h.blocks, k);
    ValidIsSane(h);
  }

  // ---------- what is known of the payloads ----------

  /** For each live pointer, the bytes last put into its payload, by offset. */
  type Ledger = map<nat, map<nat, Byte>>

  function Known(e: Ledger, ptr: nat): map<nat, Byte> {
    if ptr in e then e[ptr] else map[]
  }

  function After(e: Ledger, c: Call, r: nat): Ledger {
    match c
    case Malloc(_) => if r == 0 then e else e[r := map[]]
    case Release(ptr) => e - {ptr as nat}
    case Resize(ptr, request) =>
      if ptr == 0 then (if r == 0 then e else e[r := map[]])
      else if request == 0 then e - {ptr as nat}
      else if r == 0 || r == ptr then e
      else (e - {ptr as nat})[r := Known(e, ptr)]
    case Put(ptr, i, v) => e[ptr as nat := Known(e, ptr)[i := v]]
  }

  ghost predicate ByteHeld(s: Snapshot, b: Block, i: nat, v: Byte) {
    && HEADER + i < b.size && s.base <= b.at && b.End() <= s.base + |s.bytes|
    && s.bytes[b.at + HEADER + i - s.base] == v
  }

  ghost predicate BytesHeld(s: Snapshot, b: Block, m: map<nat, Byte>) {
    forall i :: i in m ==> ByteHeld(s, b, i, m[i])
  }

  /** The block's payload holds what the ledger says. */
  ghost predicate Held(s: Snapshot, e: Ledger, b: Block) {
    b.at + HEADER in e && BytesHeld(s, b, e[b.at + HEADER])
  }

  /** The ledger has exactly the live pointers, and all of it is so. */
  ghost predicate Holds(s: Snapshot, e: Ledger) {
    && (forall b :: b in UsedSet(s.blocks) ==> Held(s, e, b))
    && forall p :: p in e ==> IsLive(s, p)
  }

  lemma LiveIsBlock(s: Snapshot, p: nat)
    ensures IsLive(s, p) <==> exists b: Block :: b in UsedSet(s.blocks) && b.at + HEADER == p
  {
    if IsLive(s, p) {
      assert BlockOf(s, p) in UsedSet(s.blocks);
    }
    if b: Block :| b in UsedSet(s.blocks) && b.at + HEADER == p {
      var k :| 0 <= k < |s.blocks| && s.blocks[k] == b;
    }
  }

  lemma OneBlockPerAddress(s: Snapshot, b: Block, c: Block)
    requires Sane(s) && b in UsedSet(s.blocks) && c in UsedSet(s.blocks) && b.at == c.at
    ensures b == c
  {
    hide Linked;
    LinkedTiles(s.bytes, s.base, s.blocks);
    var i :| 0 <= i < |s.blocks| && s.blocks[i] == b;
    var j :| 0 <= j < |s.blocks| && s.blocks[j] == c;
    SameAddressSameBlock(s.blocks, s.base, s.base + |s.bytes|, i, j);
  }

  /** A block whose payload is kept, under a ledger that says the same of it. */
  lemma StillHeld(s: Snapshot, s': Snapshot, e: Ledger, e': Ledger, b: Block, U: set<Block>)
    requires Held(s, e, b) && b in U && KeepsPayloads(s.bytes, s'.bytes, s.base, U) && s'.base == s.base
    requires b.at + HEADER in e' && e'[b.at + HEADER] == e[b.at + HEADER]
    ensures Held(s', e', b)
  {
    var m := e[b.at + HEADER];
    forall i | i in m
      ensures ByteHeld(s', b, i, m[i])
    {
      assert ByteHeld(s, b, i, m[i]);
      assert InPayload(b, b.at + HEADER + i);
    }
  }

  lemma SameHolds(s: Snapshot, s': Snapshot, e: Ledger)
    requires Sane(s) && Sane(s') && s'.base == s.base && Holds(s, e) && Same(s, s')
    ensures Holds(s', e)
  {
    hide KeepsPayloads, Held, UsedSet, Linked, IsLive;
    forall b | b in UsedSet(s'.blocks)
      ensures Held(s', e, b)
    {
      assert b.at + HEADER in e by { HeldIsKnown(s, e, b); }
      StillHeld(s, s', e, e, b, UsedSet(s.blocks));
    }
    forall p | p in e
      ensures IsLive(s', p)
    {
      LiveIsBlock(s, p);
      LiveIsBlock(s', p);
    }
  }

  lemma HeldIsKnown(s: Snapshot, e: Ledger, b: Block)
    requires Held(s, e, b)
    ensures b.at + HEADER in e
  {
  }

  lemma GainedHolds(s: Snapshot, s': Snapshot, e: Ledger, nb: Block)
    requires Sane(s) && Sane(s') && s'.base == s.base && Holds(s, e) && Gained(s, s', nb)
    ensures Holds(s', e[nb.at + HEADER := map[]])
  {
    hide KeepsPayloads, UsedSet, Linked, IsLive, ByteHeld;
    var e' := e[nb.at + HEADER := map[]];
    forall b | b in UsedSet(s'.blocks)
      ensures Held(s', e', b)
    {
      if b != nb {
        if b.at == nb.at {
          OneBlockPerAddress(s', b, nb);
        }
        StillHeld(s, s', e, e', b, UsedSet(s.blocks));
      }
    }
    forall p | p in e'
      ensures IsLive(s', p)
    {
      LiveIsBlock(s, p);
      LiveIsBlock(s', p);
    }
  }

  lemma LostHolds(s: Snapshot, s': Snapshot, e: Ledger, b: Block)
    requires Sane(s) && Sane(s') && s'.base == s.base && Holds(s, e) && Lost(s, s', b)
    ensures Holds(s', e - {b.at + HEADER})
  {
    hide KeepsPayloads, UsedSet, Linked, IsLive, ByteHeld;
    var e' := e - {b.at + HEADER};
    forall c | c in UsedSet(s'.blocks)
      ensures Held(s', e', c)
    {
      if c.at == b.at {
        OneBlockPerAddress(s, b, c);
      }
      StillHeld(s, s', e, e', c, UsedSet(s'.blocks));
    }
    forall p | p in e'
      ensures IsLive(s', p)
    {
      LiveIsBlock(s, p);
      LiveIsBlock(s', p);
    }
  }

  lemma ReplacedHolds(s: Snapshot, s': Snapshot, e: Ledger, b: Block, nb: Block)
    requires Sane(s) && Sane(s') && s'.base == s.base && Holds(s, e) && Replaced(s, s', b, nb) && b.at != nb.at
    ensures b.at + HEADER in e && Holds(s', (e - {b.at + HEADER})[nb.at + HEADER := e[b.at + HEADER]])
  {
    hide KeepsPayloads, UsedSet, Linked, IsLive, ByteHeld, H.StartsWith;
    assert Held(s, e, b);
    var e' := (e - {b.at + HEADER})[nb.at + HEADER := e[b.at + HEADER]];
    forall c | c in UsedSet(s'.blocks)
      ensures Held(s', e', c)
    {
      if c == nb {
        var m := e[b.at + HEADER];
        forall i | i in m
          ensures ByteHeld(s', nb, i, m[i])
        {
          ByteArrived(s, s', b, nb, i, m[i]);
        }
      } else {
        if c.at == nb.at {
          OneBlockPerAddress(s', c, nb);
        }
        if c.at == b.at {
          OneBlockPerAddress(s, c, b);
        }
        StillHeld(s, s', e, e', c, UsedSet(s.blocks) - {b});
      }
    }
    forall p | p in e'
      ensures IsLive(s', p)
    {
      LiveIsBlock(s, p);
      LiveIsBlock(s', p);
    }
  }

  lemma ByteArrived(s: Snapshot, s': Snapshot, b: Block, nb: Block, i: nat, v: Byte)
    requires s'.base == s.base && H.StartsWith(s.bytes, s'.bytes, s.base, b, nb) && ByteHeld(s, b, i, v)
    ensures ByteHeld(s', nb, i, v)
  {
    var p, q := H.PayloadOf(s.bytes, s.base, b), H.PayloadOf(s'.bytes, s.base, nb);
    assert p[i] == s.bytes[b.at + HEADER + i - s.base] && q[i] == s'.bytes[nb.at + HEADER + i - s.base];
  }

  lemma PutHolds(s: Snapshot, s': Snapshot, e: Ledger, ptr: U64, i: nat, v: Byte)
    requires Sane(s) && Sane(s') && s'.base == s.base && Holds(s, e)
    requires IsLive(s, ptr) && HEADER + i < BlockOf(s, ptr).size && ByteSet(s, s', ptr + i, v)
    ensures Holds(s', After(e, Put(ptr, i, v), 0))
  {
    hide UsedSet, Linked, IsLive;
    var b, e' := BlockOf(s, ptr), After(e, Put(ptr, i, v), 0);
    assert Held(s, e, b);
    forall c | c in UsedSet(s'.blocks)
      ensures Held(s', e', c)
    {
      InsideHeap(s, c);
      if c.at == b.at {
        OneBlockPerAddress(s, c, b);
      } else {
        var m := e[c.at + HEADER];
        forall j | j in m
          ensures ByteHeld(s', c, j, m[j])
        {
          assert ByteHeld(s, c, j, m[j]);
          BytesApart(s, b, i, c, j);
        }
      }
    }
    forall p | p in e'
      ensures IsLive(s', p)
    {
      LiveIsBlock(s, p);
      LiveIsBlock(s', p);
    }
  }

  lemma InsideHeap(s: Snapshot, b: Block)
    requires Sane(s) && b in UsedSet(s.blocks)
    ensures s.base <= b.at && b.End() <= s.base + |s.bytes|
  {
    hide Linked;
    LinkedTiles(s.bytes, s.base, s.blocks);
    var k :| 0 <= k < |s.blocks| && s.blocks[k] == b;
    TilesWithin(s.blocks, s.base, s.base + |s.bytes|, k);
  }

  lemma BytesApart(s: Snapshot, b: Block, i: nat, c: Block, j: nat)
    requires Sane(s) && b in UsedSet(s.blocks) && c in UsedSet(s.blocks) && b.at != c.at
    requires HEADER + i < b.size && HEADER + j < c.size
    ensures b.at + HEADER + i != c.at + HEADER + j
  {
    hide Linked;
    LinkedTiles(s.bytes, s.base, s.blocks);
    var k :| 0 <= k < |s.blocks| && s.blocks[k] == b;
    var l :| 0 <= l < |s.blocks| && s.blocks[l] == c;
    if b.at + HEADER + i == c.at + HEADER + j {
      PayloadsAreDisjoint(s.blocks, s.base, s.base + |s.bytes|, k, l, b.at + HEADER + i);
    }
  }

  /** Every call keeps what is known. */
  lemma StepHolds(s: Snapshot, e: Ledger, c: Call, r: nat, s': Snapshot)
    requires Step(s, c, r, s') && Holds(s, e)
    ensures Holds(s', After(e, c, r))
  {
    hide Sane, Holds, Same, Gained, Lost, Replaced, ByteSet;
    match c
    case Malloc(_) => GainOrNot(s, e, r, s');
    case Release(ptr) =>
      if ptr == 0 {
        NullIsNotKnown(s, e);
        assert e - {0 as nat} == e;
        SameHolds(s, s', e);
      } else {
        var b: Block :| b.at + HEADER == ptr && Lost(s, s', b);
        LostHolds(s, s', e, b);
      }
    case Resize(ptr, request) =>
      if ptr == 0 {
        GainOrNot(s, e, r, s');
      } else if request == 0 {
        var b: Block :| b.at + HEADER == ptr && Lost(s, s', b);
        LostHolds(s, s', e, b);
      } else if r == 0 || r == ptr {
        SameHolds(s, s', e);
      } else {
        var b: Block, nb: Block :| b.at + HEADER == ptr && nb.at + HEADER == r && Replaced(s, s', b, nb);
        ReplacedHolds(s, s', e, b, nb);
      }
    case Put(ptr, i, v) => PutHolds(s, s', e, ptr, i, v);
  }

  lemma GainOrNot(s: Snapshot, e: Ledger, r: nat, s': Snapshot)
    requires Sane(s) && Sane(s') && s'.base == s.base && Holds(s, e)
    requires if r == 0 then Same(s, s') else GainedAt(s, s', r)
    ensures Holds(s', if r == 0 then e else e[r := map[]])
  {
    hide Sane, Holds, Same, Gained;
    if r == 0 {
      SameHolds(s, s', e);
    } else {
      var nb: Block :| nb.at + HEADER == r && Gained(s, s', nb);
      GainedHolds(s, s', e, nb);
    }
  }

  lemma NullIsNotKnown(s: Snapshot, e: Ledger)
    requires Holds(s, e)
    ensures 0 !in e
  {
  }

  // ---------- whole runs ----------

  ghost predicate IsRun(states: seq<Snapshot>, calls: seq<Call>, results: seq<nat>) {
    && |states| == |calls| + 1 == |results| + 1
    && forall k :: 0 <= k < |calls| ==> Step(states[k], calls[k], results[k], states[k + 1])
  }

  /** What the calls and their results tell of the payloads. */
  function LedgerAfter(e: Ledger, calls: seq<Call>, results: seq<nat>): Ledger
    requires |calls| == |results|
  {
    if calls == [] then e
    else After(LedgerAfter(e, calls[..|calls| - 1], results[..|calls| - 1]), calls[|calls| - 1], results[|calls| - 1])
  }

  /** In every run of allocations, frees, reallocations and stores, every live payload holds what
      was last put there, wherever the block has moved. */
  lemma {:induction false} RunHolds(states: seq<Snapshot>, calls: seq<Call>, results: seq<nat>, e: Ledger)
    requires IsRun(states, calls, results) && Holds(states[0], e)
    ensures Holds(states[|calls|], LedgerAfter(e, calls, results))
    decreases |calls|
  {
    hide Step, Holds, After;
    if calls != [] {
      var n := |calls| - 1;
      RunHolds(states[..n + 1], calls[..n], results[..n], e);
      StepHolds(states[n], LedgerAfter(e, calls[..n], results[..n]), calls[n], results[n], states[n + 1]);
    }
  }

  /** A fresh heap starts with an empty ledger. */
  lemma FreshHeapHolds(s: Snapshot)
    requires UsedSet(s.blocks) == {}
    ensures Holds(s, map[])
  {
  }
}
