/** The physical frame table of Core-0 and its contiguous first-fit scan. */
module Frames {
  import opened MachineInts

  const PAGE_SIZE: nat := 4096
  const MAX_PAGES: nat := 131072

  datatype MemType = Reserved | Available | Kernel | Service | Application | Device | Custom

  datatype Frame = Frame(kind: MemType, owner: U64)

  datatype Option<+T> = None | Some(value: T)

  /** The round-up division of the source, with its 64-bit wrap-around. */
  function PagesFor(size: U64): (n: nat)
    ensures n < TWO_64
  {
    Wrap(size + PAGE_SIZE - 1) / PAGE_SIZE
  }

  /** The fewest pages that hold `size` bytes, except within a page of 2^64, where the sum wraps. */
  lemma PagesForIs(size: U64, n: nat)
    ensures size <= TWO_64 - PAGE_SIZE ==> (size <= n * PAGE_SIZE <==> PagesFor(size) <= n)
    ensures size > TWO_64 - PAGE_SIZE ==> PagesFor(size) == 0
  {
    if size > TWO_64 - PAGE_SIZE {
      ModIs(size + PAGE_SIZE - 1, TWO_64, 1, size + PAGE_SIZE - 1 - TWO_64);
    }
  }

  function Max(a: nat, b: nat): nat {
    if a < b then b else a
  }

  /** Every frame of [lo, hi) is available. */
  ghost predicate AllFree(fs: seq<Frame>, lo: nat, hi: nat) {
    hi <= |fs| && forall k :: lo <= k < hi ==> fs[k].kind.Available?
  }

  /** `s` starts a maximal stretch of available frames. */
  ghost predicate RunStart(fs: seq<Frame>, s: nat) {
    s <= |fs| && (s == 0 || !fs[s - 1].kind.Available?)
  }

  /** The positions at which the scan starts counting: it restarts at the beginning of
      a stretch, and n frames further each time it rejects a candidate for alignment. */
  ghost predicate ScanStart(fs: seq<Frame>, n: nat, s: nat)
    requires n > 0
    decreases s
  {
    RunStart(fs, s) || (s >= n && AllFree(fs, s - n, s) && ScanStart(fs, n, s - n))
  }

  /** The scan stops at `s`: a start it reaches, long enough, and aligned. */
  ghost predicate Candidate(fs: seq<Frame>, n: nat, align: nat, s: nat)
    requires n > 0 && align > 0
  {
    ScanStart(fs, n, s) && AllFree(fs, s, s + n) && s % align == 0
  }

  /** n frames from `s` on, all available and aligned: what a caller asks for. */
  ghost predicate Fit(fs: seq<Frame>, n: nat, align: nat, s: nat)
    requires align > 0
  {
    AllFree(fs, s, s + n) && s % align == 0
  }

  /** The frames [s, s + n) handed to `frame`'s owner. */
  function Mark(fs: seq<Frame>, s: nat, n: nat, frame: Frame): (r: seq<Frame>)
    requires s + n <= |fs|
    ensures |r| == |fs|
    ensures forall k :: 0 <= k < |fs| ==> r[k] == if s <= k < s + n then frame else fs[k]
  {
    seq(|fs|, k requires 0 <= k < |fs| => if s <= k < s + n then frame else fs[k])
  }

  /** Two starting positions inside one stretch are at least n apart. */
  lemma {:induction false} StartsAreApart(fs: seq<Frame>, n: nat, s: nat, c: nat)
    requires n > 0 && s < c && AllFree(fs, s, c)
    requires ScanStart(fs, n, s) && ScanStart(fs, n, c)
    ensures s + n <= c
    decreases c
  {
    if c < s + n {
      assert fs[c - 1].kind.Available?;
      StartsAreApart(fs, n, c - n, s);
    }
  }

  /** A starting position lies a whole number of n-frame steps into its stretch. */
  lemma {:induction false} ScanStartMeaning(fs: seq<Frame>, n: nat, s: nat)
    requires n > 0
    ensures ScanStart(fs, n, s) <==> exists a: nat, k: nat :: IsStep(fs, n, a, k, s)
    decreases s
  {
    if ScanStart(fs, n, s) {
      if RunStart(fs, s) {
        assert IsStep(fs, n, s, 0, s);
      } else {
        ScanStartMeaning(fs, n, s - n);
        var a: nat, k: nat :| IsStep(fs, n, a, k, s - n);
        assert (k + 1) * n == k * n + n;
        assert IsStep(fs, n, a, k + 1, s);
      }
    }
    if a: nat, k: nat :| IsStep(fs, n, a, k, s) {
      if k > 0 {
        assert k * n == (k - 1) * n + n;
        StepBack(k - 1, n);
        assert IsStep(fs, n, a, k - 1, s - n);
        ScanStartMeaning(fs, n, s - n);
      }
    }
  }

  ghost predicate IsStep(fs: seq<Frame>, n: nat, a: nat, k: nat, s: nat) {
    s == a + k * n && RunStart(fs, a) && AllFree(fs, a, s)
  }

  lemma StepBack(k: nat, n: nat)
    ensures k * n >= 0
  {
  }

  /** Without an alignment demand the lowest fit is a candidate, so the scan finds the
      lowest fit and fails exactly when there is none. */
  lemma LowestFitIsCandidate(fs: seq<Frame>, n: nat, s: nat)
    requires n > 0 && Fit(fs, n, 1, s)
    requires forall t: nat :: t < s ==> !Fit(fs, n, 1, t)
    ensures Candidate(fs, n, 1, s)
    ensures forall t: nat :: t < s ==> !Candidate(fs, n, 1, t)
  {
    if s > 0 && fs[s - 1].kind.Available? {
      assert Fit(fs, n, 1, s - 1);
    }
    forall t: nat | t < s
      ensures !Candidate(fs, n, 1, t)
    {
      assert !Fit(fs, n, 1, t);
    }
  }

  lemma {:induction false} LowestFit(fs: seq<Frame>, n: nat, s: nat) returns (low: nat)
    requires n > 0 && Fit(fs, n, 1, s)
    ensures low <= s && Fit(fs, n, 1, low) && Candidate(fs, n, 1, low)
    ensures forall t: nat :: t < low ==> !Fit(fs, n, 1, t) && !Candidate(fs, n, 1, t)
    decreases s
  {
    if t: nat :| t < s && Fit(fs, n, 1, t) {
      low := LowestFit(fs, n, t);
    } else {
      low := s;
      LowestFitIsCandidate(fs, n, s);
    }
  }

  /** With a coarser alignment the scan can miss a fit: frames 1, 2, 3 are available, an
      aligned pair starts at 2, but the scan only tries 1 and then 3. */
  lemma AlignedFitCanBeMissed()
    ensures var fs := [Frame(Reserved, 0), Frame(Available, 0), Frame(Available, 0), Frame(Available, 0)];
            Fit(fs, 2, 2, 2) && forall s: nat :: !Candidate(fs, 2, 2, s)
  {
    var fs := [Frame(Reserved, 0), Frame(Available, 0), Frame(Available, 0), Frame(Available, 0)];
    assert !ScanStart(fs, 2, 2) by {
      assert !RunStart(fs, 2);
      assert !fs[0].kind.Available?;
    }
    forall s: nat
      ensures !Candidate(fs, 2, 2, s)
    {
      if s == 0 {
        assert !fs[0].kind.Available?;
      } else if s > 2 {
        assert !AllFree(fs, s, s + 2);
      }
    }
  }

  /** In this frame table, the scan stops somewhere whenever an aligned fit exists. */
  ghost predicate NoFitMissed(fs: seq<Frame>, n: nat, align: nat)
    requires n > 0 && align > 0
  {
    (exists s: nat :: Fit(fs, n, align, s)) ==> exists s: nat :: Candidate(fs, n, align, s)
  }

  /** No table of the size the machine can have makes the scan miss a fit, exactly for requests
      of one page, without an alignment demand, or too long for any aligned start but frame 0. */
  lemma ScanCompleteIff(n: nat, align: nat)
    requires n > 0 && align > 0
    ensures (forall fs :: |fs| <= MAX_PAGES ==> NoFitMissed(fs, n, align))
            <==> n == 1 || align == 1 || align + n > MAX_PAGES
  {
    if n == 1 || align == 1 || align + n > MAX_PAGES {
      forall fs | |fs| <= MAX_PAGES
        ensures NoFitMissed(fs, n, align)
      {
        if s: nat :| Fit(fs, n, align, s) {
          FitIsFound(fs, n, align, s);
        }
      }
    } else {
      var fs := MissedFit(n, align);
      assert !NoFitMissed(fs, n, align);
    }
  }

  lemma FitIsFound(fs: seq<Frame>, n: nat, align: nat, s: nat)
    requires n > 0 && align > 0 && |fs| <= MAX_PAGES && Fit(fs, n, align, s)
    requires n == 1 || align == 1 || align + n > MAX_PAGES
    ensures exists c: nat :: Candidate(fs, n, align, c)
  {
    if align == 1 {
      var low := LowestFit(fs, n, s);
    } else if n == 1 {
      EveryFreePageIsAStart(fs, s);
      assert Candidate(fs, n, align, s);
    } else {
      if s != 0 {
        MultipleIsAtLeast(s, align);
      }
      assert Candidate(fs, n, align, 0);
    }
  }

  lemma MultipleIsAtLeast(s: nat, align: nat)
    requires s > 0 && align > 0 && s % align == 0
    ensures s >= align
  {
    if s < align {
      ModIs(s, align, 0, s);
    }
  }

  lemma {:induction false} EveryFreePageIsAStart(fs: seq<Frame>, s: nat)
    requires s <= |fs|
    ensures ScanStart(fs, 1, s)
    decreases s
  {
    if !RunStart(fs, s) {
      EveryFreePageIsAStart(fs, s - 1);
    }
  }

  /** For one page without alignment demand, the scan stops at the lowest available frame. */
  lemma OnePageIsLowest(fs: seq<Frame>, s: nat)
    requires Candidate(fs, 1, 1, s) && forall t: nat :: t < s ==> !Candidate(fs, 1, 1, t)
    ensures s < |fs| && fs[s].kind.Available? && forall k :: 0 <= k < s ==> !fs[k].kind.Available?
  {
    forall k | 0 <= k < s
      ensures !fs[k].kind.Available?
    {
      EveryFreePageIsAStart(fs, k);
      assert !Candidate(fs, 1, 1, k);
    }
  }

  /** A single stretch that begins one or two frames in, so that n-frame steps skip `align`. */
  lemma MissedFit(n: nat, align: nat) returns (fs: seq<Frame>)
    requires n > 1 && align > 1
    ensures |fs| == align + n && Fit(fs, n, align, align)
    ensures forall s: nat :: !Candidate(fs, n, align, s)
  {
    var a := if (align - 1) % n != 0 then 1 else 2;
    fs := seq(align + n, k => if k < a then Frame(Reserved, 0) else Frame(Available, 0));
    ModIsOne(n);
    ModIs(align, align, 1, 0);
    assert Fit(fs, n, align, align);
    forall s: nat
      ensures !Candidate(fs, n, align, s)
    {
      if Candidate(fs, n, align, s) {
        assert fs[s].kind.Available?;
        if s != align {
          ModIs(s, align, 0, s);
        }
        ScanStartMeaning(fs, n, align);
        var b: nat, k: nat :| IsStep(fs, n, b, k, align);
        OneStretch(fs, a, b, align);
        NotAStep(n, align, a, k);
      }
    }
  }

  lemma OneStretch(fs: seq<Frame>, a: nat, b: nat, e: nat)
    requires a < e <= |fs| && b <= e
    requires forall k :: 0 <= k < |fs| ==> (fs[k].kind.Available? <==> a <= k)
    requires RunStart(fs, b) && AllFree(fs, b, e)
    ensures b == a
  {
    if b < e {
      assert fs[b].kind.Available?;
    }
  }

  lemma ModIsOne(n: nat)
    requires n > 1
    ensures 1 % n == 1
  {
    ModIs(1, n, 0, 1);
  }

  lemma NotAStep(n: nat, align: nat, a: nat, k: nat)
    requires n > 1 && align > 1
    requires a == if (align - 1) % n != 0 then 1 else 2
    ensures align != a + k * n
  {
    if align == a + k * n {
      if a == 1 {
        ModIs(align - 1, n, k, 0);
      } else {
        ModIs(align - 1, n, k, 1);
      }
    }
  }

  // ---------- the scan, one frame at a time ----------

  ghost predicate NoCandidateEndsBy(fs: seq<Frame>, n: nat, align: nat, i: nat)
    requires n > 0 && align > 0
  {
    forall s: nat :: s + n <= i ==> !Candidate(fs, n, align, s)
  }

  /** The scan has looked at i frames, the last `found` of which are being counted. */
  ghost predicate Scanned(fs: seq<Frame>, n: nat, align: nat, found: nat, i: nat)
    requires n > 0 && align > 0
  {
    && found < n && found <= i <= |fs|
    && ScanStart(fs, n, i - found) && AllFree(fs, i - found, i) && NoCandidateEndsBy(fs, n, align, i)
  }

  lemma ScanStep(fs: seq<Frame>, n: nat, align: nat, found: nat, i: nat)
    requires n > 0 && align > 0 && Scanned(fs, n, align, found, i) && i < |fs|
    ensures !fs[i].kind.Available? ==> Scanned(fs, n, align, 0, i + 1)
    ensures fs[i].kind.Available? && found + 1 < n ==> Scanned(fs, n, align, found + 1, i + 1)
    ensures fs[i].kind.Available? && found + 1 == n && (i - found) % align != 0 ==> Scanned(fs, n, align, 0, i + 1)
    ensures fs[i].kind.Available? && found + 1 == n && (i - found) % align == 0 ==>
              Candidate(fs, n, align, i - found) && NoCandidateEndsBy(fs, n, align, i)
  {
    var c := i - found;
    forall s: nat | s + n == i + 1 && s != c && Candidate(fs, n, align, s)
      ensures false
    {
      StartsAreApart(fs, n, s, c);
    }
  }

  lemma CandidatesFit(fs: seq<Frame>, n: nat, align: nat)
    requires n > 0 && align > 0 && NoCandidateEndsBy(fs, n, align, |fs|)
    ensures forall s: nat :: !Candidate(fs, n, align, s)
  {
  }

  class FrameAllocator {
    const frames: array<Frame>
    var totalPages: nat
    var availablePages: U64
    var allocatedPages: U64

    ghost predicate Valid()
      reads this
    {
      frames.Length == MAX_PAGES && totalPages <= MAX_PAGES
    }

    /** The frames the machine has. */
    ghost function Table(): (fs: seq<Frame>)
      requires Valid()
      reads this, frames
      ensures |fs| == totalPages
    {
      frames[..totalPages]
    }

    constructor (totalMemory: U64)
      requires totalMemory / PAGE_SIZE <= MAX_PAGES
      ensures Valid() && fresh(frames)
      ensures |Table()| == totalMemory / PAGE_SIZE
      ensures forall k :: 0 <= k < |Table()| ==> Table()[k] == Frame(Reserved, 0)
      ensures availablePages == totalMemory / PAGE_SIZE && allocatedPages == 0
    {
      frames := new Frame[MAX_PAGES](_ => Frame(Reserved, 0));
      totalPages := totalMemory / PAGE_SIZE;
      availablePages, allocatedPages := totalMemory / PAGE_SIZE, 0;
    }

    /** Allocation by one left-to-right scan. `found` says where the scan stopped, which the
        address alone does not: 0 is both frame 0 and failure. A page count of 0 (size 0, or a
        size that wraps) takes no frame but still needs one available aligned frame. */
    method Alloc(size: U64, align: U64, kind: MemType, owner: U64) returns (addr: U64, ghost found: Option<nat>)
      requires Valid() && PagesFor(align) > 0
      modifies this`availablePages, this`allocatedPages, frames
      ensures Valid()
      ensures found.None? ==>
        && addr == 0 && Table() == old(Table())
        && availablePages == old(availablePages) && allocatedPages == old(allocatedPages)
        && forall s: nat :: !Candidate(old(Table()), Max(PagesFor(size), 1), PagesFor(align), s)
      ensures found.Some? ==>
        && Candidate(old(Table()), Max(PagesFor(size), 1), PagesFor(align), found.value)
        && (forall s: nat :: s < found.value ==>
             !Candidate(old(Table()), Max(PagesFor(size), 1), PagesFor(align), s))
        && addr == found.value * PAGE_SIZE
        && Table() == Mark(old(Table()), found.value, PagesFor(size), Frame(kind, owner))
        && availablePages == Wrap(old(availablePages) - PagesFor(size))
        && allocatedPages == Wrap(old(allocatedPages) + PagesFor(size))
    {
      var pagesNeeded := PagesFor(size);
      var alignPages := PagesFor(align);
      var startPage, foundPages := 0, 0;
      found := None;
      ghost var fs, n := Table(), Max(pagesNeeded, 1);
      var i := 0;
      while i < totalPages
        invariant Scanned(fs, n, alignPages, foundPages, i)
        invariant foundPages > 0 ==> startPage == i - foundPages
        invariant frames[..] == old(frames[..])
        invariant availablePages == old(availablePages) && allocatedPages == old(allocatedPages)
      {
        hide ScanStart, Candidate, AllFree;
        assert frames[i] == fs[i];
        ScanStep(fs, n, alignPages, foundPages, i);
        if frames[i].kind.Available? {
          if foundPages == 0 {
            startPage := i;
          }
          foundPages := foundPages + 1;
          if foundPages >= pagesNeeded {
            if startPage % alignPages == 0 {
              found := Some(startPage);
              MarkLoop(startPage, pagesNeeded, Frame(kind, owner));
              availablePages := Wrap(availablePages - pagesNeeded);
              allocatedPages := Wrap(allocatedPages + pagesNeeded);
              return startPage * PAGE_SIZE, found;
            } else {
              foundPages := 0;
            }
          }
        } else {
          foundPages := 0;
        }
        i := i + 1;
      }
      CandidatesFit(fs, n, alignPages);
      addr := 0;
    }

    /** The inner loop that writes the frame records. */
    method MarkLoop(s: nat, n: nat, frame: Frame)
      requires Valid() && s + n <= totalPages
      modifies frames
      ensures Table() == Mark(old(Table()), s, n, frame)
    {
      var j := s;
      while j < s + n
        invariant s <= j <= s + n
        invariant forall k :: 0 <= k < frames.Length ==>
          frames[k] == if s <= k < j then frame else old(frames[k])
      {
        frames[j] := frame;
        j := j + 1;
      }
    }

    /** Releases the one frame at `addr`, however many were allocated together. */
    method Free(addr: U64) returns (r: int)
      requires Valid()
      modifies this`availablePages, this`allocatedPages, frames
      ensures Valid()
      ensures r == if addr / PAGE_SIZE < totalPages then 0 else -1
      ensures r == 0 ==>
        && Table() == old(Table())[addr / PAGE_SIZE := Frame(Available, 0)]
        && availablePages == Wrap(old(availablePages) + 1) && allocatedPages == Wrap(old(allocatedPages) - 1)
      ensures r != 0 ==>
        Table() == old(Table()) && availablePages == old(availablePages) && allocatedPages == old(allocatedPages)
    {
      var page := addr / PAGE_SIZE;
      if page >= totalPages {
        return -1;
      }
      frames[page] := Frame(Available, 0);
      availablePages := Wrap(availablePages + 1);
      allocatedPages := Wrap(allocatedPages - 1);
      r := 0;
    }
  }
}
