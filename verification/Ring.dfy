/** The single-producer single-consumer ring buffer of Core-1, used by one caller at a time. */
module Ring {
  import opened MachineInts

  /** A capacity the ring supports: a power of two below 2^64. */
  ghost predicate IsCapacity(c: nat) {
    exists k: nat :: k < 64 && c == Pow2(k)
  }

  lemma CapacityIsPositive(c: nat)
    requires IsCapacity(c)
    ensures c > 0
  {
  }

  /** Where byte j of a transfer that starts at counter c lies: the masked position, or its
      distance past the end of the buffer when the copy is made in two parts. */
  function Slot(c: U64, capacity: nat, j: nat): int
    requires capacity > 0
  {
    var pos := BitAnd(c, capacity - 1);
    var firstPart := capacity - pos;
    if j < firstPart then pos + j else j - firstPart
  }

  lemma {:induction false} Pow2Sum(a: nat, b: nat)
    ensures Pow2(a + b) == Pow2(a) * Pow2(b)
  {
    hide Pow2;
    if a > 0 {
      Pow2Sum(a - 1, b);
      Pow2Step(a);
      Pow2Step(a + b);
      DoubleProduct(Pow2(a - 1), Pow2(b));
    } else {
      assert Pow2(0) == 1 by { Pow2Zero(); }
    }
  }

  lemma Pow2Zero()
    ensures Pow2(0) == 1
  {
  }

  lemma Pow2Step(a: nat)
    requires a > 0
    ensures Pow2(a) == 2 * Pow2(a - 1)
  {
  }

  lemma DoubleProduct(x: nat, y: nat)
    ensures 2 * (x * y) == (2 * x) * y
  {
  }

  /** Reduction modulo 2^64 does not disturb positions in the buffer. */
  lemma WrapKeepsPosition(x: nat, j: nat, c: nat)
    requires IsCapacity(c)
    ensures c > 0 && (Wrap(x) + j) % c == (x + j) % c
  {
    hide Pow2, Wrap;
    var k: nat :| k < 64 && c == Pow2(k);
    Pow2Sum(64 - k, k);
    Pow2Values();
    WrapIsMultiple(x);
    MultipleOfBoth(x / TWO_64, Pow2(64 - k), c);
    DivShift(x + j, x / TWO_64 * Pow2(64 - k), c, Wrap(x) + j);
  }

  lemma WrapIsMultiple(x: nat)
    ensures x == x / TWO_64 * TWO_64 + Wrap(x)
  {
  }

  lemma MultipleOfBoth(q: nat, m: nat, c: nat)
    ensures q * (m * c) == (q * m) * c
  {
  }

  lemma PositionAhead(c: nat, capacity: nat, j: nat)
    requires j < capacity
    ensures (c + j) % capacity == if c % capacity + j < capacity then c % capacity + j else c % capacity + j - capacity
  {
    var q, pos := c / capacity, c % capacity;
    assert c == q * capacity + pos;
    if pos + j < capacity {
      ModIs(c + j, capacity, q, pos + j);
    } else {
      assert (q + 1) * capacity == q * capacity + capacity;
      ModIs(c + j, capacity, q + 1, pos + j - capacity);
    }
  }

  /** Byte j of a transfer from counter c goes to position c + j modulo the capacity. */
  lemma SlotIs(c: U64, capacity: nat, j: nat)
    requires IsCapacity(capacity) && j < capacity
    ensures Slot(c, capacity, j) == (c + j) % capacity && 0 <= Slot(c, capacity, j) < capacity
  {
    hide Pow2, BitAnd;
    var k: nat :| k < 64 && capacity == Pow2(k);
    AndLowMask(c, k);
    PositionAhead(c, capacity, j);
  }

  /** Counters less than a capacity apart have different positions. */
  lemma PositionsDiffer(x: nat, y: nat, c: nat)
    requires c > 0 && x < y < x + c
    ensures x % c != y % c
  {
    if x % c == y % c {
      var d := y / c - x / c;
      assert d * c == y - x;
      if d >= 1 {
        AtLeast(d, c);
      }
    }
  }

  /** The n bytes from counter t on. */
  ghost function Stored(data: seq<Byte>, t: nat, n: nat): (s: seq<Byte>)
    requires |data| > 0
    ensures |s| == n && forall i :: 0 <= i < n ==> s[i] == ByteAt(data, t + i)
  {
    if n == 0 then [] else Stored(data, t, n - 1) + [ByteAt(data, t + n - 1)]
  }

  /** The byte that counter x points at. */
  ghost function ByteAt(data: seq<Byte>, x: int): Byte
    requires |data| > 0
  {
    data[x % |data|]
  }

  /** `data'` is `data` after a transfer of `bytes` at counter h. */
  ghost predicate Transferred(data: seq<Byte>, data': seq<Byte>, h: U64, bytes: seq<Byte>) {
    && |data'| == |data| > 0
    && (forall j :: 0 <= j < |bytes| ==> 0 <= Slot(h, |data|, j) < |data| && data'[Slot(h, |data|, j)] == bytes[j])
    && forall x :: 0 <= x < |data| && (forall j :: 0 <= j < |bytes| ==> Slot(h, |data|, j) != x) ==> data'[x] == data[x]
  }

  /** A transfer at the head appends: it fits, and it spares the stored bytes. */
  lemma TransferAppends(data: seq<Byte>, data': seq<Byte>, head: U64, tail: U64, bytes: seq<Byte>)
    requires |data| > 0 && IsCapacity(|data|) && Transferred(data, data', head, bytes)
    requires Wrap(head - tail) + |bytes| <= |data|
    ensures Stored(data', tail, Wrap(head - tail) + |bytes|) == Stored(data, tail, Wrap(head - tail)) + bytes
  {
    hide IsCapacity, Slot, Wrap;
    var n := Wrap(head - tail);
    var s := Stored(data', tail, n + |bytes|);
    forall i | 0 <= i < |s|
      ensures s[i] == (Stored(data, tail, n) + bytes)[i]
    {
      if i < n {
        NotOverwritten(head, tail, |data|, |bytes|, i);
      } else {
        SlotIs(head, |data|, i - n);
        CounterIs(head, tail, |data|, i - n);
      }
    }
  }

  /** `out` holds what a transfer from counter t reads. */
  ghost predicate Received(data: seq<Byte>, out: seq<Byte>, t: U64) {
    && |data| > 0
    && forall j :: 0 <= j < |out| ==> 0 <= Slot(t, |data|, j) < |data| && out[j] == data[Slot(t, |data|, j)]
  }

  lemma ReceivedIsOldest(data: seq<Byte>, out: seq<Byte>, tail: U64, n: nat)
    requires Received(data, out, tail) && IsCapacity(|data|) && |out| <= n <= |data|
    ensures out == Stored(data, tail, n)[..|out|]
  {
    hide IsCapacity, Slot;
    forall j | 0 <= j < |out|
      ensures out[j] == Stored(data, tail, n)[j]
    {
      SlotIs(tail, |data|, j);
    }
  }

  lemma AdvanceDrops(data: seq<Byte>, tail: U64, n: nat, size: nat)
    requires |data| > 0 && IsCapacity(|data|) && size <= n
    ensures Stored(data, Wrap(tail + size), n - size) == Stored(data, tail, n)[size..]
  {
    hide IsCapacity, Wrap, ByteAt;
    var s, s' := Stored(data, tail, n), Stored(data, Wrap(tail + size), n - size);
    forall i | 0 <= i < |s'|
      ensures s'[i] == s[size + i]
    {
      SameByte(data, tail + size, i);
    }
  }

  lemma SameByte(data: seq<Byte>, t: nat, i: nat)
    requires |data| > 0 && IsCapacity(|data|)
    ensures ByteAt(data, Wrap(t) + i) == ByteAt(data, t + i)
  {
    WrapKeepsPosition(t, i, |data|);
  }

  class RingBuffer {
    const capacity: U64
    const mask: U64
    const data: array<Byte>
    var head: U64
    var tail: U64

    ghost predicate Valid()
      reads this
    {
      && IsCapacity(capacity) && mask == capacity - 1 && data.Length == capacity
      && Wrap(head - tail) <= capacity
    }

    /** The bytes stored, oldest first. */
    ghost function Contents(): (s: seq<Byte>)
      requires Valid()
      reads this, data
      ensures |s| == Wrap(head - tail)
    {
      Stored(data[..], tail, Wrap(head - tail))
    }

    constructor (capacity: U64, start: U64)
      requires IsCapacity(capacity)
      ensures Valid() && this.capacity == capacity && head == start && Contents() == []
      ensures fresh(data)
    {
      hide IsCapacity, Stored;
      CapacityIsPositive(capacity);
      this.capacity, mask := capacity, capacity - 1;
      data := new Byte[capacity](_ => 0);
      head, tail := start, start;
    }

    /** Bytes that can still be written. */
    method Available() returns (n: U64)
      requires Valid()
      ensures n == capacity - |Contents()|
    {
      hide IsCapacity, Stored, Wrap;
      RoomFits(capacity, Wrap(head - tail));
      n := Wrap(capacity - Wrap(head - tail));
    }

    /** Bytes that can be read. */
    method Used() returns (n: U64)
      requires Valid()
      ensures n == |Contents()| && n <= capacity
    {
      n := Wrap(head - tail);
    }

    /** Appends all of `bytes`, or nothing. */
    method Write(bytes: seq<Byte>) returns (r: int)
      requires Valid() && |bytes| < TWO_64
      modifies this`head, data
      ensures Valid()
      ensures r == if |bytes| == 0 then -1 else if |bytes| > capacity - |old(Contents())| then -2 else 0
      ensures r != 0 ==> head == old(head) && data[..] == old(data[..])
      ensures r == 0 ==> head == Wrap(old(head) + |bytes|) && Contents() == old(Contents()) + bytes
    {
      hide IsCapacity, Slot, Stored, Transferred;
      var size := |bytes|;
      if size == 0 {
        return -1;
      }
      var available := Wrap(capacity - Wrap(head - tail));
      if size > available {
        return -2;
      }
      CopyIn(bytes);
      TransferAppends(old(data[..]), data[..], head, tail, bytes);
      Lengths(head, tail, size);
      head := Wrap(head + size);
      r := 0;
    }

    /** The copy into the buffer, in one part or two. */
    method CopyIn(bytes: seq<Byte>)
      requires Valid() && |bytes| <= capacity
      modifies data
      ensures Transferred(old(data[..]), data[..], head, bytes)
    {
      hide IsCapacity, BitAnd;
      var pos := BitAnd(head, mask);
      assert 0 <= Slot(head, capacity, 0) < capacity && pos == Slot(head, capacity, 0) by { SlotIs(head, capacity, 0); }
      var firstPart := capacity - pos;
      if |bytes| <= firstPart {
        MemCopy(pos, bytes);
      } else {
        MemCopy(pos, bytes[..firstPart]);
        MemCopy(0, bytes[firstPart..]);
      }
      forall x | 0 <= x < capacity && (forall j :: 0 <= j < |bytes| ==> Slot(head, capacity, j) != x)
        ensures data[x] == old(data[x])
      {
        var j := if x >= pos then x - pos else x + firstPart;
        assert Slot(head, capacity, j) == x;
      }
    }

    method MemCopy(at: nat, bytes: seq<Byte>)
      requires at + |bytes| <= data.Length
      modifies data
      ensures forall x :: 0 <= x < data.Length ==>
        data[x] == if at <= x < at + |bytes| then bytes[x - at] else old(data[x])
    {
      var i := 0;
      while i < |bytes|
        invariant 0 <= i <= |bytes|
        invariant forall x :: 0 <= x < data.Length ==>
          data[x] == if at <= x < at + i then bytes[x - at] else old(data[x])
      {
        data[at + i] := bytes[i];
        i := i + 1;
      }
    }

    /** Removes the oldest `size` bytes into `out`, or nothing. */
    method Read(out: array<Byte>, size: U64) returns (r: int)
      requires Valid() && size <= out.Length && out != data
      modifies this`tail, out
      ensures Valid()
      ensures r == if size == 0 then -1 else if size > |old(Contents())| then -2 else 0
      ensures r != 0 ==> tail == old(tail) && out[..] == old(out[..])
      ensures r == 0 ==> tail == Wrap(old(tail) + size)
      ensures r == 0 ==> out[..size] == old(Contents())[..size] && out[size..] == old(out[size..])
      ensures r == 0 ==> Contents() == old(Contents())[size..]
    {
      hide IsCapacity, Slot, Wrap, Received, Stored;
      if size == 0 {
        return -1;
      }
      var used := Wrap(head - tail);
      if size > used {
        return -2;
      }
      CopyOut(out, size);
      ReceivedIsOldest(data[..], out[..size], tail, used);
      AdvanceDrops(data[..], tail, used, size);
      LengthsAfterRead(head, tail, size);
      tail := Wrap(tail + size);
      r := 0;
    }

    /** The copy out of the buffer, in one part or two. */
    method CopyOut(out: array<Byte>, size: nat)
      requires Valid() && size <= out.Length && size <= capacity && out != data
      modifies out
      ensures Received(data[..], out[..size], tail) && out[size..] == old(out[size..])
    {
      hide IsCapacity, BitAnd;
      var pos := BitAnd(tail, mask);
      assert 0 <= Slot(tail, capacity, 0) < capacity && pos == Slot(tail, capacity, 0) by { SlotIs(tail, capacity, 0); }
      var firstPart := capacity - pos;
      if size <= firstPart {
        MemCopyTo(out, 0, pos, size);
      } else {
        MemCopyTo(out, 0, pos, firstPart);
        MemCopyTo(out, firstPart, 0, size - firstPart);
      }
    }

    method MemCopyTo(out: array<Byte>, to: nat, from: nat, n: nat)
      requires to + n <= out.Length && from + n <= data.Length && out != data
      modifies out
      ensures forall j :: 0 <= j < out.Length ==>
        out[j] == if to <= j < to + n then data[from + j - to] else old(out[j])
    {
      var i := 0;
      while i < n
        invariant 0 <= i <= n
        invariant forall j :: 0 <= j < out.Length ==>
          out[j] == if to <= j < to + i then data[from + j - to] else old(out[j])
      {
        out[to + i] := data[from + i];
        i := i + 1;
      }
    }
  }

  lemma RoomFits(capacity: U64, used: U64)
    requires used <= capacity
    ensures Wrap(capacity - used) == capacity - used
  {
  }

  /** The distance between the counters grows by what was written. */
  lemma Lengths(head: U64, tail: U64, size: nat)
    requires Wrap(head - tail) + size < TWO_64
    ensures Wrap(Wrap(head + size) - tail) == Wrap(head - tail) + size
  {
  }

  lemma LengthsAfterRead(head: U64, tail: U64, size: nat)
    requires size <= Wrap(head - tail)
    ensures Wrap(head - Wrap(tail + size)) == Wrap(head - tail) - size
  {
  }

  /** The head position is as far beyond the tail as there are bytes stored. */
  lemma CounterIs(head: U64, tail: U64, capacity: nat, j: nat)
    requires IsCapacity(capacity)
    ensures capacity > 0 && (head + j) % capacity == (tail + Wrap(head - tail) + j) % capacity
  {
    hide IsCapacity, Wrap;
    WrapKeepsPosition(tail + Wrap(head - tail), j, capacity);
    HeadIsTailPlusUsed(head, tail);
  }

  lemma HeadIsTailPlusUsed(head: U64, tail: U64)
    ensures Wrap(tail + Wrap(head - tail)) == head
  {
  }

  /** A write never lands on a stored byte. */
  lemma NotOverwritten(head: U64, tail: U64, capacity: nat, size: nat, i: nat)
    requires IsCapacity(capacity) && i < Wrap(head - tail) && Wrap(head - tail) + size <= capacity
    ensures forall j :: 0 <= j < size ==> Slot(head, capacity, j) != (tail + i) % capacity
  {
    hide IsCapacity, Slot, Wrap;
    forall j | 0 <= j < size
      ensures Slot(head, capacity, j) != (tail + i) % capacity
    {
      SlotIs(head, capacity, j);
      CounterIs(head, tail, capacity, j);
      PositionsDiffer(tail + i, tail + Wrap(head - tail) + j, capacity);
    }
  }
}
