/** The ring buffer shared by one writer and one reader, step by step under sequential
    consistency: each step is one access to the counters or to one data byte. */
module RingSteps {
  import opened MachineInts
  import opened Ring

  /** Where the writer is in `ipc_ring_write`: outside, or with j bytes of msg copied. */
  datatype Writer = Idle | Copying(msg: seq<Byte>, j: nat)

  /** Where the reader is in `ipc_ring_read`: outside, or with `out` of n bytes copied. */
  datatype Reader = Waiting | Fetching(n: nat, out: seq<Byte>)

  /** `written` and `read` are the bytes of all completed calls. Both counters started at `start`. */
  datatype State = State(start: U64, head: U64, tail: U64, data: seq<Byte>, w: Writer, r: Reader,
                         written: seq<Byte>, read: seq<Byte>)

  ghost predicate Init(s: State) {
    && IsCapacity(|s.data|) && s.head == s.start && s.tail == s.start
    && s.w == Idle && s.r == Waiting && s.written == [] && s.read == []
  }

  // ---------- steps ----------

  /** The writer loads the reader's counter and finds room for msg. */
  ghost predicate BeginWrite(s: State, s': State, msg: seq<Byte>) {
    && s.w == Idle && 0 < |msg| <= Wrap(|s.data| - Wrap(s.head - s.tail))
    && s' == s.(w := Copying(msg, 0))
  }

  ghost predicate CopyByteIn(s: State, s': State) {
    && s.w.Copying? && s.w.j < |s.w.msg| && |s.data| > 0
    && var slot := Slot(s.head, |s.data|, s.w.j);
       0 <= slot < |s.data| && s' == s.(data := s.data[slot := s.w.msg[s.w.j]], w := Copying(s.w.msg, s.w.j + 1))
  }

  ghost predicate PublishWrite(s: State, s': State) {
    && s.w.Copying? && s.w.j == |s.w.msg|
    && s' == s.(head := Wrap(s.head + |s.w.msg|), w := Idle, written := s.written + s.w.msg)
  }

  /** The reader loads the writer's counter and finds n bytes. */
  ghost predicate BeginRead(s: State, s': State, n: nat) {
    s.r == Waiting && 0 < n <= Wrap(s.head - s.tail) && s' == s.(r := Fetching(n, []))
  }

  ghost predicate CopyByteOut(s: State, s': State) {
    && s.r.Fetching? && |s.r.out| < s.r.n && |s.data| > 0
    && var slot := Slot(s.tail, |s.data|, |s.r.out|);
       0 <= slot < |s.data| && s' == s.(r := Fetching(s.r.n, s.r.out + [s.data[slot]]))
  }

  ghost predicate PublishRead(s: State, s': State) {
    && s.r.Fetching? && |s.r.out| == s.r.n
    && s' == s.(tail := Wrap(s.tail + s.r.n), r := Waiting, read := s.read + s.r.out)
  }

  /** One step of either side; a call that finds too little room or data changes nothing. */
  ghost predicate Next(s: State, s': State) {
    || s' == s
    || (exists msg :: BeginWrite(s, s', msg)) || CopyByteIn(s, s') || PublishWrite(s, s')
    || (exists n :: BeginRead(s, s', n)) || CopyByteOut(s, s') || PublishRead(s, s')
  }

  ghost predicate Execution(states: seq<State>) {
    && |states| > 0 && Init(states[0])
    && forall i :: 0 < i < |states| ==> Next(states[i - 1], states[i])
  }

  // ---------- invariant ----------

  /** The buffer byte for position i of the whole stream. */
  ghost function StreamByte(s: State, i: nat): Byte
    requires |s.data| > 0
  {
    ByteAt(s.data, s.start + i)
  }

  ghost predicate CountersOk(s: State) {
    && |s.data| > 0 && IsCapacity(|s.data|)
    && s.head == Wrap(s.start + |s.written|) && s.tail == Wrap(s.start + |s.read|)
    && |s.read| <= |s.written| <= |s.read| + |s.data|
  }

  ghost predicate DataOk(s: State)
    requires |s.data| > 0
  {
    && s.read <= s.written
    && forall i :: |s.read| <= i < |s.written| ==> StreamByte(s, i) == s.written[i]
  }

  ghost predicate WriterOk(s: State)
    requires |s.data| > 0
  {
    s.w.Copying? ==>
      && 0 < |s.w.msg| && s.w.j <= |s.w.msg| && |s.written| + |s.w.msg| <= |s.read| + |s.data|
      && forall i :: 0 <= i < s.w.j ==> StreamByte(s, |s.written| + i) == s.w.msg[i]
  }

  ghost predicate ReaderOk(s: State) {
    s.r.Fetching? ==>
      && 0 < s.r.n && |s.r.out| <= s.r.n && |s.read| + s.r.n <= |s.written|
      && s.r.out == s.written[|s.read|..|s.read| + |s.r.out|]
  }

  ghost predicate Inv(s: State) {
    CountersOk(s) && DataOk(s) && WriterOk(s) && ReaderOk(s)
  }

  /** The writer's slot for its next byte, and the reader's, are those of the stream positions. */
  lemma SlotsAreStreamPositions(s: State, c: U64, n: nat, j: nat)
    requires |s.data| > 0 && IsCapacity(|s.data|) && c == Wrap(s.start + n) && j < |s.data|
    ensures 0 <= Slot(c, |s.data|, j) < |s.data| && Slot(c, |s.data|, j) == (s.start + (n + j)) % |s.data|
  {
    hide IsCapacity, Slot, Wrap;
    SlotIs(c, |s.data|, j);
    WrapKeepsPosition(s.start + n, j, |s.data|);
  }

  /** The counters' distance is the number of unread bytes, however often they wrapped. */
  lemma Distance(s: State)
    requires CountersOk(s)
    ensures Wrap(s.head - s.tail) == |s.written| - |s.read|
    ensures Wrap(|s.data| - Wrap(s.head - s.tail)) == |s.data| - (|s.written| - |s.read|)
  {
    CapacityBelowTwo64(|s.data|);
    WrapDifference(s.start + |s.written|, s.start + |s.read|);
  }

  lemma CapacityBelowTwo64(c: nat)
    requires IsCapacity(c)
    ensures c < TWO_64
  {
    var k: nat :| k < 64 && c == Pow2(k);
    Pow2Grows(k, 64);
    Pow2Values();
  }

  lemma {:induction false} Pow2Grows(k: nat, n: nat)
    requires k < n
    ensures Pow2(k) < Pow2(n)
  {
    if k < n - 1 {
      Pow2Grows(k, n - 1);
    }
  }

  lemma WrapDifference(x: nat, y: nat)
    requires y <= x < y + TWO_64
    ensures Wrap(Wrap(x) - Wrap(y)) == x - y
  {
  }

  // ---------- every step keeps it ----------

  lemma InitHolds(s: State)
    requires Init(s)
    ensures Inv(s)
  {
    CapacityIsPositive(|s.data|);
  }

  lemma BeginWriteKeeps(s: State, s': State, msg: seq<Byte>)
    requires Inv(s) && BeginWrite(s, s', msg)
    ensures Inv(s')
  {
    hide IsCapacity, Wrap, ByteAt;
    Distance(s);
  }

  /** The store puts the byte at its stream position and leaves all positions from the reader on. */
  lemma CopyByteInEffect(s: State, s': State)
    requires CountersOk(s) && CopyByteIn(s, s') && |s.written| + |s.w.msg| <= |s.read| + |s.data|
    ensures |s'.data| == |s.data| && StreamByte(s', |s.written| + s.w.j) == s.w.msg[s.w.j]
    ensures forall i: nat :: |s.read| <= i < |s.written| + s.w.j ==> StreamByte(s', i) == StreamByte(s, i)
  {
    hide IsCapacity, Slot, Wrap;
    SlotsAreStreamPositions(s, s.head, |s.written|, s.w.j);
    forall i: nat | |s.read| <= i < |s.written| + s.w.j
      ensures StreamByte(s', i) == StreamByte(s, i)
    {
      PositionsDiffer(s.start + i, s.start + (|s.written| + s.w.j), |s.data|);
    }
  }

  lemma CopyByteInKeeps(s: State, s': State)
    requires Inv(s) && CopyByteIn(s, s')
    ensures Inv(s')
    ensures forall i :: |s.read| <= i < |s.written| ==> StreamByte(s', i) == s.written[i]
  {
    hide IsCapacity, Slot, Wrap, StreamByte;
    CopyByteInEffect(s, s');
  }

  lemma PublishWriteKeeps(s: State, s': State)
    requires Inv(s) && PublishWrite(s, s')
    ensures Inv(s')
  {
    hide IsCapacity;
    hide Wrap;
    WrapTwice(s.start + |s.written|, |s.w.msg|);
    forall i | |s.read| <= i < |s'.written|
      ensures StreamByte(s', i) == s'.written[i]
    {
      if i >= |s.written| {
        assert StreamByte(s, |s.written| + (i - |s.written|)) == s.w.msg[i - |s.written|];
      } else {
        assert StreamByte(s, i) == s.written[i];
      }
    }
  }

  lemma WrapTwice(x: nat, y: nat)
    ensures Wrap(Wrap(x) + y) == Wrap(x + y)
  {
  }

  lemma BeginReadKeeps(s: State, s': State, n: nat)
    requires Inv(s) && BeginRead(s, s', n)
    ensures Inv(s')
  {
    hide IsCapacity, Wrap, ByteAt;
    Distance(s);
  }

  lemma CopyByteOutKeeps(s: State, s': State)
    requires Inv(s) && CopyByteOut(s, s')
    ensures Inv(s')
  {
    hide IsCapacity, Slot, Wrap;
    var i := |s.read| + |s.r.out|;
    assert s'.r.out == s.r.out + [StreamByte(s, i)] by {
      SlotsAreStreamPositions(s, s.tail, |s.read|, |s.r.out|);
    }
    hide StreamByte;
    assert StreamByte(s, i) == s.written[i];
  }

  lemma PublishReadKeeps(s: State, s': State)
    requires Inv(s) && PublishRead(s, s')
    ensures Inv(s')
  {
    hide IsCapacity, Wrap;
    WrapTwice(s.start + |s.read|, s.r.n);
    assert s'.read == s.written[..|s.read| + s.r.n];
  }

  lemma NextKeeps(s: State, s': State)
    requires Inv(s) && Next(s, s')
    ensures Inv(s')
  {
    hide Inv, BeginWrite, CopyByteIn, PublishWrite, BeginRead, CopyByteOut, PublishRead;
    if msg :| BeginWrite(s, s', msg) {
      BeginWriteKeeps(s, s', msg);
    } else if CopyByteIn(s, s') {
      CopyByteInKeeps(s, s');
    } else if PublishWrite(s, s') {
      PublishWriteKeeps(s, s');
    } else if n :| BeginRead(s, s', n) {
      BeginReadKeeps(s, s', n);
    } else if CopyByteOut(s, s') {
      CopyByteOutKeeps(s, s');
    } else if PublishRead(s, s') {
      PublishReadKeeps(s, s');
    }
  }

  lemma {:induction false} ExecutionKeeps(states: seq<State>, i: nat)
    requires Execution(states) && i < |states|
    ensures Inv(states[i])
    decreases i
  {
    hide Inv, Next, Init;
    if i == 0 {
      InitHolds(states[0]);
    } else {
      ExecutionKeeps(states, i - 1);
      NextKeeps(states[i - 1], states[i]);
    }
  }

  // ---------- the guarantees ----------

  /** In every interleaving, the bytes read are a prefix of the bytes written, and the unread
      bytes number exactly the distance of the counters and never exceed the capacity. */
  lemma ReadsArePrefixOfWrites(states: seq<State>, i: nat)
    requires Execution(states) && i < |states|
    ensures states[i].read <= states[i].written
    ensures |states[i].written| - |states[i].read| == Wrap(states[i].head - states[i].tail) <= |states[i].data|
  {
    ExecutionKeeps(states, i);
    Distance(states[i]);
  }

  /** In every interleaving, the byte the reader copies is the published byte that is next in
      line, whatever the writer is doing meanwhile. */
  lemma ReaderSeesPublishedBytes(states: seq<State>, i: nat)
    requires Execution(states) && 0 < i < |states| && CopyByteOut(states[i - 1], states[i])
    ensures var s, k := states[i - 1], |states[i - 1].read| + |states[i - 1].r.out|;
            k < |s.written| && states[i].r.out == s.r.out + [s.written[k]]
  {
    hide IsCapacity, Slot, Wrap;
    ExecutionKeeps(states, i - 1);
    var s := states[i - 1];
    SlotsAreStreamPositions(s, s.tail, |s.read|, |s.r.out|);
    assert StreamByte(s, |s.read| + |s.r.out|) == s.written[|s.read| + |s.r.out|];
  }

  /** In every interleaving, the writer's store leaves every unread published byte in place. */
  lemma WriterSparesUnreadBytes(states: seq<State>, i: nat, k: nat)
    requires Execution(states) && 0 < i < |states| && CopyByteIn(states[i - 1], states[i])
    requires |states[i - 1].read| <= k < |states[i - 1].written|
    ensures |states[i].data| > 0 && StreamByte(states[i], k) == states[i - 1].written[k]
  {
    hide IsCapacity, Slot, Wrap;
    ExecutionKeeps(states, i - 1);
    CopyByteInKeeps(states[i - 1], states[i]);
  }

  // ---------- progress ----------

  /** Steps from s to t. */
  ghost predicate Leads(run: seq<State>, s: State, t: State) {
    && |run| > 0 && run[0] == s && run[|run| - 1] == t
    && forall i :: 0 < i < |run| ==> Next(run[i - 1], run[i])
  }

  lemma OneMoreStep(s: State, s': State, rest: seq<State>, t: State) returns (run: seq<State>)
    requires Next(s, s') && Leads(rest, s', t)
    ensures Leads(run, s, t)
  {
    hide Next;
    run := [s] + rest;
    forall i | 0 < i < |run|
      ensures Next(run[i - 1], run[i])
    {
      assert run[i] == rest[i - 1];
    }
  }

  /** A write that has begun can copy the rest of its bytes and publish them, whatever the reader
      has under way. */
  lemma {:induction false} WriteCanFinish(s: State) returns (run: seq<State>, t: State)
    requires Inv(s) && s.w.Copying?
    ensures Leads(run, s, t) && Inv(t) && t.w == Idle && t.written == s.written + s.w.msg
    ensures t.r == s.r && t.read == s.read && t.tail == s.tail
    decreases |s.w.msg| - s.w.j
  {
    hide IsCapacity, Slot, Wrap, Inv, Next;
    var s';
    if s.w.j < |s.w.msg| {
      s' := StoreNext(s);
      var rest;
      rest, t := WriteCanFinish(s');
      run := OneMoreStep(s, s', rest, t);
    } else {
      s' := PublishAll(s);
      t := s';
      run := OneMoreStep(s, s', [s'], t);
    }
  }

  lemma StoreNext(s: State) returns (s': State)
    requires Inv(s) && s.w.Copying? && s.w.j < |s.w.msg|
    ensures Next(s, s') && Inv(s') && s' == s.(data := s'.data, w := Copying(s.w.msg, s.w.j + 1))
  {
    hide IsCapacity, Slot, Wrap, ByteAt;
    SlotsAreStreamPositions(s, s.head, |s.written|, s.w.j);
    s' := s.(data := s.data[Slot(s.head, |s.data|, s.w.j) := s.w.msg[s.w.j]], w := Copying(s.w.msg, s.w.j + 1));
    assert CopyByteIn(s, s');
    NextKeeps(s, s');
  }

  lemma PublishAll(s: State) returns (s': State)
    requires Inv(s) && s.w.Copying? && s.w.j >= |s.w.msg|
    ensures Next(s, s') && Inv(s') && s' == s.(head := s'.head, w := Idle, written := s.written + s.w.msg)
  {
    hide IsCapacity, Slot, Wrap, ByteAt;
    s' := s.(head := Wrap(s.head + |s.w.msg|), w := Idle, written := s.written + s.w.msg);
    assert PublishWrite(s, s');
    NextKeeps(s, s');
  }

  /** A message can be begun exactly when it fits beside the unread bytes, and then it can be
      published whole. */
  lemma WriteCompletes(s: State, msg: seq<Byte>) returns (run: seq<State>, t: State)
    requires Inv(s) && s.w == Idle
    ensures (exists s' :: BeginWrite(s, s', msg)) <==> 0 < |msg| <= |s.data| - (|s.written| - |s.read|)
    ensures 0 < |msg| <= |s.data| - (|s.written| - |s.read|) ==>
              && Leads(run, s, t) && Inv(t) && t.w == Idle && t.written == s.written + msg
              && t.r == s.r && t.read == s.read && t.tail == s.tail
  {
    hide IsCapacity, Slot, Wrap, ByteAt;
    Distance(s);
    var s' := s.(w := Copying(msg, 0));
    run, t := [s], s;
    if 0 < |msg| <= |s.data| - (|s.written| - |s.read|) {
      assert BeginWrite(s, s', msg);
      NextKeeps(s, s');
      run, t := WriteCanFinish(s');
      run := OneMoreStep(s, s', run, t);
    }
  }

  /** A read that has begun can fetch the rest of its bytes and release them, whatever the writer
      has under way. */
  lemma {:induction false} ReadCanFinish(s: State) returns (run: seq<State>, t: State)
    requires Inv(s) && s.r.Fetching?
    ensures |s.read| + s.r.n <= |s.written|
    ensures Leads(run, s, t) && Inv(t) && t.r == Waiting && t.read == s.written[..|s.read| + s.r.n]
    ensures t.w == s.w && t.written == s.written && t.head == s.head && t.data == s.data
    decreases s.r.n - |s.r.out|
  {
    hide IsCapacity, Slot, Wrap, Inv, Next;
    var s';
    if |s.r.out| < s.r.n {
      s' := FetchNext(s);
      var rest;
      rest, t := ReadCanFinish(s');
      run := OneMoreStep(s, s', rest, t);
    } else {
      s' := ReleaseAll(s);
      t := s';
      run := OneMoreStep(s, s', [s'], t);
    }
  }

  lemma FetchNext(s: State) returns (s': State)
    requires Inv(s) && s.r.Fetching? && |s.r.out| < s.r.n
    ensures Next(s, s') && Inv(s') && s' == s.(r := s'.r)
    ensures s'.r.Fetching? && s'.r.n == s.r.n && |s'.r.out| == |s.r.out| + 1
  {
    hide IsCapacity, Slot, Wrap, ByteAt;
    SlotsAreStreamPositions(s, s.tail, |s.read|, |s.r.out|);
    s' := s.(r := Fetching(s.r.n, s.r.out + [s.data[Slot(s.tail, |s.data|, |s.r.out|)]]));
    assert CopyByteOut(s, s');
    NextKeeps(s, s');
  }

  lemma ReleaseAll(s: State) returns (s': State)
    requires Inv(s) && s.r.Fetching? && |s.r.out| >= s.r.n
    ensures |s.read| + s.r.n <= |s.written|
    ensures Next(s, s') && Inv(s') && s' == s.(tail := s'.tail, r := Waiting, read := s.written[..|s.read| + s.r.n])
  {
    hide IsCapacity, Slot, Wrap, ByteAt;
    s' := s.(tail := Wrap(s.tail + s.r.n), r := Waiting, read := s.read + s.r.out);
    assert PublishRead(s, s');
    NextKeeps(s, s');
    assert s'.read == s.written[..|s.read| + s.r.n];
  }

  /** Any number of published bytes up to all of them can be asked for, and then the reader gets
      them: no published byte is ever out of reach. */
  lemma ReadCompletes(s: State, n: nat) returns (run: seq<State>, t: State)
    requires Inv(s) && s.r == Waiting
    ensures (exists s' :: BeginRead(s, s', n)) <==> 0 < n <= |s.written| - |s.read|
    ensures 0 < n <= |s.written| - |s.read| ==>
              && Leads(run, s, t) && Inv(t) && t.r == Waiting && t.read == s.written[..|s.read| + n]
              && t.w == s.w && t.written == s.written && t.head == s.head && t.data == s.data
  {
    hide IsCapacity, Slot, Wrap, ByteAt;
    Distance(s);
    var s' := s.(r := Fetching(n, []));
    run, t := [s], s;
    if 0 < n <= |s.written| - |s.read| {
      assert BeginRead(s, s', n);
      NextKeeps(s, s');
      run, t := ReadCanFinish(s');
      run := OneMoreStep(s, s', run, t);
    }
  }
}
