/** One producer thread and one consumer thread inside src/atomic/one-to-one-queue.h at
    the same time. A step is one offset load, one copied byte or one offset store, and the
    steps of the two threads interleave freely. The bytes of a `memcpy` go in any order. */
module QueueSteps {
  import opened Basics
  import opened CyclicRegion

  /** `seenRead` and `seenWrite` are the loaded, possibly stale, offsets of the other side. */
  datatype Producer =
    | PIdle
    | PCalled(data: seq<byte>)
    | PCopying(data: seq<byte>, seenRead: nat, copied: set<nat>)

  datatype Consumer =
    | CIdle
    | CCalled(size: nat)
    | CCopying(buffer: seq<byte>, seenWrite: nat, copied: set<nat>)

  /** What a finished call did, recorded at the step at which it takes effect. */
  datatype Event =
    | Enqueued(data: seq<byte>)
    | EnqueueRejected(size: nat)
    | Dequeued(data: seq<byte>)
    | DequeueRejected(size: nat)

  datatype State = State(
    memory: seq<byte>,
    readOffset: nat,
    writeOffset: nat,
    producer: Producer,
    consumer: Consumer,
    history: seq<Event>)

  datatype Action =
    | CallEnqueue(data: seq<byte>)
    | LoadRead
    | CopyIn(i: nat)
    | StoreWrite
    | CallDequeue(size: nat)
    | LoadWrite(buffer: seq<byte>)
    | CopyOut(i: nat)
    | StoreRead

  ghost predicate Enabled(s: State, a: Action) {
    match a
    case CallEnqueue(_) => s.producer.PIdle?
    case LoadRead => s.producer.PCalled?
    case CopyIn(i) => s.producer.PCopying? && i < |s.producer.data| && i !in s.producer.copied
    case StoreWrite => s.producer.PCopying? && forall i: nat :: i < |s.producer.data| ==> i in s.producer.copied
    case CallDequeue(_) => s.consumer.CIdle?
    case LoadWrite(buffer) => s.consumer.CCalled? && |buffer| == s.consumer.size
    case CopyOut(i) => s.consumer.CCopying? && i < |s.consumer.buffer| && i !in s.consumer.copied
    case StoreRead => s.consumer.CCopying? && forall i: nat :: i < |s.consumer.buffer| ==> i in s.consumer.copied
  }

  /** The state after an enabled action, in a state that keeps `Bounds`. */
  ghost function Do(s: State, a: Action): State
    requires Bounds(s) && Enabled(s, a)
  {
    var m := |s.memory|;
    match a
    case CallEnqueue(data) =>
      if |data| > m then s.(history := s.history + [EnqueueRejected(|data|)])
      else if |data| == 0 then s.(history := s.history + [Enqueued([])])
      else s.(producer := PCalled(data))
    case LoadRead =>
      var size := |s.producer.data|;
      if size > FreeSpace(s.readOffset, s.writeOffset, m)
      then s.(producer := PIdle, history := s.history + [EnqueueRejected(size)])
      else s.(producer := PCopying(s.producer.data, s.readOffset, {}))
    case CopyIn(i) =>
      s.(memory := s.memory[At(s.writeOffset, i, m) := s.producer.data[i]],
         producer := s.producer.(copied := s.producer.copied + {i}))
    case StoreWrite =>
      s.(writeOffset := At(s.writeOffset, |s.producer.data|, m),
         producer := PIdle, history := s.history + [Enqueued(s.producer.data)])
    case CallDequeue(size) =>
      if size > m then s.(history := s.history + [DequeueRejected(size)])
      else if size == 0 then s.(history := s.history + [Dequeued([])])
      else s.(consumer := CCalled(size))
    case LoadWrite(buffer) =>
      var size := s.consumer.size;
      if size > AvailableData(s.readOffset, s.writeOffset, m)
      then s.(consumer := CIdle, history := s.history + [DequeueRejected(size)])
      else s.(consumer := CCopying(buffer, s.writeOffset, {}))
    case CopyOut(i) =>
      s.(consumer := s.consumer.(buffer := s.consumer.buffer[i := s.memory[At(s.readOffset, i, m)]],
                                 copied := s.consumer.copied + {i}))
    case StoreRead =>
      s.(readOffset := At(s.readOffset, |s.consumer.buffer|, m),
         consumer := CIdle, history := s.history + [Dequeued(s.consumer.buffer)])
  }

  /** What the steps need to stay inside the buffer: an invariant, not an assumption. */
  ghost predicate Bounds(s: State) {
    var m := |s.memory|;
    && m <= WORD / 2
    && (if m == 0 then s.producer.PIdle? && s.consumer.CIdle? else s.readOffset < m && s.writeOffset < m)
    && (s.producer.PCopying? ==> |s.producer.data| < m)
    && (s.consumer.CCopying? ==> |s.consumer.buffer| < m)
  }

  /** The state `atomic_queue_init` leaves: the buffer bytes are arbitrary. */
  ghost predicate Init(s: State) {
    && |s.memory| <= WORD / 2
    && s.readOffset == s.writeOffset == 0
    && s.producer == PIdle && s.consumer == CIdle
    && s.history == []
  }

  /** `Linearizable` shows that no reachable state is stopped by `Bounds`. */
  ghost predicate Step(s: State, s': State) {
    exists a :: Bounds(s) && Enabled(s, a) && s' == Do(s, a)
  }

  ghost predicate IsRun(run: seq<State>) {
    && run != [] && Init(run[0])
    && forall i :: 0 < i < |run| ==> Step(run[i - 1], run[i])
  }

  // ----- The abstract object: a bounded FIFO of bytes with all-or-nothing calls -----

  ghost function Capacity(s: State): nat {
    if |s.memory| == 0 then 0 else |s.memory| - 1
  }

  /** The effect of one call on the FIFO, or None where its reported outcome is wrong. */
  ghost function Apply(queue: seq<byte>, e: Event, capacity: nat): Option<seq<byte>> {
    match e
    case Enqueued(data) =>
      if data == [] || |queue| + |data| <= capacity then Some(queue + data) else None
    case EnqueueRejected(size) =>
      if size > 0 && |queue| + size > capacity then Some(queue) else None
    case Dequeued(data) =>
      if data <= queue then Some(queue[|data|..]) else None
    case DequeueRejected(size) =>
      if size > |queue| then Some(queue) else None
  }

  ghost function Replay(history: seq<Event>, capacity: nat): Option<seq<byte>> {
    if history == [] then Some([]) else
    var queue := Replay(history[..|history| - 1], capacity);
    if queue.None? then None else Apply(queue.value, history[|history| - 1], capacity)
  }

  /** The published bytes: what the FIFO holds. */
  ghost function Abstract(s: State): seq<byte>
    requires Bounds(s)
  {
    if |s.memory| == 0 then [] else
    Bytes(s.memory, s.readOffset, Used(s.readOffset, s.writeOffset, |s.memory|))
  }

  // ----- The invariant -----

  /** The bytes being written fit in what is free now, because the reader only frees more
      than the stale offset shows; those copied so far are in place. */
  ghost predicate ProducerInv(s: State)
    requires Bounds(s) && s.producer.PCopying?
  {
    var m := |s.memory|;
    && s.producer.seenRead < m
    && 0 < |s.producer.data| <= m - 1 - Used(s.producer.seenRead, s.writeOffset, m)
    && Used(s.readOffset, s.writeOffset, m) <= Used(s.producer.seenRead, s.writeOffset, m)
    && (forall i :: i in s.producer.copied ==> i < |s.producer.data|)
    && (forall i :: i in s.producer.copied ==> s.memory[At(s.writeOffset, i, m)] == s.producer.data[i])
  }

  /** The bytes being read are published, because the writer only adds to what the stale
      offset shows; those copied so far are the published ones. */
  ghost predicate ConsumerInv(s: State)
    requires Bounds(s) && s.consumer.CCopying?
  {
    var m := |s.memory|;
    && s.consumer.seenWrite < m
    && 0 < |s.consumer.buffer| <= Used(s.readOffset, s.consumer.seenWrite, m)
    && Used(s.readOffset, s.consumer.seenWrite, m) <= Used(s.readOffset, s.writeOffset, m)
    && (forall i :: i in s.consumer.copied ==> i < |s.consumer.buffer|)
    && (forall i :: i in s.consumer.copied ==> s.consumer.buffer[i] == s.memory[At(s.readOffset, i, m)])
  }

  ghost predicate Inv(s: State) {
    && Bounds(s)
    && (s.producer.PCalled? ==> 0 < |s.producer.data|)
    && (s.consumer.CCalled? ==> 0 < s.consumer.size)
    && (s.producer.PCopying? ==> ProducerInv(s))
    && (s.consumer.CCopying? ==> ConsumerInv(s))
  }

  /** Forward simulation: every step keeps the invariant, and either leaves the FIFO and
      the history alone or appends one call whose outcome is right for the FIFO as it is
      at that very step. */
  ghost predicate Simulates(s: State, s': State) {
    && Inv(s) && Inv(s')
    && |s'.memory| == |s.memory|
    && if s'.history == s.history then Abstract(s') == Abstract(s) else
       && |s'.history| == |s.history| + 1
       && s'.history[..|s.history|] == s.history
       && Apply(Abstract(s), s'.history[|s.history|], Capacity(s)) == Some(Abstract(s'))
  }

  lemma CopyInSimulates(s: State, i: nat)
    requires Inv(s) && Enabled(s, CopyIn(i))
    ensures Simulates(s, Do(s, CopyIn(i)))
  {
    var s', m := Do(s, CopyIn(i)), |s.memory|;
    forall j | 0 <= j < Used(s.readOffset, s.writeOffset, m)
      ensures s'.memory[At(s.readOffset, j, m)] == s.memory[At(s.readOffset, j, m)]
    {
      UsedAndFreeAreDisjoint(s.readOffset, s.writeOffset, m, j);
    }
    forall j: nat | j in s.producer.copied
      ensures s'.memory[At(s.writeOffset, j, m)] == s.memory[At(s.writeOffset, j, m)]
    {
      PositionsDiffer(s.writeOffset, m, i, j);
    }
    assert ProducerInv(s');
  }

  lemma StoreWriteSimulates(s: State)
    requires Inv(s) && Enabled(s, StoreWrite)
    ensures Simulates(s, Do(s, StoreWrite))
    ensures var s' := Do(s, StoreWrite);
            && Abstract(s') == Abstract(s) + s.producer.data && s'.producer.PIdle?
            && s'.history == s.history + [Enqueued(s.producer.data)]
  {
    AppendBytes(s.memory, s.memory, s.readOffset, s.writeOffset, s.producer.data);
  }

  lemma StoreReadSimulates(s: State)
    requires Inv(s) && Enabled(s, StoreRead)
    ensures Simulates(s, Do(s, StoreRead))
    ensures var s' := Do(s, StoreRead);
            && s.consumer.buffer + Abstract(s') == Abstract(s) && s'.consumer.CIdle?
            && s'.history == s.history + [Dequeued(s.consumer.buffer)]
  {
    var n := |s.consumer.buffer|;
    DropBytes(s.memory, s.readOffset, s.writeOffset, n);
    assert s.consumer.buffer == Bytes(s.memory, s.readOffset, n);
  }

  lemma LoadReadSimulates(s: State)
    requires Inv(s) && Enabled(s, LoadRead)
    ensures Simulates(s, Do(s, LoadRead))
    ensures var s', data := Do(s, LoadRead), s.producer.data;
            if |Abstract(s)| + |data| < |s.memory|
            then s'.history == s.history && s'.producer.PCopying? && s'.producer.data == data
            else s'.history == s.history + [EnqueueRejected(|data|)] && s'.producer.PIdle?
  {
    FormulasAreExact(s.readOffset, s.writeOffset, |s.memory|);
  }

  lemma LoadWriteSimulates(s: State, buffer: seq<byte>)
    requires Inv(s) && Enabled(s, LoadWrite(buffer))
    ensures Simulates(s, Do(s, LoadWrite(buffer)))
    ensures var s', size := Do(s, LoadWrite(buffer)), s.consumer.size;
            if size <= |Abstract(s)|
            then s'.history == s.history && s'.consumer.CCopying? && |s'.consumer.buffer| == size
            else s'.history == s.history + [DequeueRejected(size)] && s'.consumer.CIdle?
  {
    FormulasAreExact(s.readOffset, s.writeOffset, |s.memory|);
  }

  lemma CopyOutSimulates(s: State, i: nat)
    requires Inv(s) && Enabled(s, CopyOut(i))
    ensures Simulates(s, Do(s, CopyOut(i)))
  {
  }

  lemma CallSimulates(s: State, a: Action)
    requires Inv(s) && Enabled(s, a) && (a.CallEnqueue? || a.CallDequeue?)
    ensures Simulates(s, Do(s, a))
  {
    hide FreeSpace, AvailableData, At, Used;
    var queue, s' := Abstract(s), Do(s, a);
    assert queue + [] == queue && queue[0..] == queue && [] <= queue;
    assert Abstract(s') == queue && Inv(s');
  }

  lemma ActionSimulates(s: State, a: Action)
    requires Inv(s) && Enabled(s, a)
    ensures Simulates(s, Do(s, a))
  {
    match a
    case LoadRead => LoadReadSimulates(s);
    case LoadWrite(buffer) => LoadWriteSimulates(s, buffer);
    case CopyIn(i) => CopyInSimulates(s, i);
    case CopyOut(i) => CopyOutSimulates(s, i);
    case StoreWrite => StoreWriteSimulates(s);
    case StoreRead => StoreReadSimulates(s);
    case _ => CallSimulates(s, a);
  }

  lemma SimulationExtendsReplay(s: State, s': State)
    requires Simulates(s, s') && Replay(s.history, Capacity(s)) == Some(Abstract(s))
    ensures Replay(s'.history, Capacity(s')) == Some(Abstract(s'))
  {
  }

  // ----- Whole runs -----

  /** Linearizability: in every state of every run, the calls finished so far, in the
      order of their recorded steps, are a legal history of one bounded FIFO of
      `memory_size - 1` bytes that ends with exactly the published bytes. */
  lemma {:induction false} Linearizable(run: seq<State>)
    requires IsRun(run)
    ensures var s := run[|run| - 1];
            Inv(s) && |s.memory| == |run[0].memory| && Replay(s.history, Capacity(s)) == Some(Abstract(s))
  {
    var s' := run[|run| - 1];
    if |run| == 1 {
    } else {
      var s := run[|run| - 2];
      assert Step(s, s');
      assert run[..|run| - 1][|run| - 2] == s;
      Linearizable(run[..|run| - 1]);
      var a :| Bounds(s) && Enabled(s, a) && s' == Do(s, a);
      ActionSimulates(s, a);
      SimulationExtendsReplay(s, s');
    }
  }

  ghost function In(e: Event): seq<byte> {
    if e.Enqueued? then e.data else []
  }

  ghost function Out(e: Event): seq<byte> {
    if e.Dequeued? then e.data else []
  }

  ghost function BytesIn(history: seq<Event>): seq<byte> {
    if history == [] then [] else BytesIn(history[..|history| - 1]) + In(history[|history| - 1])
  }

  ghost function BytesOut(history: seq<Event>): seq<byte> {
    if history == [] then [] else BytesOut(history[..|history| - 1]) + Out(history[|history| - 1])
  }

  lemma ApplyConserves(queue: seq<byte>, e: Event, capacity: nat)
    requires |queue| <= capacity && Apply(queue, e, capacity).Some?
    ensures var queue' := Apply(queue, e, capacity).value;
            |queue'| <= capacity && queue + In(e) == Out(e) + queue'
  {
  }

  /** A legal history loses, repeats and reorders nothing. */
  lemma {:induction false} ReplayConserves(history: seq<Event>, capacity: nat)
    requires Replay(history, capacity).Some?
    ensures var queue := Replay(history, capacity).value;
            |queue| <= capacity && BytesIn(history) == BytesOut(history) + queue
  {
    if history == [] {
    } else {
      var before, e := history[..|history| - 1], history[|history| - 1];
      ReplayConserves(before, capacity);
      var queue, queue' := Replay(before, capacity).value, Replay(history, capacity).value;
      ApplyConserves(queue, e, capacity);
      Regroup(BytesOut(before), queue, In(e), Out(e), queue');
    }
  }

  lemma Regroup(taken: seq<byte>, queue: seq<byte>, added: seq<byte>, removed: seq<byte>, queue': seq<byte>)
    requires queue + added == removed + queue'
    ensures (taken + queue) + added == (taken + removed) + queue'
  {
    assert (taken + queue) + added == taken + (queue + added);
    assert (taken + removed) + queue' == taken + (removed + queue');
  }

  /** In every state of every run the bytes handed out are a prefix of the bytes taken in,
      and the rest of them are the published bytes. */
  lemma DequeuedIsPrefixOfEnqueued(run: seq<State>)
    requires IsRun(run)
    ensures var s := run[|run| - 1];
            Bounds(s) && BytesIn(s.history) == BytesOut(s.history) + Abstract(s) && |Abstract(s)| <= Capacity(s)
  {
    var s := run[|run| - 1];
    Linearizable(run);
    ReplayConserves(s.history, Capacity(s));
  }

  /** In every state of every run the region an enqueue is writing meets neither the
      published bytes nor the region a dequeue is reading, and both lie inside the buffer. */
  lemma RegionsAreDisjoint(run: seq<State>, i: nat, j: nat)
    requires IsRun(run)
    requires var s := run[|run| - 1]; s.producer.PCopying? && i < |s.producer.data|
    ensures var s := run[|run| - 1]; var m := |s.memory|;
            && s.readOffset < m && s.writeOffset < m && |s.producer.data| < m
            && (j < Used(s.readOffset, s.writeOffset, m) ==> At(s.writeOffset, i, m) != At(s.readOffset, j, m))
            && (s.consumer.CCopying? && j < |s.consumer.buffer| ==>
                  j < m && At(s.writeOffset, i, m) != At(s.readOffset, j, m))
  {
    var s := run[|run| - 1];
    Linearizable(run);
    if j < Used(s.readOffset, s.writeOffset, |s.memory|) {
      UsedAndFreeAreDisjoint(s.readOffset, s.writeOffset, |s.memory|, j);
    }
  }
}
