/**
  The lock-free audio ring (runtime/stasis_audio_ring.c) as a step machine.

  One producer, one consumer, one controller and one observer run side by side.
  Every atomic operation is one step and so is every copied frame, so a stop or a
  restart can land anywhere inside a push or a consume. Two history variables hold
  what the C code does not store: `log`, every frame ever published, and `fate`,
  what happened to each frame the read counter has passed.

  Steps are interleaved in one total order (sequential consistency).
*/
module AudioRing {
  import opened CInts
  import opened Division

  // Bit 63 of write_state; the lower 63 bits are the write counter.
  const ACCEPTING: nat := 0x8000_0000_0000_0000

  type Frame = seq<real>

  datatype Config = Config(capacity: nat, channels: nat) {
    ghost predicate Valid() {
      0 < capacity < UINT32 && 1 <= channels <= 2
    }

    function Silence(): Frame {
      seq(channels, i => 0.0)
    }
  }

  datatype Fate = Delivered | Discarded

  datatype Producer =
    | PushIdle
    | PushLoaded(input: seq<Frame>, base: seq<Frame>, word: nat)
    | PushCopying(input: seq<Frame>, base: seq<Frame>, word: nat, accepted: nat, copied: nat)
    | PushReturned(input: seq<Frame>, base: seq<Frame>, accepted: nat)

  datatype Consumer =
    | TakeIdle
    | TakeLoaded(count: nat, at: nat)
    | TakeCopying(count: nat, at: nat, consumed: nat, out: seq<Frame>)
    | TakeShort(count: nat, at: nat, consumed: nat, out: seq<Frame>)
    | TakeUnderrun(count: nat, at: nat, consumed: nat, out: seq<Frame>)
    | TakeReturned(count: nat, at: nat, consumed: nat, out: seq<Frame>)

  datatype Controller = ControlIdle | Stopping(write: nat)

  // `floor` is the longest queue seen at one of the observer's two loads.
  datatype Observer =
    | QueryIdle
    | QueryLoaded(read: nat, floor: nat)
    | QueryReturned(queued: nat, floor: nat)

  datatype State = State(
    samples: seq<Frame>,
    readFrame: nat,
    writeState: nat,
    underruns: nat,
    producer: Producer,
    consumer: Consumer,
    controller: Controller,
    observer: Observer,
    log: seq<Frame>,
    fate: seq<Fate>,
    heard: seq<Frame>)
  {
    function Write(): nat { writeState % ACCEPTING }
    predicate Accepts() { writeState >= ACCEPTING }
  }

  datatype Action =
    | PushBegin(input: seq<Frame>) | PushLoadRead | PushCopy | PushSwap
    | TakeBegin(count: nat) | TakeLoadWrite | TakeCopy | TakeSwap | TakeCheck | TakeCount
    | Start | StopBegin | StopFinish
    | QueryBegin | QueryFinish

  function Min(a: nat, b: nat): nat { if a < b then a else b }

  function Ahead(write: nat, read: nat): nat { if write >= read then write - read else 0 }

  // (uint32_t)(write >= read ? write - read : 0)
  function Distance(write: nat, read: nat): nat { Ahead(write, read) % UINT32 }

  // The slot of a counter.
  function Place(i: nat, n: nat): (slot: nat)
    requires n > 0
    ensures slot < n
  {
    i % n
  }

  // The index the two memcpy calls use for frame k of a block that starts at `start`.
  function Slot(c: Config, start: nat, k: nat, total: nat): nat
    requires c.Valid() && k < total <= c.capacity
  {
    var first := Min(total, c.capacity - start % c.capacity);
    if k < first then start % c.capacity + k else k - first
  }

  function Repeat<T>(x: T, n: nat): seq<T> { seq(n, i => x) }

  function Init(c: Config): State {
    State(Repeat(c.Silence(), c.capacity), 0, 0, 0,
          PushIdle, TakeIdle, ControlIdle, QueryIdle, [], [], [])
  }

  /** One step. A step that is not the thread's next one leaves the state alone. */
  function Step(c: Config, s: State, a: Action): State
    requires c.Valid() && |s.samples| == c.capacity
    ensures |Step(c, s, a).samples| == c.capacity
  {
    match a
    case PushBegin(_) => StepPush(c, s, a)
    case PushLoadRead => StepPush(c, s, a)
    case PushCopy => StepPush(c, s, a)
    case PushSwap => StepPush(c, s, a)
    case TakeBegin(_) => StepTake(c, s, a)
    case TakeLoadWrite => StepTake(c, s, a)
    case TakeCopy => StepTake(c, s, a)
    case TakeSwap => StepTake(c, s, a)
    case TakeCheck => StepTake(c, s, a)
    case TakeCount => StepTake(c, s, a)
    case _ => StepControl(c, s, a)
  }

  function StepPush(c: Config, s: State, a: Action): State
    requires c.Valid() && |s.samples| == c.capacity
    ensures |StepPush(c, s, a).samples| == c.capacity
  {
    match (a, s.producer)
    case (PushBegin(input), p) =>
      if !(p.PushIdle? || p.PushReturned?) || |input| >= UINT32 then s
      else if input == [] || !s.Accepts() then s.(producer := PushReturned(input, s.log, 0))
      else s.(producer := PushLoaded(input, s.log, s.writeState))
    case (PushLoadRead, PushLoaded(input, base, word)) =>
      var free := c.capacity - Min(Distance(word % ACCEPTING, s.readFrame), c.capacity);
      var accepted := Min(|input|, free);
      if accepted == 0 then s.(producer := PushReturned(input, base, 0))
      else s.(producer := PushCopying(input, base, word, accepted, 0))
    case (PushCopy, PushCopying(input, base, word, accepted, copied)) =>
      if copied >= accepted || accepted > |input| || accepted > c.capacity then s
      else
        var slot := Slot(c, word % ACCEPTING, copied, accepted);
        s.(samples := s.samples[slot := input[copied]],
           producer := PushCopying(input, base, word, accepted, copied + 1))
    case (PushSwap, PushCopying(input, base, word, accepted, copied)) =>
      if copied != accepted || accepted > |input| then s
      else if s.writeState != word then s.(producer := PushReturned(input, base, 0))
      else if word % ACCEPTING + accepted >= ACCEPTING then s  // beyond 2^63 frames: outside the model
      else s.(writeState := ACCEPTING + (word % ACCEPTING + accepted),
              log := s.log + input[..accepted],
              producer := PushReturned(input, base, accepted))
    case _ => s
  }

  function StepTake(c: Config, s: State, a: Action): State
    requires c.Valid() && |s.samples| == c.capacity
    ensures |StepTake(c, s, a).samples| == c.capacity
  {
    match (a, s.consumer)
    case (TakeBegin(count), t) =>
      if !(t.TakeIdle? || t.TakeReturned?) || count >= UINT32 then s
      else if count == 0 then s.(consumer := TakeReturned(0, s.readFrame, 0, []))
      else s.(consumer := TakeLoaded(count, s.readFrame))
    case (TakeLoadWrite, TakeLoaded(count, at)) =>
      var available := Min(Distance(s.Write(), at), c.capacity);
      s.(consumer := TakeCopying(count, at, Min(count, available), []))
    case (TakeCopy, TakeCopying(count, at, consumed, out)) =>
      if |out| >= consumed || consumed > c.capacity then s
      else
        var slot := Slot(c, at, |out|, consumed);
        s.(consumer := TakeCopying(count, at, consumed, out + [s.samples[slot]]))
    case (TakeSwap, TakeCopying(count, at, consumed, out)) =>
      if |out| != consumed || consumed > count then s
      else if s.readFrame != at then
        s.(consumer := TakeReturned(count, at, 0, Repeat(c.Silence(), count)))
      else
        var s1 := s.(readFrame := at + consumed,
                     fate := s.fate + Repeat(Delivered, consumed),
                     heard := s.heard + out);
        if consumed < count then
          s1.(consumer := TakeShort(count, at, consumed, out + Repeat(c.Silence(), count - consumed)))
        else s1.(consumer := TakeReturned(count, at, consumed, out))
    case (TakeCheck, TakeShort(count, at, consumed, out)) =>
      if s.Accepts() then s.(consumer := TakeUnderrun(count, at, consumed, out))
      else s.(consumer := TakeReturned(count, at, consumed, out))
    case (TakeCount, TakeUnderrun(count, at, consumed, out)) =>
      s.(underruns := (s.underruns + 1) % UINT32, consumer := TakeReturned(count, at, consumed, out))
    case _ => s
  }

  function StepControl(c: Config, s: State, a: Action): State
    requires c.Valid() && |s.samples| == c.capacity
    ensures |StepControl(c, s, a).samples| == c.capacity
  {
    match a
    case Start =>
      if !s.controller.ControlIdle? then s
      else s.(writeState := if s.Accepts() then s.writeState else s.writeState + ACCEPTING)
    case StopBegin =>
      if !s.controller.ControlIdle? then s
      else s.(writeState := s.Write(), controller := Stopping(s.Write()))
    case StopFinish =>
      (match s.controller
       case ControlIdle => s
       case Stopping(w) =>
         s.(readFrame := w, controller := ControlIdle,
            fate := s.fate + Repeat(Discarded, if w >= s.readFrame then w - s.readFrame else 0)))
    case QueryBegin =>
      if s.observer.QueryLoaded? then s
      else s.(observer := QueryLoaded(s.readFrame, s.Write() - Min(s.readFrame, s.Write())))
    case QueryFinish =>
      (match s.observer
       case QueryLoaded(read, floor) =>
         var queued := Ahead(s.Write(), read);
         var now := s.Write() - Min(s.readFrame, s.Write());
         s.(observer := QueryReturned(Min(queued, c.capacity), if floor > now then floor else now))
       case _ => s)
    case _ => s
  }

  /** Any interleaving: the actions of all four threads in the order they take effect. */
  function Run(c: Config, s: State, actions: seq<Action>): State
    requires c.Valid() && |s.samples| == c.capacity
    ensures |Run(c, s, actions).samples| == c.capacity
    decreases |actions|
  {
    if actions == [] then s else Run(c, Step(c, s, actions[0]), actions[1..])
  }

  // ---------- Invariant ----------

  ghost predicate Counters(c: Config, s: State) {
    && |s.samples| == c.capacity
    && s.writeState < 2 * ACCEPTING
    && s.readFrame <= s.Write() <= s.readFrame + c.capacity
    && |s.log| == s.Write()
    && |s.fate| == s.readFrame
  }

  // Every queued frame sits in its slot.
  ghost predicate QueueStored(c: Config, s: State)
    requires c.Valid() && Counters(c, s)
  {
    forall i :: s.readFrame <= i < s.Write() ==> s.samples[Place(i, c.capacity)] == s.log[i]
  }

  ghost predicate ProducerOk(c: Config, s: State)
    requires c.Valid() && Counters(c, s)
  {
    match s.producer
    case PushIdle => true
    case PushLoaded(input, base, word) =>
      && base == s.log && word == ACCEPTING + s.Write()
      && 0 < |input| < UINT32
    case PushCopying(input, base, word, accepted, copied) =>
      && base == s.log && word == ACCEPTING + s.Write()
      && copied <= accepted <= |input| < UINT32
      && 0 < accepted
      && s.Write() + accepted <= s.readFrame + c.capacity
      && (forall k :: 0 <= k < copied ==> s.samples[Place(s.Write() + k, c.capacity)] == input[k])
    case PushReturned(input, base, accepted) =>
      accepted <= |input| && s.log == base + input[..accepted]
  }

  ghost predicate Kept(s: State, at: nat, consumed: nat) {
    && at + consumed <= |s.fate|
    && forall i :: at <= i < at + consumed ==> s.fate[i] == Delivered
  }

  // A finished copy: frames [at, at+consumed) of the log, then silence.
  ghost predicate Played(c: Config, s: State, count: nat, at: nat, consumed: nat, out: seq<Frame>) {
    && consumed <= count
    && Kept(s, at, consumed)
    && at + consumed <= |s.log|
    && out == s.log[at..at + consumed] + Repeat(c.Silence(), count - consumed)
  }

  ghost predicate ConsumerOk(c: Config, s: State)
    requires c.Valid() && Counters(c, s)
  {
    match s.consumer
    case TakeIdle => true
    case TakeLoaded(count, at) => 0 < count < UINT32 && at <= s.readFrame
    case TakeCopying(count, at, consumed, out) =>
      && at <= s.readFrame && |out| <= consumed <= count && consumed <= c.capacity
      && at + consumed <= s.Write()
      && (at == s.readFrame ==> forall k :: 0 <= k < |out| ==> out[k] == s.log[at + k])
    case TakeShort(count, at, consumed, out) => Played(c, s, count, at, consumed, out)
    case TakeUnderrun(count, at, consumed, out) => Played(c, s, count, at, consumed, out)
    case TakeReturned(count, at, consumed, out) => Played(c, s, count, at, consumed, out)
  }

  ghost predicate ControllerOk(s: State) {
    s.controller.Stopping? ==> s.controller.write == s.Write() && !s.Accepts()
  }

  ghost predicate ObserverOk(c: Config, s: State) {
    match s.observer
    case QueryIdle => true
    case QueryLoaded(read, floor) =>
      read <= s.readFrame && floor <= c.capacity && read + floor <= s.Write()
    case QueryReturned(queued, floor) => floor <= queued <= c.capacity
  }

  // The published frames that were delivered, in log order.
  function DeliveredFrames(log: seq<Frame>, fate: seq<Fate>): seq<Frame>
    requires |fate| <= |log|
    decreases |fate|
  {
    if fate == [] then []
    else
      var n := |fate| - 1;
      DeliveredFrames(log, fate[..n]) + (if fate[n].Delivered? then [log[n]] else [])
  }

  ghost predicate History(s: State)
  {
    |s.fate| <= |s.log| && s.heard == DeliveredFrames(s.log, s.fate)
  }

  ghost predicate Inv(c: Config, s: State) {
    && c.Valid()
    && Counters(c, s)
    && QueueStored(c, s)
    && ProducerOk(c, s)
    && ConsumerOk(c, s)
    && ControllerOk(s)
    && ObserverOk(c, s)
    && History(s)
  }

  // ---------- Slot arithmetic ----------

  lemma MultipleBounds(n: nat, d: int)
    ensures d >= 1 ==> n * d >= n
    ensures d <= 0 ==> n * d <= 0
    ensures d <= -1 ==> n * d <= 0 - n
  {}

  lemma RemainderOfSum(n: nat, start: nat, k: nat)
    requires k < n
    ensures (start + k) % n == if start % n + k < n then start % n + k else start % n + k - n
  {
    var q, r := start / n, start % n;
    assert start == q * n + r;
    if r + k < n {
      Quotient(start + k, n, q, r + k);
    } else {
      assert (q + 1) * n == q * n + n;
      Quotient(start + k, n, q + 1, r + k - n);
    }
  }

  lemma SlotIsModular(c: Config, start: nat, k: nat, total: nat)
    requires c.Valid() && k < total <= c.capacity
    ensures Slot(c, start, k, total) == Place(start + k, c.capacity)
  {
    RemainderOfSum(c.capacity, start, k);
  }

  /** The window argument: counters less than `capacity` apart never share a slot. */
  lemma WindowSlotsDiffer(n: nat, i: nat, j: nat)
    requires i < j < i + n
    ensures Place(i, n) != Place(j, n)
  {
    var d := j / n - i / n;
    assert n * d == n * (j / n) - n * (i / n);
    MultipleBounds(n, d);
  }

  lemma MaskAccepting(w: nat)
    requires w < ACCEPTING
    ensures (ACCEPTING + w) % ACCEPTING == w && w % ACCEPTING == w
  {}

  // ---------- Every step keeps the invariant ----------

  lemma {:induction false} FateAppended(log: seq<Frame>, fate: seq<Fate>, f: Fate, n: nat)
    requires |fate| + n <= |log|
    ensures DeliveredFrames(log, fate + Repeat(f, n)) ==
            DeliveredFrames(log, fate) + (if f.Delivered? then log[|fate|..|fate| + n] else [])
    decreases n
  {
    hide DeliveredFrames;
    if n == 0 {
      assert fate + Repeat(f, n) == fate;
    } else {
      FateAppended(log, fate, f, n - 1);
      var shorter, m := fate + Repeat(f, n - 1), |fate| + n - 1;
      assert fate + Repeat(f, n) == shorter + [f];
      DeliveredOne(log, shorter, f);
      assert log[|fate|..m + 1] == log[|fate|..m] + [log[m]];
    }
  }

  lemma DeliveredOne(log: seq<Frame>, fate: seq<Fate>, f: Fate)
    requires |fate| < |log|
    ensures DeliveredFrames(log, fate + [f]) ==
            DeliveredFrames(log, fate) + (if f.Delivered? then [log[|fate|]] else [])
  {
    assert (fate + [f])[..|fate|] == fate;
  }

  lemma {:induction false} LogAppended(log: seq<Frame>, more: seq<Frame>, fate: seq<Fate>)
    requires |fate| <= |log|
    ensures DeliveredFrames(log + more, fate) == DeliveredFrames(log, fate)
    decreases |fate|
  {
    if fate != [] {
      LogAppended(log, more, fate[..|fate| - 1]);
    }
  }

  // Writing the slot of counter `at` leaves the slots of a nearby range of counters alone.
  lemma OtherSlotsKept(n: nat, samples: seq<Frame>, at: nat, frame: Frame, lo: nat, hi: nat)
    requires 0 < n == |samples| && lo <= hi <= at < lo + n
    ensures forall i :: lo <= i < hi ==> samples[Place(at, n) := frame][Place(i, n)] == samples[Place(i, n)]
  {
    forall i | lo <= i < hi ensures samples[Place(at, n) := frame][Place(i, n)] == samples[Place(i, n)] {
      WindowSlotsDiffer(n, i, at);
    }
  }

  lemma PushCopyStores(c: Config, s: State, s': State)
    requires Inv(c, s) && s.producer.PushCopying? && s.producer.copied < s.producer.accepted
    requires s' == StepPush(c, s, PushCopy)
    ensures var at := Place(s.Write() + s.producer.copied, c.capacity);
            s'.samples == s.samples[at := s.producer.input[s.producer.copied]]
    ensures s' == s.(samples := s'.samples, producer := s.producer.(copied := s.producer.copied + 1))
  {
    hide Slot, Place, ConsumerOk, ObserverOk, QueueStored, DeliveredFrames;
    MaskAccepting(s.Write());
    SlotIsModular(c, s.Write(), s.producer.copied, s.producer.accepted);
  }

  lemma PushCopyKeepsStored(c: Config, s: State, s': State)
    requires Inv(c, s) && s.producer.PushCopying? && s.producer.copied < s.producer.accepted
    requires s' == StepPush(c, s, PushCopy)
    ensures forall i :: s.readFrame <= i < s.Write() + s.producer.copied ==>
              s'.samples[Place(i, c.capacity)] == s.samples[Place(i, c.capacity)]
    ensures s'.samples[Place(s.Write() + s.producer.copied, c.capacity)] == s.producer.input[s.producer.copied]
  {
    hide Slot, Place, StepPush, ConsumerOk, ObserverOk, QueueStored, DeliveredFrames;
    PushCopyStores(c, s, s');
    var at := s.Write() + s.producer.copied;
    OtherSlotsKept(c.capacity, s.samples, at, s.producer.input[s.producer.copied], s.readFrame, at);
  }

  lemma PushCopyKeepsInv(c: Config, s: State)
    requires Inv(c, s) && s.producer.PushCopying?
    ensures Inv(c, StepPush(c, s, PushCopy))
  {
    hide Slot, Place;
    var s' := StepPush(c, s, PushCopy);
    if s.producer.copied < s.producer.accepted {
      PushCopyStores(c, s, s');
      PushCopyQueue(c, s, s');
      hide StepPush, QueueStored, ProducerOk, DeliveredFrames;
      assert ConsumerOk(c, s');
    }
  }

  lemma PushCopyQueue(c: Config, s: State, s': State)
    requires Inv(c, s) && s.producer.PushCopying? && s.producer.copied < s.producer.accepted
    requires s' == StepPush(c, s, PushCopy)
    ensures Counters(c, s') && QueueStored(c, s') && ProducerOk(c, s')
  {
    hide StepPush, ConsumerOk, ObserverOk, DeliveredFrames, Inv, Place;
    PushCopyStores(c, s, s');
    PushCopyKeepsStored(c, s, s');
    InvParts(c, s);
    CopiedNext(c.capacity, s.samples, s'.samples, s.Write(), s.producer.input, s.producer.copied);
  }

  lemma InvParts(c: Config, s: State)
    requires Inv(c, s)
    ensures c.Valid() && Counters(c, s) && QueueStored(c, s) && ProducerOk(c, s)
  {}

  lemma CopiedNext(n: nat, before: seq<Frame>, after: seq<Frame>, w: nat, input: seq<Frame>, copied: nat)
    requires 0 < n == |before| == |after| && copied < |input|
    requires forall k :: 0 <= k < copied ==> before[Place(w + k, n)] == input[k]
    requires forall i :: w <= i < w + copied ==> after[Place(i, n)] == before[Place(i, n)]
    requires after[Place(w + copied, n)] == input[copied]
    ensures forall k :: 0 <= k < copied + 1 ==> after[Place(w + k, n)] == input[k]
  {
    hide Place;
    forall k | 0 <= k < copied + 1 ensures after[Place(w + k, n)] == input[k] {
      var i := w + k;
      assert k < copied ==> after[Place(i, n)] == before[Place(i, n)];
    }
  }

  lemma PushSwapPublishes(c: Config, s: State, s': State)
    requires Inv(c, s) && s.producer.PushCopying? && s' == StepPush(c, s, PushSwap)
    requires s.producer.copied == s.producer.accepted && s.writeState == s.producer.word
    requires s.Write() + s.producer.accepted < ACCEPTING
    ensures Counters(c, s') && s'.Write() == s.Write() + s.producer.accepted
    ensures s' == s.(writeState := s'.writeState, producer := s'.producer, log := s'.log)
    ensures QueueStored(c, s')
  {
    hide Place, Slot, ConsumerOk, ObserverOk, DeliveredFrames;
    var p, w := s.producer, s.Write();
    MaskAccepting(w + p.accepted);
    MaskAccepting(w);
    forall i | s.readFrame <= i < w + p.accepted
      ensures s.samples[Place(i, c.capacity)] == (s.log + p.input[..p.accepted])[i]
    {
      if i >= w {
        var k := i - w;
        assert s.samples[Place(w + k, c.capacity)] == p.input[k];
      }
    }
  }

  lemma PushSwapKeepsInv(c: Config, s: State)
    requires Inv(c, s) && s.producer.PushCopying?
    ensures Inv(c, StepPush(c, s, PushSwap))
  {
    hide Slot, Place;
    var p, s' := s.producer, StepPush(c, s, PushSwap);
    if p.copied != p.accepted || s.writeState != p.word {
      SameShared(c, s, s');
    } else if s.Write() + p.accepted < ACCEPTING {
      PushSwapPublishes(c, s, s');
      LogAppended(s.log, p.input[..p.accepted], s.fate);
      KeepConsumer(c, s, s');
    }
  }

  // The log grew, everything the consumer relies on is still there.
  lemma KeepConsumer(c: Config, s: State, s': State)
    requires Inv(c, s) && Counters(c, s')
    requires s'.consumer == s.consumer && s.log <= s'.log
    requires s'.fate == s.fate
    ensures ConsumerOk(c, s')
  {
    hide Place, QueueStored, ProducerOk, ObserverOk, DeliveredFrames;
  }

  lemma PushBeginKeepsInv(c: Config, s: State, input: seq<Frame>)
    requires Inv(c, s)
    ensures Inv(c, StepPush(c, s, PushBegin(input)))
  {
    SameShared(c, s, StepPush(c, s, PushBegin(input)));
  }

  lemma PushLoadReadKeepsInv(c: Config, s: State)
    requires Inv(c, s) && s.producer.PushLoaded?
    ensures Inv(c, StepPush(c, s, PushLoadRead))
  {
    hide Slot, Place;
    MaskAccepting(s.Write());
    SameShared(c, s, StepPush(c, s, PushLoadRead));
  }

  lemma PushKeepsInv(c: Config, s: State, a: Action)
    requires Inv(c, s)
    ensures Inv(c, StepPush(c, s, a))
  {
    match (a, s.producer)
    case (PushCopy, PushCopying(_, _, _, _, _)) => PushCopyKeepsInv(c, s);
    case (PushSwap, PushCopying(_, _, _, _, _)) => PushSwapKeepsInv(c, s);
    case (PushLoadRead, PushLoaded(_, _, _)) => PushLoadReadKeepsInv(c, s);
    case (PushBegin(input), _) => PushBeginKeepsInv(c, s, input);
    case _ =>
  }

  lemma CopiedFrame(c: Config, s: State) returns (frame: Frame)
    requires Inv(c, s) && s.consumer.TakeCopying? && |s.consumer.out| < s.consumer.consumed
    ensures var t := s.consumer;
            && frame == s.samples[Slot(c, t.at, |t.out|, t.consumed)]
            && (t.at == s.readFrame ==> frame == s.log[t.at + |t.out|])
  {
    hide Place, Slot, ProducerOk, ObserverOk, DeliveredFrames;
    var t := s.consumer;
    SlotIsModular(c, t.at, |t.out|, t.consumed);
    frame := s.samples[Place(t.at + |t.out|, c.capacity)];
  }

  // A step that moves neither counter nor sample cannot disturb the other threads.
  lemma SameShared(c: Config, s: State, s': State)
    requires Inv(c, s)
    requires s'.Write() == s.Write() && s'.writeState < 2 * ACCEPTING
    requires s' == s.(writeState := s'.writeState, underruns := s'.underruns, producer := s'.producer,
                      consumer := s'.consumer, controller := s'.controller, observer := s'.observer)
    ensures Counters(c, s') && QueueStored(c, s') && History(s')
    ensures s'.writeState == s.writeState && s'.controller == s.controller ==> ControllerOk(s')
    ensures s'.producer == s.producer ==> ProducerOk(c, s')
    ensures s'.consumer == s.consumer ==> ConsumerOk(c, s')
    ensures s'.observer == s.observer ==> ObserverOk(c, s')
  {
    hide Place;
  }

  lemma TakeCopyKeepsInv(c: Config, s: State)
    requires Inv(c, s) && s.consumer.TakeCopying?
    ensures Inv(c, StepTake(c, s, TakeCopy))
  {
    hide Slot, Place;
    var TakeCopying(count, at, consumed, out) := s.consumer;
    if |out| < consumed {
      var frame := CopiedFrame(c, s);
      var s' := s.(consumer := TakeCopying(count, at, consumed, out + [frame]));
      assert StepTake(c, s, TakeCopy) == s';
      SameShared(c, s, s');
    }
  }

  // Moving the read counter forward keeps the queue and a push in progress intact.
  lemma ReadMoved(c: Config, s: State, s': State)
    requires Inv(c, s) && s.readFrame <= s'.readFrame <= s.Write() && |s'.fate| == s'.readFrame
    requires s' == s.(readFrame := s'.readFrame, fate := s'.fate, heard := s'.heard,
                      consumer := s'.consumer, controller := s'.controller)
    ensures Counters(c, s') && QueueStored(c, s') && ProducerOk(c, s') && ObserverOk(c, s')
  {
    hide ConsumerOk, DeliveredFrames, Place;
    assert s'.Write() == s.Write() && s'.samples == s.samples;
  }

  // What a won swap leaves behind.
  lemma TakeSwapResult(c: Config, s: State, s': State)
    requires Inv(c, s) && s.consumer.TakeCopying?
    requires |s.consumer.out| == s.consumer.consumed && s.readFrame == s.consumer.at
    requires s' == StepTake(c, s, TakeSwap)
    ensures var TakeCopying(count, at, consumed, out) := s.consumer;
            && s' == s.(readFrame := at + consumed, fate := s.fate + Repeat(Delivered, consumed),
                        heard := s.heard + out, consumer := s'.consumer)
            && (s'.consumer.TakeShort? || s'.consumer.TakeReturned?)
            && s'.consumer.count == count && s'.consumer.at == at && s'.consumer.consumed == consumed
            && s'.consumer.out == out + Repeat(c.Silence(), count - consumed)
  {
    hide Place, Slot, ProducerOk, ObserverOk, QueueStored, DeliveredFrames;
    var out := s.consumer.out;
    assert out + Repeat(c.Silence(), 0) == out;
  }

  lemma TakeSwapWon(c: Config, s: State, s': State)
    requires Inv(c, s) && s.consumer.TakeCopying?
    requires |s.consumer.out| == s.consumer.consumed && s.readFrame == s.consumer.at
    requires s' == StepTake(c, s, TakeSwap)
    ensures Inv(c, s')
  {
    TakeSwapResult(c, s, s');
    OutIsQueued(c, s);
    ReadMoved(c, s, s');
    SwapPlays(c, s, s');
    hide ProducerOk, ConsumerOk, ObserverOk, QueueStored, StepTake, DeliveredFrames;
    FateAppended(s.log, s.fate, Delivered, s.consumer.consumed);
  }

  // While the read counter has not moved, a finished copy is the head of the queue.
  lemma OutIsQueued(c: Config, s: State)
    requires Inv(c, s) && s.consumer.TakeCopying?
    requires |s.consumer.out| == s.consumer.consumed && s.readFrame == s.consumer.at
    ensures s.consumer.at + s.consumer.consumed <= |s.log|
    ensures s.consumer.out == s.log[s.consumer.at..s.consumer.at + s.consumer.consumed]
  {}

  lemma SwapPlays(c: Config, s: State, s': State)
    requires Inv(c, s) && s.consumer.TakeCopying?
    requires |s.consumer.out| == s.consumer.consumed && s.readFrame == s.consumer.at
    requires s' == StepTake(c, s, TakeSwap) && Counters(c, s')
    ensures ConsumerOk(c, s')
  {
    TakeSwapResult(c, s, s');
    OutIsQueued(c, s);
    hide StepTake, ProducerOk, ObserverOk, QueueStored, DeliveredFrames;
    assert Kept(s', s.consumer.at, s.consumer.consumed);
  }

  lemma TakeSwapKeepsInv(c: Config, s: State)
    requires Inv(c, s) && s.consumer.TakeCopying?
    ensures Inv(c, StepTake(c, s, TakeSwap))
  {
    var TakeCopying(count, at, consumed, out) := s.consumer;
    var s' := StepTake(c, s, TakeSwap);
    if |out| == consumed {
      if s.readFrame == at {
        TakeSwapWon(c, s, s');
      } else {
        SameShared(c, s, s');
        assert s.log[at..at] + Repeat(c.Silence(), count) == Repeat(c.Silence(), count);
      }
    }
  }

  lemma TakeLoadKeepsInv(c: Config, s: State)
    requires Inv(c, s) && s.consumer.TakeLoaded?
    ensures Inv(c, StepTake(c, s, TakeLoadWrite))
  {
    var s' := StepTake(c, s, TakeLoadWrite);
    SameShared(c, s, s');
    assert s'.consumer.consumed <= Distance(s.Write(), s.consumer.at) <= s.Write() - s.consumer.at;
  }

  lemma TakeReportKeepsInv(c: Config, s: State, a: Action)
    requires Inv(c, s) && (a.TakeBegin? || a.TakeCheck?)
    ensures Inv(c, StepTake(c, s, a))
  {
    hide Slot, Place;
    SameShared(c, s, StepTake(c, s, a));
  }

  lemma TakeCountKeepsInv(c: Config, s: State)
    requires Inv(c, s)
    ensures Inv(c, StepTake(c, s, TakeCount))
  {
    SameShared(c, s, StepTake(c, s, TakeCount));
  }

  lemma TakeKeepsInv(c: Config, s: State, a: Action)
    requires Inv(c, s)
    ensures Inv(c, StepTake(c, s, a))
  {
    match (a, s.consumer)
    case (TakeBegin(_), _) => TakeReportKeepsInv(c, s, a);
    case (TakeLoadWrite, TakeLoaded(_, _)) => TakeLoadKeepsInv(c, s);
    case (TakeCopy, TakeCopying(_, _, _, _)) => TakeCopyKeepsInv(c, s);
    case (TakeSwap, TakeCopying(_, _, _, _)) => TakeSwapKeepsInv(c, s);
    case (TakeCheck, _) => TakeReportKeepsInv(c, s, a);
    case (TakeCount, _) => TakeCountKeepsInv(c, s);
    case _ =>
  }

  lemma StopFinishKeepsInv(c: Config, s: State)
    requires Inv(c, s) && s.controller.Stopping?
    ensures Inv(c, StepControl(c, s, StopFinish))
  {
    var s' := StepControl(c, s, StopFinish);
    FateAppended(s.log, s.fate, Discarded, s.Write() - s.readFrame);
    ReadMoved(c, s, s');
  }

  lemma GateKeepsInv(c: Config, s: State, a: Action)
    requires Inv(c, s) && (a.Start? || a.StopBegin?)
    ensures Inv(c, StepControl(c, s, a))
  {
    MaskAccepting(s.Write());
    SameShared(c, s, StepControl(c, s, a));
  }

  lemma QueryKeepsInv(c: Config, s: State, a: Action)
    requires Inv(c, s) && (a.QueryBegin? || a.QueryFinish?)
    ensures Inv(c, StepControl(c, s, a))
  {
    SameShared(c, s, StepControl(c, s, a));
  }

  lemma ControlKeepsInv(c: Config, s: State, a: Action)
    requires Inv(c, s)
    ensures Inv(c, StepControl(c, s, a))
  {
    match a
    case Start => GateKeepsInv(c, s, a);
    case StopBegin => GateKeepsInv(c, s, a);
    case StopFinish => if s.controller.Stopping? { StopFinishKeepsInv(c, s); }
    case QueryBegin => QueryKeepsInv(c, s, a);
    case QueryFinish => QueryKeepsInv(c, s, a);
    case _ =>
  }

  lemma StepKeepsInv(c: Config, s: State, a: Action)
    requires Inv(c, s)
    ensures Inv(c, Step(c, s, a))
  {
    PushKeepsInv(c, s, a);
    TakeKeepsInv(c, s, a);
    ControlKeepsInv(c, s, a);
  }

  lemma {:induction false} RunKeepsInv(c: Config, s: State, actions: seq<Action>)
    requires Inv(c, s)
    ensures Inv(c, Run(c, s, actions))
    decreases |actions|
  {
    if actions != [] {
      StepKeepsInv(c, s, actions[0]);
      RunKeepsInv(c, Step(c, s, actions[0]), actions[1..]);
    }
  }

  lemma InitInv(c: Config)
    requires c.Valid()
    ensures Inv(c, Init(c))
  {}

  // ---------- Main results, over every interleaving ----------

  ghost predicate Reachable(c: Config, s: State)
    requires c.Valid()
  {
    exists actions :: Run(c, Init(c), actions) == s
  }

  lemma ReachableInv(c: Config, s: State)
    requires c.Valid() && Reachable(c, s)
    ensures Inv(c, s)
  {
    var actions :| Run(c, Init(c), actions) == s;
    InitInv(c);
    RunKeepsInv(c, Init(c), actions);
  }

  /** A consume that returns has produced frames [at, at+consumed) of the published
      log followed by silence, whatever overlapped its copy; those frames count as
      delivered, and a lost race delivers nothing. */
  lemma ConsumeDeliversPublishedFrames(c: Config, s: State)
    requires c.Valid() && Reachable(c, s) && s.consumer.TakeReturned?
    ensures var t := s.consumer;
            && t.consumed <= t.count && t.at + t.consumed <= |s.log| && |t.out| == t.count
            && t.out[..t.consumed] == s.log[t.at..t.at + t.consumed]
            && (forall i :: t.consumed <= i < t.count ==> t.out[i] == c.Silence())
            && t.at + t.consumed <= s.readFrame == |s.fate|
            && (forall i :: t.at <= i < t.at + t.consumed ==> s.fate[i] == Delivered)
  {
    ReachableInv(c, s);
    var t := s.consumer;
    assert Played(c, s, t.count, t.at, t.consumed, t.out);
    assert t.out[..t.consumed] == s.log[t.at..t.at + t.consumed];
  }

  /** A push that returns n has appended exactly the first n input frames to the log,
      and a push that returns 0 has published nothing. */
  lemma PushPublishesPrefix(c: Config, s: State)
    requires c.Valid() && Reachable(c, s) && s.producer.PushReturned?
    ensures var p := s.producer;
            p.accepted <= |p.input| && s.log == p.base + p.input[..p.accepted]
  {
    ReachableInv(c, s);
  }

  /** The counters stay within one capacity of each other; each published frame is
      exactly one of delivered (in order, once), discarded, or still queued in its slot. */
  lemma FramesAreConserved(c: Config, s: State)
    requires c.Valid() && Reachable(c, s)
    ensures s.readFrame <= s.Write() <= s.readFrame + c.capacity
    ensures |s.log| == s.Write() && |s.fate| == s.readFrame && |s.samples| == c.capacity
    ensures s.heard == DeliveredFrames(s.log, s.fate)
    ensures forall i :: s.readFrame <= i < s.Write() ==> s.samples[Place(i, c.capacity)] == s.log[i]
  {
    ReachableInv(c, s);
  }

  // Nothing shrinks and nothing recorded is revised.
  ghost predicate Extends(s: State, s': State) {
    && s.readFrame <= s'.readFrame && s.Write() <= s'.Write()
    && s.log <= s'.log && s.fate <= s'.fate && s.heard <= s'.heard
  }

  lemma PushIsMonotone(c: Config, s: State, a: Action)
    requires Inv(c, s)
    ensures Extends(s, StepPush(c, s, a))
  {
    hide QueueStored, ConsumerOk, ObserverOk, DeliveredFrames, Slot, Place;
    MaskAccepting(s.Write());
    if a.PushSwap? && s.producer.PushCopying? && s.Write() + s.producer.accepted < ACCEPTING {
      MaskAccepting(s.Write() + s.producer.accepted);
    }
  }

  lemma TakeIsMonotone(c: Config, s: State, a: Action)
    requires Inv(c, s)
    ensures Extends(s, StepTake(c, s, a))
  {
    hide QueueStored, ProducerOk, ObserverOk, DeliveredFrames, Slot, Place;
  }

  lemma ControlIsMonotone(c: Config, s: State, a: Action)
    requires Inv(c, s)
    ensures Extends(s, StepControl(c, s, a))
  {
    hide QueueStored, ProducerOk, ConsumerOk, ObserverOk, DeliveredFrames, Slot, Place;
    MaskAccepting(s.Write());
  }

  lemma StepIsMonotone(c: Config, s: State, a: Action)
    requires Inv(c, s)
    ensures Extends(s, Step(c, s, a))
  {
    PushIsMonotone(c, s, a);
    TakeIsMonotone(c, s, a);
    ControlIsMonotone(c, s, a);
    hide StepPush, StepTake, StepControl, Inv, Extends;
  }

  /** Both counters only grow, and nothing published, decided or played is ever revised. */
  lemma {:induction false} RunIsMonotone(c: Config, s: State, actions: seq<Action>)
    requires Inv(c, s)
    ensures Extends(s, Run(c, s, actions))
    decreases |actions|
  {
    if actions != [] {
      StepIsMonotone(c, s, actions[0]);
      StepKeepsInv(c, s, actions[0]);
      RunIsMonotone(c, Step(c, s, actions[0]), actions[1..]);
    }
  }

  /** The queue-length query never exceeds the capacity and never under-reports:
      its answer is at least the true length at each of its two loads. */
  lemma QueryNeverUnderReports(c: Config, s: State)
    requires c.Valid() && Reachable(c, s) && s.observer.QueryReturned?
    ensures s.observer.floor <= s.observer.queued <= c.capacity
  {
    ReachableInv(c, s);
  }

  // The other threads' steps leave the observer alone until it finishes.
  lemma {:induction false} QueryIsPrivate(c: Config, s: State, actions: seq<Action>)
    requires Inv(c, s) && s.observer.QueryLoaded? && QueryFinish !in actions
    ensures Inv(c, Run(c, s, actions)) && Run(c, s, actions).observer == s.observer
    decreases |actions|
  {
    if actions != [] {
      StepKeepsInv(c, s, actions[0]);
      OneIsPrivate(c, s, actions[0]);
      assert forall a :: a in actions[1..] ==> a in actions;
      QueryIsPrivate(c, Step(c, s, actions[0]), actions[1..]);
    }
  }

  lemma OneIsPrivate(c: Config, s: State, a: Action)
    requires c.Valid() && |s.samples| == c.capacity && s.observer.QueryLoaded? && !a.QueryFinish?
    ensures Step(c, s, a).observer == s.observer
  {
    hide Slot, Place;
  }

  /** What the query answers, whatever runs between its two loads: the frames published by the second
      load less those passed by the first, at most the capacity. So it is the queue length at the
      second load exactly when the read counter did not move in between or the queue is full. */
  lemma QueryAnswers(c: Config, s: State, between: seq<Action>)
    requires c.Valid() && Reachable(c, s) && !s.observer.QueryLoaded? && QueryFinish !in between
    ensures var later := Run(c, Step(c, s, QueryBegin), between);
            var done := Step(c, later, QueryFinish);
            && |later.log| >= |s.fate| && |later.fate| >= |s.fate|
            && done == later.(observer := done.observer) && done.observer.QueryReturned?
            && done.observer.queued == Min(|later.log| - |s.fate|, c.capacity)
            && (done.observer.queued == |later.log| - |later.fate| <==>
                |later.fate| == |s.fate| || |later.log| - |later.fate| == c.capacity)
  {
    hide QueueStored, ProducerOk, ConsumerOk, DeliveredFrames, Run, Reachable;
    ReachableInv(c, s);
    var loaded := Step(c, s, QueryBegin);
    StepKeepsInv(c, s, QueryBegin);
    QueryIsPrivate(c, loaded, between);
    RunIsMonotone(c, loaded, between);
    Finishes(c, s.readFrame, Run(c, loaded, between));
  }

  lemma Finishes(c: Config, read: nat, s: State)
    requires Inv(c, s) && s.observer.QueryLoaded? && s.observer.read == read
    ensures read <= |s.fate| <= |s.log| <= |s.fate| + c.capacity
    ensures var done := Step(c, s, QueryFinish);
            && done == s.(observer := done.observer) && done.observer.QueryReturned?
            && done.observer.queued == Min(|s.log| - read, c.capacity)
  {
    hide QueueStored, ProducerOk, ConsumerOk, DeliveredFrames;
  }

  // The producer's own steps, and the consumer's.
  predicate Pushes(a: Action) { a.PushBegin? || a.PushLoadRead? || a.PushCopy? || a.PushSwap? }
  predicate Takes(a: Action) {
    a.TakeBegin? || a.TakeLoadWrite? || a.TakeCopy? || a.TakeSwap? || a.TakeCheck? || a.TakeCount?
  }

  // Other threads leave a producer alone; its copying changes only how far it has come.
  ghost predicate SamePush(p: Producer, q: Producer) {
    p == q || (p.PushCopying? && q.PushCopying? && q == p.(copied := q.copied))
  }

  lemma OnePush(c: Config, s: State, a: Action)
    requires c.Valid() && |s.samples| == c.capacity && (!Pushes(a) || (a.PushCopy? && s.producer.PushCopying?))
    ensures SamePush(s.producer, Step(c, s, a).producer)
  {
    hide Slot, Place;
  }

  lemma {:induction false} PushIsPrivate(c: Config, s: State, actions: seq<Action>)
    requires Inv(c, s)
    requires forall a :: a in actions ==> !Pushes(a) || (a.PushCopy? && s.producer.PushCopying?)
    ensures Inv(c, Run(c, s, actions)) && SamePush(s.producer, Run(c, s, actions).producer)
    decreases |actions|
  {
    if actions != [] {
      StepKeepsInv(c, s, actions[0]);
      OnePush(c, s, actions[0]);
      assert forall a :: a in actions[1..] ==> a in actions;
      PushIsPrivate(c, Step(c, s, actions[0]), actions[1..]);
    }
  }

  /** A push of nothing, or to a ring that does not accept, returns 0 at once. */
  lemma PushRefused(c: Config, s: State, input: seq<Frame>)
    requires Inv(c, s) && |input| < UINT32 && (s.producer.PushIdle? || s.producer.PushReturned?)
    ensures var begun := Step(c, s, PushBegin(input)).producer;
            if input == [] || !s.Accepts() then begun == PushReturned(input, s.log, 0)
            else begun == PushLoaded(input, s.log, s.writeState)
  {
    hide Slot, Place, QueueStored, ConsumerOk, ObserverOk, DeliveredFrames;
  }

  /** What any other push answers, whatever overlaps it: with `first` before its load of the read
      counter and `second`, which copies the frames, before its swap, it accepts what has room at
      that load, unless a stop or a restart came before the swap. */
  lemma PushAnswers(c: Config, s: State, input: seq<Frame>, first: seq<Action>, second: seq<Action>)
    requires c.Valid() && Reachable(c, s) && (s.producer.PushIdle? || s.producer.PushReturned?)
    requires s.Accepts() && 0 < |input| < UINT32
    requires forall a :: a in first ==> !Pushes(a)
    requires forall a :: a in second ==> !Pushes(a) || a.PushCopy?
    ensures var loaded := Run(c, Step(c, s, PushBegin(input)), first);
            var reserved := Step(c, loaded, PushLoadRead);
            var copied := Run(c, reserved, second);
            && |loaded.fate| <= |s.log| <= |loaded.fate| + c.capacity
            && var room := Min(|input|, c.capacity - (|s.log| - |loaded.fate|));
            if room == 0 then reserved.producer == PushReturned(input, s.log, 0)
            else
              && copied.producer.PushCopying? && copied.producer.accepted == room
              && (copied.producer.copied == room && |s.log| + room < ACCEPTING ==>
                  Step(c, copied, PushSwap).producer ==
                  PushReturned(input, s.log, if copied.writeState == s.writeState then room else 0))
  {
    hide Inv, Counters, QueueStored, ProducerOk, ConsumerOk, Run, Reachable, Step;
    ReachableInv(c, s);
    Near(c, s);
    var begun := Step(c, s, PushBegin(input));
    PushRefused(c, s, input);
    StepKeepsInv(c, s, PushBegin(input));
    PushIsPrivate(c, begun, first);
    var loaded := Run(c, begun, first);
    PushLoads(c, loaded);
    StepKeepsInv(c, loaded, PushLoadRead);
    var reserved := Step(c, loaded, PushLoadRead);
    if reserved.producer.PushCopying? {
      PushIsPrivate(c, reserved, second);
      PushSwaps(c, Run(c, reserved, second));
    }
  }

  lemma PushLoads(c: Config, s: State)
    requires Inv(c, s) && s.producer.PushLoaded?
    ensures var PushLoaded(input, base, word) := s.producer;
            && base == s.log && |s.fate| <= |s.log| <= |s.fate| + c.capacity
            && var room := Min(|input|, c.capacity - (|s.log| - |s.fate|));
            Step(c, s, PushLoadRead).producer ==
            if room == 0 then PushReturned(input, base, 0) else PushCopying(input, base, word, room, 0)
  {
    hide Slot, Place, QueueStored, ConsumerOk, ObserverOk, DeliveredFrames;
    MaskAccepting(s.Write());
  }

  lemma PushSwaps(c: Config, s: State)
    requires Inv(c, s) && s.producer.PushCopying?
    ensures var PushCopying(input, base, word, accepted, copied) := s.producer;
            && base == s.log
            && (copied == accepted && |s.log| + accepted < ACCEPTING ==>
                Step(c, s, PushSwap).producer ==
                PushReturned(input, base, if s.writeState == word then accepted else 0))
  {
    hide Slot, Place, QueueStored, ConsumerOk, ObserverOk, DeliveredFrames;
    MaskAccepting(s.Write());
  }

  // Other threads leave a consumer alone; its copying changes only what it has so far.
  ghost predicate SameTake(t: Consumer, u: Consumer) {
    t == u || (t.TakeCopying? && u.TakeCopying? && u == TakeCopying(t.count, t.at, t.consumed, u.out))
  }

  lemma OneTake(c: Config, s: State, a: Action)
    requires c.Valid() && |s.samples| == c.capacity && (!Takes(a) || (a.TakeCopy? && s.consumer.TakeCopying?))
    ensures SameTake(s.consumer, Step(c, s, a).consumer)
  {
    hide Slot, Place;
  }

  lemma {:induction false} TakeIsPrivate(c: Config, s: State, actions: seq<Action>)
    requires Inv(c, s)
    requires forall a :: a in actions ==> !Takes(a) || (a.TakeCopy? && s.consumer.TakeCopying?)
    ensures Inv(c, Run(c, s, actions)) && SameTake(s.consumer, Run(c, s, actions).consumer)
    decreases |actions|
  {
    if actions != [] {
      StepKeepsInv(c, s, actions[0]);
      OneTake(c, s, actions[0]);
      assert forall a :: a in actions[1..] ==> a in actions;
      TakeIsPrivate(c, Step(c, s, actions[0]), actions[1..]);
    }
  }

  /** What a consume answers, whatever overlaps it: with `first` before its load of the write counter
      and `second`, which copies the frames, before its swap, it takes what was published by that
      load and not passed at its start, and nothing if the read counter moved before the swap. */
  lemma ConsumeAnswers(c: Config, s: State, count: nat, first: seq<Action>, second: seq<Action>)
    requires c.Valid() && Reachable(c, s) && 0 < count < UINT32 && (s.consumer.TakeIdle? || s.consumer.TakeReturned?)
    requires forall a :: a in first ==> !Takes(a)
    requires forall a :: a in second ==> !Takes(a) || a.TakeCopy?
    ensures var loaded := Run(c, Step(c, s, TakeBegin(count)), first);
            var copied := Run(c, Step(c, loaded, TakeLoadWrite), second);
            && |s.fate| <= |loaded.log| && copied.consumer.TakeCopying?
            && (|copied.consumer.out| == copied.consumer.consumed ==>
                var done := Step(c, copied, TakeSwap).consumer;
                && (done.TakeShort? || done.TakeReturned?)
                && done.consumed == (if |copied.fate| == |s.fate| then Min(count, |loaded.log| - |s.fate|) else 0)
                && (done.TakeShort? <==> |copied.fate| == |s.fate| && done.consumed < count))
  {
    hide Inv, Counters, QueueStored, ProducerOk, ConsumerOk, Run, Reachable, Step;
    ReachableInv(c, s);
    Near(c, s);
    var begun := Step(c, s, TakeBegin(count));
    TakeBegins(c, s, count);
    StepKeepsInv(c, s, TakeBegin(count));
    TakeIsPrivate(c, begun, first);
    RunIsMonotone(c, begun, first);
    var loaded := Run(c, begun, first);
    TakeLoads(c, loaded);
    StepKeepsInv(c, loaded, TakeLoadWrite);
    var reserved := Step(c, loaded, TakeLoadWrite);
    TakeIsPrivate(c, reserved, second);
    RunIsMonotone(c, reserved, second);
    var copied := Run(c, reserved, second);
    Near(c, loaded);
    WholeClaim(|loaded.log| - |s.fate|, c.capacity, count);
    if |copied.consumer.out| == copied.consumer.consumed { TakeSwaps(c, copied); }
  }

  lemma TakeBegins(c: Config, s: State, count: nat)
    requires Inv(c, s) && 0 < count < UINT32 && (s.consumer.TakeIdle? || s.consumer.TakeReturned?)
    ensures Step(c, s, TakeBegin(count)) == s.(consumer := TakeLoaded(count, |s.fate|))
  {
    hide Slot, Place, QueueStored, ProducerOk, ObserverOk, DeliveredFrames;
  }

  lemma TakeLoads(c: Config, s: State)
    requires Inv(c, s) && s.consumer.TakeLoaded?
    ensures var TakeLoaded(count, at) := s.consumer;
            && at <= |s.fate| <= |s.log|
            && Step(c, s, TakeLoadWrite) ==
               s.(consumer := TakeCopying(count, at, Min(count, Min((|s.log| - at) % UINT32, c.capacity)), []))
  {
    hide Slot, Place, QueueStored, ProducerOk, ObserverOk, DeliveredFrames;
  }

  lemma TakeSwaps(c: Config, s: State)
    requires Inv(c, s) && s.consumer.TakeCopying? && |s.consumer.out| == s.consumer.consumed
    ensures var TakeCopying(count, at, consumed, out) := s.consumer;
            var done := Step(c, s, TakeSwap).consumer;
            && (done.TakeShort? || done.TakeReturned?) && (done.TakeShort? <==> |s.fate| == at && consumed < count)
            && done.consumed == if |s.fate| == at then consumed else 0
  {
    hide Slot, Place, QueueStored, ProducerOk, ObserverOk, DeliveredFrames;
  }

  // While the read counter stands still, what was published cannot be far ahead of it.
  lemma Near(c: Config, s: State)
    requires Inv(c, s)
    ensures |s.samples| == c.capacity && |s.fate| == s.readFrame && |s.log| - |s.fate| <= c.capacity < UINT32
  {}

  lemma WholeClaim(n: nat, capacity: nat, count: nat)
    requires capacity < UINT32
    ensures n <= capacity ==> Min(count, Min(n % UINT32, capacity)) == Min(count, n)
  {}
}
