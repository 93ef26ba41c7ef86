/**
  The ring as the C code holds it: a sample array and three counters changed in place.
  Each method is one uninterrupted call. Its ghost field `m` is the machine of AudioRing
  and moves only by that machine's steps, one beside each atomic operation and each
  copied frame, so what AudioRing proves for every interleaving covers the code here.
  The contracts state what a call does to the queue when nothing overlaps it.
*/
module AudioRingBuffer {
  import opened AudioRing
  import opened CInts

  class Ring {
    const c: Config
    const samples: array<Frame>
    var readFrame: nat
    var writeState: nat
    var underruns: nat
    ghost var m: State

    ghost predicate Matches()
      reads this, samples
    {
      && Inv(c, m)
      && samples[..] == m.samples
      && readFrame == m.readFrame && writeState == m.writeState && underruns == m.underruns
    }

    // Between calls no thread is in the middle of anything.
    ghost predicate Valid()
      reads this, samples
    {
      && Matches()
      && (m.producer.PushIdle? || m.producer.PushReturned?)
      && (m.consumer.TakeIdle? || m.consumer.TakeReturned?)
      && m.controller.ControlIdle? && !m.observer.QueryLoaded?
    }

    // The queued frames, oldest first.
    ghost function Queue(): seq<Frame>
      requires Valid()
      reads this, samples
    {
      m.log[m.readFrame..]
    }

    constructor (c: Config)
      requires c.Valid()
      ensures Valid() && this.c == c && Queue() == [] && writeState < ACCEPTING
      ensures fresh(samples)
    {
      this.c := c;
      samples := new Frame[c.capacity](i => c.Silence());
      readFrame, writeState, underruns := 0, 0, 0;
      m := Init(c);
      InitInv(c);
    }

    ghost method Take(a: Action)
      requires Inv(c, m)
      modifies this`m
      ensures Inv(c, m) && m == Step(c, old(m), a)
    {
      StepKeepsInv(c, m, a);
      m := Step(c, m, a);
    }

    // The two loads of a push; answers how many frames it may copy.
    method ReserveRoom(input: seq<Frame>) returns (word: nat, accepted: nat)
      requires Valid() && |input| < UINT32
      modifies this`m
      ensures Matches() && word == writeState
      ensures accepted == if writeState < ACCEPTING then 0 else Min(|input|, c.capacity - |old(Queue())|)
      ensures m == old(m).(producer := if accepted == 0 then PushReturned(input, m.log, 0)
                                       else PushCopying(input, m.log, word, accepted, 0))
    {
      hide QueueStored, ConsumerOk, ObserverOk, DeliveredFrames;
      Take(PushBegin(input));
      word := writeState;
      if input == [] || word < ACCEPTING { return word, 0; }
      Take(PushLoadRead);
      var free := c.capacity - Min(Distance(word % ACCEPTING, readFrame), c.capacity);
      accepted := Min(|input|, free);
    }

    // The two memcpy calls of a push.
    method CopyIn(input: seq<Frame>, word: nat, accepted: nat)
      requires Matches() && accepted <= |input|
      requires m.producer == PushCopying(input, m.log, word, accepted, 0)
      modifies this`m, samples
      ensures Matches()
      ensures m == old(m).(samples := m.samples, producer := PushCopying(input, m.log, word, accepted, accepted))
    {
      for k := 0 to accepted
        invariant Matches()
        invariant m == old(m).(samples := m.samples, producer := PushCopying(input, m.log, word, accepted, k))
      {
        Take(PushCopy);
        samples[Slot(c, word % ACCEPTING, k, accepted)] := input[k];
      }
    }

    method Push(input: seq<Frame>) returns (accepted: nat)
      requires Valid() && |input| < UINT32
      requires writeState % ACCEPTING + |input| < ACCEPTING
      modifies this`m, this`writeState, samples
      ensures Valid()
      ensures accepted == if old(writeState) < ACCEPTING then 0
                          else Min(|input|, c.capacity - |old(Queue())|)
      ensures Queue() == old(Queue()) + input[..accepted]
    {
      hide QueueStored, ConsumerOk, ObserverOk, DeliveredFrames;
      var word;
      word, accepted := ReserveRoom(input);
      if accepted > 0 {
        CopyIn(input, word, accepted);
        Take(PushSwap);
        writeState := ACCEPTING + (word % ACCEPTING + accepted);
        assert m.log == old(m).log + input[..accepted];
      }
    }

    // The two loads of a consume; answers how many frames it may copy.
    method FindQueued(count: nat) returns (read: nat, consumed: nat)
      requires Valid() && 0 < count < UINT32
      modifies this`m
      ensures Matches() && read == readFrame <= |m.log|
      ensures consumed == Min(count, |old(Queue())|)
      ensures m == old(m).(consumer := TakeCopying(count, read, consumed, []))
    {
      hide QueueStored, ProducerOk, ObserverOk, DeliveredFrames, Slot, StepPush, StepControl;
      Take(TakeBegin(count));
      read := readFrame;
      Take(TakeLoadWrite);
      consumed := Min(count, Min(Distance(writeState % ACCEPTING, read), c.capacity));
    }

    // The two memcpy calls of a consume.
    method CopyOut(count: nat, at: nat, consumed: nat) returns (out: seq<Frame>)
      requires Matches() && m.consumer == TakeCopying(count, at, consumed, [])
      modifies this`m
      ensures Matches()
      ensures |out| == consumed && m == old(m).(consumer := TakeCopying(count, at, consumed, out))
    {
      out := [];
      for k := 0 to consumed
        invariant Matches() && |out| == k
        invariant m == old(m).(consumer := TakeCopying(count, at, consumed, out))
      {
        Take(TakeCopy);
        out := out + [samples[Slot(c, at, k, consumed)]];
      }
    }

    // The swap that claims the copied frames; nothing moved meanwhile, so it wins.
    method Advance(count: nat, read: nat, consumed: nat, out: seq<Frame>)
      requires Matches() && read == readFrame && |out| == consumed
      requires m.consumer == TakeCopying(count, read, consumed, out)
      modifies this`m, this`readFrame
      ensures Matches()
      ensures m.log == old(m).log && m.readFrame == read + consumed && m.producer == old(m).producer
      ensures m.controller == old(m).controller && m.observer == old(m).observer
      ensures m.consumer == if consumed < count
                then TakeShort(count, read, consumed, out + Repeat(c.Silence(), count - consumed))
                else TakeReturned(count, read, consumed, out)
      ensures out == m.log[read..read + consumed]
    {
      Take(TakeSwap);
      readFrame := read + consumed;
    }

    // After a short consume: silence to the end, and an underrun if still accepting.
    method FillSilence(count: nat, consumed: nat, out: seq<Frame>) returns (filled: seq<Frame>)
      requires Matches() && m.consumer.TakeShort? && consumed < count
      modifies this`m, this`underruns
      ensures Matches()
      ensures underruns == if writeState >= ACCEPTING then (old(underruns) + 1) % UINT32 else old(underruns)
      ensures var t := old(m).consumer;
              m == old(m).(underruns := underruns, consumer := TakeReturned(t.count, t.at, t.consumed, t.out))
      ensures filled == out + Repeat(c.Silence(), count - consumed)
    {
      filled := out + Repeat(c.Silence(), count - consumed);
      Take(TakeCheck);
      if writeState >= ACCEPTING {
        Take(TakeCount);
        underruns := (underruns + 1) % UINT32;
      }
    }

    // A consume of no frames returns at once.
    ghost method ConsumeNothing()
      requires Valid()
      modifies this`m
      ensures Valid() && Queue() == old(Queue())
    {
      Take(TakeBegin(0));
    }

    method Consume(count: nat) returns (consumed: nat, out: seq<Frame>)
      requires Valid() && count < UINT32
      modifies this`m, this`readFrame, this`underruns
      ensures Valid()
      ensures consumed == Min(count, |old(Queue())|)
      ensures out == old(Queue())[..consumed] + Repeat(c.Silence(), count - consumed)
      ensures Queue() == old(Queue())[consumed..]
      ensures underruns == if consumed < count && writeState >= ACCEPTING
                           then (old(underruns) + 1) % UINT32 else old(underruns)
    {
      hide Inv, Step;
      if count == 0 {
        ConsumeNothing();
        return 0, [];
      }
      var read;
      read, consumed := FindQueued(count);
      QueueParts(m.log, read, consumed);
      out := CopyOut(count, read, consumed);
      Advance(count, read, consumed, out);
      if consumed < count {
        out := FillSilence(count, consumed, out);
      }
    }

    method Queued() returns (queued: nat)
      requires Valid()
      modifies this`m
      ensures Valid() && queued == |Queue()| && Queue() == old(Queue())
    {
      hide QueueStored, ProducerOk, ConsumerOk, DeliveredFrames;
      Take(QueryBegin);
      var read := readFrame;
      Take(QueryFinish);
      queued := Ahead(writeState % ACCEPTING, read);
      if queued > c.capacity { queued := c.capacity; }
      assert m.observer.QueryReturned? && m.observer.queued == queued;
    }

    method SetAccepting(accepting: bool)
      requires Valid()
      modifies this`m, this`writeState, this`readFrame
      ensures Valid()
      ensures writeState % ACCEPTING == old(writeState) % ACCEPTING
      ensures (writeState >= ACCEPTING) == accepting
      ensures Queue() == if accepting then old(Queue()) else []
    {
      hide QueueStored, ProducerOk, ConsumerOk, ObserverOk, DeliveredFrames;
      if accepting {
        Take(Start);
        writeState := if writeState >= ACCEPTING then writeState else writeState + ACCEPTING;
      } else {
        Take(StopBegin);
        writeState := writeState % ACCEPTING;
        Take(StopFinish);
        readFrame := writeState;
      }
    }
  }

  lemma QueueParts(log: seq<Frame>, read: nat, consumed: nat)
    requires read + consumed <= |log|
    ensures log[read..][..consumed] == log[read..read + consumed] && log[read..][consumed..] == log[read + consumed..]
  {}
}
