/**
  Asset loading tasks (runtime/stasis_graphics.c): a table of 64 task slots shared by one
  worker thread and one caller thread under a mutex.

  Every critical section is one step. Decoding and publishing run outside the lock and are
  steps of their own, so the other thread may act in between. Decoded payloads and
  published handles are tokens numbered in the order they come into being; `ended` records
  the ones that were freed, released or handed to the caller.
*/
module AssetTasks {
  import opened Options

  const CAPACITY: nat := 64

  datatype Kind = Sprite | Audio

  datatype Status = Vacant | Pending | Loading | Loaded | Failed | Cancelled | Decoded | Publishing

  // `sync` marks audio decoded by the caller itself while a recording is made.
  datatype Task = Task(status: Status, id: nat, kind: Kind, sync: bool, releaseRequested: bool,
                       payload: Option<nat>, handle: Option<nat>)

  const VACANT := Task(Vacant, 0, Sprite, false, false, None, None)

  datatype Worker =
    | Waiting
    | Decoding(slot: nat, id: nat)
    | Holding(slot: nat, id: nat, result: Option<nat>)

  datatype Caller =
    | Idle
    | SyncDecoding(slot: nat, id: nat)
    | SyncHolding(slot: nat, id: nat, result: Option<nat>)
    | Publisher(slot: nat, id: nat)
    | Publicist(slot: nat, id: nat, handle: Option<nat>)

  datatype State = State(
    slots: seq<Task>, nextId: nat, worker: Worker, caller: Caller,
    tokens: nat, ended: multiset<nat>, cancelled: set<nat>)

  datatype Action =
    | WorkerClaim | WorkerDecode(ok: bool) | WorkerFinish
    | Request(kind: Kind, recording: bool) | SyncDecode(ok: bool) | SyncFinish
    | PollBegin(id: nat, stale: bool) | Publish(ok: bool, kept: bool) | PollEnd
    | TakeHandle(id: nat) | Cancel(id: nat)

  function Init(): State {
    State(seq(CAPACITY, i => VACANT), 1, Waiting, Idle, 0, multiset{}, {})
  }

  // The first slot from i on with the status, or |slots|.
  function FirstWith(slots: seq<Task>, status: Status, i: nat): (r: nat)
    requires i <= |slots|
    ensures i <= r <= |slots|
    ensures r < |slots| ==> slots[r].status == status
    ensures forall j :: i <= j < r ==> slots[j].status != status
    decreases |slots| - i
  {
    if i == |slots| || slots[i].status == status then i else FirstWith(slots, status, i + 1)
  }

  // stasis_asset_task_find_locked
  function Find(slots: seq<Task>, id: nat, i: nat): (r: nat)
    requires i <= |slots|
    ensures i <= r <= |slots|
    ensures r < |slots| ==> slots[r].id == id && slots[r].status != Vacant
    ensures forall j :: i <= j < r ==> slots[j].id != id || slots[j].status == Vacant
    decreases |slots| - i
  {
    if i == |slots| || (slots[i].id == id && slots[i].status != Vacant) then i else Find(slots, id, i + 1)
  }

  function Bag(o: Option<nat>): multiset<nat> {
    match o case None => multiset{} case Some(t) => multiset{t}
  }

  // stasis_asset_task_clear, after the handle has been taken out: the payload is freed.
  function Cleared(s: State, slot: nat): State
    requires slot < |s.slots|
  {
    s.(slots := s.slots[slot := VACANT], ended := s.ended + Bag(s.slots[slot].payload))
  }

  function StepWorker(s: State, a: Action): State
    requires |s.slots| == CAPACITY
  {
    match (a, s.worker)
    case (WorkerClaim, Waiting) =>
      if FirstWith(s.slots, Decoded, 0) < CAPACITY then s
      else
        var slot := FirstWith(s.slots, Pending, 0);
        if slot == CAPACITY then s
        else s.(slots := s.slots[slot := s.slots[slot].(status := Loading)],
                worker := Decoding(slot, s.slots[slot].id))
    case (WorkerDecode(ok), Decoding(slot, id)) =>
      if ok then s.(worker := Holding(slot, id, Some(s.tokens)), tokens := s.tokens + 1)
      else s.(worker := Holding(slot, id, None))
    case (WorkerFinish, Holding(slot, id, result)) =>
      if slot >= CAPACITY then s else
      var task, s1 := s.slots[slot], s.(worker := Waiting);
      if task.id != id || task.releaseRequested || task.status == Cancelled then
        Cleared(s1.(ended := s1.ended + Bag(result)), slot)
      else if result.None? then s1.(slots := s.slots[slot := task.(status := Failed)])
      else s1.(slots := s.slots[slot := task.(status := Decoded, payload := result)])
    case _ => s
  }

  function StepRequest(s: State, a: Action): State
    requires |s.slots| == CAPACITY
  {
    match (a, s.caller)
    case (Request(kind, recording), Idle) =>
      var slot := FirstWith(s.slots, Vacant, 0);
      if slot == CAPACITY then s
      else
        var sync := kind == Audio && recording;
        var task := Task(if sync then Loading else Pending, s.nextId, kind, sync, false, None, None);
        s.(slots := s.slots[slot := task], nextId := s.nextId + 1,
           caller := if sync then SyncDecoding(slot, s.nextId) else Idle)
    case (SyncDecode(ok), SyncDecoding(slot, id)) =>
      if ok then s.(caller := SyncHolding(slot, id, Some(s.tokens)), tokens := s.tokens + 1)
      else s.(caller := SyncHolding(slot, id, None))
    case (SyncFinish, SyncHolding(_, id, result)) =>
      var slot, s1 := Find(s.slots, id, 0), s.(caller := Idle);
      if slot == CAPACITY then s1.(ended := s.ended + Bag(result))
      else
        var task := s.slots[slot];
        if task.releaseRequested || task.status == Cancelled then
          Cleared(s1.(ended := s.ended + Bag(result)), slot)
        else if result.None? then s1.(slots := s.slots[slot := task.(status := Failed)])
        else s1.(slots := s.slots[slot := task.(status := Decoded, payload := result)])
    case _ => s
  }

  /** Publishing moves the payload out of the task into a handle. When it fails the payload
      is either freed by the callee or (`kept`) left in the task. */
  function StepPoll(s: State, a: Action): State
    requires |s.slots| == CAPACITY
  {
    match (a, s.caller)
    case (PollBegin(id, stale), Idle) =>
      var slot := Find(s.slots, id, 0);
      if slot == CAPACITY || s.slots[slot].status != Decoded then s
      else
        var task := s.slots[slot];
        if task.kind == Sprite && stale then
          s.(slots := s.slots[slot := task.(status := Pending, payload := None)],
             ended := s.ended + Bag(task.payload))
        else s.(slots := s.slots[slot := task.(status := Publishing)], caller := Publisher(slot, id))
    case (Publish(ok, kept), Publisher(slot, id)) =>
      if slot >= CAPACITY then s else
      var task := s.slots[slot];
      var spent := s.(slots := s.slots[slot := task.(payload := None)], ended := s.ended + Bag(task.payload));
      if ok then spent.(caller := Publicist(slot, id, Some(s.tokens)), tokens := s.tokens + 1)
      else if kept then s.(caller := Publicist(slot, id, None))
      else spent.(caller := Publicist(slot, id, None))
    case (PollEnd, Publicist(_, id, handle)) =>
      var slot, s1 := Find(s.slots, id, 0), s.(caller := Idle);
      if slot == CAPACITY then s1  // the handle would be lost
      else
        var task := s.slots[slot].(handle := handle, status := if handle.Some? then Loaded else Failed);
        s1.(slots := s.slots[slot := task])
    case _ => s
  }

  function StepRelease(s: State, a: Action): State
    requires |s.slots| == CAPACITY
  {
    match (a, s.caller)
    case (TakeHandle(id), Idle) =>
      var slot := Find(s.slots, id, 0);
      if slot == CAPACITY || s.slots[slot].status != Loaded then s
      else Cleared(s.(ended := s.ended + Bag(s.slots[slot].handle)), slot)
    case (Cancel(id), Idle) =>
      var slot, s1 := Find(s.slots, id, 0), s.(cancelled := s.cancelled + {id});
      if slot == CAPACITY then s1
      else
        var task := s.slots[slot];
        if task.status == Loading || task.status == Publishing then
          s1.(slots := s.slots[slot := task.(releaseRequested := true, status := Cancelled)])
        else Cleared(s1.(ended := s.ended + Bag(task.handle)), slot)
    case _ => s
  }

  function Step(s: State, a: Action): State
    requires |s.slots| == CAPACITY
    ensures |Step(s, a).slots| == CAPACITY
  {
    match a
    case WorkerClaim => StepWorker(s, a)
    case WorkerDecode(_) => StepWorker(s, a)
    case WorkerFinish => StepWorker(s, a)
    case Request(_, _) => StepRequest(s, a)
    case SyncDecode(_) => StepRequest(s, a)
    case SyncFinish => StepRequest(s, a)
    case PollBegin(_, _) => StepPoll(s, a)
    case Publish(_, _) => StepPoll(s, a)
    case PollEnd => StepPoll(s, a)
    case TakeHandle(_) => StepRelease(s, a)
    case Cancel(_) => StepRelease(s, a)
  }

  function Run(s: State, actions: seq<Action>): State
    requires |s.slots| == CAPACITY
    ensures |Run(s, actions).slots| == CAPACITY
    decreases |actions|
  {
    if actions == [] then s else Run(Step(s, actions[0]), actions[1..])
  }

  // ---------- Invariant ----------

  // Live ids are distinct and below nextId; a vacant slot owns nothing.
  ghost predicate IdsOk(s: State) {
    && |s.slots| == CAPACITY && 0 < s.nextId
    && (forall i :: 0 <= i < CAPACITY && s.slots[i].status != Vacant ==> 0 < s.slots[i].id < s.nextId)
    && (forall i, j :: 0 <= i < j < CAPACITY && s.slots[i].status != Vacant && s.slots[j].status != Vacant ==>
          s.slots[i].id != s.slots[j].id)
    && (forall i :: 0 <= i < CAPACITY && s.slots[i].status == Vacant ==> s.slots[i] == VACANT)
  }

  // The slot the worker is decoding for, if any.
  function Claimed(s: State): Option<nat> {
    match s.worker
    case Waiting => None
    case Decoding(slot, _) => Some(slot)
    case Holding(slot, _, _) => Some(slot)
  }

  // While the worker holds a slot nobody clears or reuses it.
  ghost predicate WorkerHoldsSlot(s: State)
    requires |s.slots| == CAPACITY
  {
    s.worker.Waiting? ||
    (s.worker.slot < CAPACITY &&
     var t := s.slots[s.worker.slot];
     t.id == s.worker.id && !t.sync && (t.status == Loading || t.status == Cancelled))
  }

  // Between its critical sections the caller's task stays where it was.
  ghost predicate CallerHoldsTask(s: State)
    requires |s.slots| == CAPACITY
  {
    s.caller.Idle? ||
    (s.caller.slot < CAPACITY &&
     var t := s.slots[s.caller.slot];
     && t.id == s.caller.id
     && (s.caller.SyncDecoding? || s.caller.SyncHolding? ==> t.status == Loading && t.sync)
     && (s.caller.Publisher? || s.caller.Publicist? ==> t.status == Publishing)
     && (s.caller.Publicist? && s.caller.handle.Some? ==> t.payload.None?))
  }

  // Which thread a slot is waiting for, what it owns, and that it was cancelled if it says so.
  ghost predicate SlotOk(s: State, i: nat)
    requires |s.slots| == CAPACITY && i < CAPACITY
  {
    var t := s.slots[i];
    && (t.status == Loading && !t.sync ==> Claimed(s) == Some(i))
    && (t.status == Publishing || (t.status == Loading && t.sync) ==> !s.caller.Idle? && s.caller.slot == i)
    && (t.status == Cancelled ==> t.releaseRequested && t.id in s.cancelled && Claimed(s) == Some(i))
    && (t.releaseRequested ==> t.status == Cancelled)
    && (t.sync ==> t.kind == Audio && t.status != Pending)
    && (t.payload.Some? ==> t.status in {Decoded, Publishing, Failed})
    && (t.handle.Some? ==> t.status == Loaded)
  }

  ghost predicate SlotsOk(s: State)
    requires |s.slots| == CAPACITY
  {
    forall i :: 0 <= i < CAPACITY ==> SlotOk(s, i)
  }

  // At most one payload decoded by the worker is waiting or on its way.
  ghost predicate OneInFlight(s: State)
    requires |s.slots| == CAPACITY
  {
    && (forall i :: 0 <= i < CAPACITY && !s.worker.Waiting? ==> !(s.slots[i].status == Decoded && !s.slots[i].sync))
    && (forall i, j :: 0 <= i < j < CAPACITY ==>
          !(s.slots[i].status == Decoded && !s.slots[i].sync && s.slots[j].status == Decoded && !s.slots[j].sync))
  }

  // ---------- Ownership ----------

  function Has(o: Option<nat>, token: nat): nat { if o == Some(token) then 1 else 0 }

  function InTask(t: Task, token: nat): nat { Has(t.payload, token) + Has(t.handle, token) }

  function InSlots(slots: seq<Task>, token: nat): nat {
    if slots == [] then 0 else InSlots(slots[..|slots| - 1], token) + InTask(slots[|slots| - 1], token)
  }

  function InWorker(w: Worker, token: nat): nat {
    if w.Holding? then Has(w.result, token) else 0
  }

  function InCaller(c: Caller, token: nat): nat {
    match c
    case SyncHolding(_, _, r) => Has(r, token)
    case Publicist(_, _, h) => Has(h, token)
    case _ => 0
  }

  // In how many places the token is.
  function Places(s: State, token: nat): nat {
    InSlots(s.slots, token) + InWorker(s.worker, token) + InCaller(s.caller, token) + s.ended[token]
  }

  // Each token made so far is in exactly one place.
  ghost predicate OneOwner(s: State) {
    forall t: nat :: Places(s, t) == if t < s.tokens then 1 else 0
  }

  ghost predicate Inv(s: State) {
    IdsOk(s) && WorkerHoldsSlot(s) && CallerHoldsTask(s) && SlotsOk(s) && OneInFlight(s) && OneOwner(s)
  }

  lemma {:induction false} InSlotsUpdated(slots: seq<Task>, i: nat, t: Task, token: nat)
    requires i < |slots|
    ensures InSlots(slots[i := t], token) == InSlots(slots, token) - InTask(slots[i], token) + InTask(t, token)
    decreases |slots|
  {
    var n := |slots| - 1;
    if i < n {
      InSlotsUpdated(slots[..n], i, t, token);
      assert slots[i := t][..n] == slots[..n][i := t];
    } else {
      assert slots[i := t][..n] == slots[..n];
    }
  }

  lemma {:induction false} NoTokens(slots: seq<Task>, token: nat)
    requires forall i :: 0 <= i < |slots| ==> slots[i] == VACANT
    ensures InSlots(slots, token) == 0
  {
    if slots != [] { NoTokens(slots[..|slots| - 1], token); }
  }

  lemma InitInv()
    ensures Inv(Init())
  {
    forall t: nat ensures Places(Init(), t) == 0 { NoTokens(Init().slots, t); }
  }

  // ---------- Tokens are conserved by every step ----------

  lemma TokensAfter(s: State, s': State, i: nat, t: Task)
    requires OneOwner(s) && i < |s.slots| && s'.slots == s.slots[i := t]
    requires forall k: nat :: InTask(t, k) + InWorker(s'.worker, k) + InCaller(s'.caller, k) + s'.ended[k] ==
               InTask(s.slots[i], k) + InWorker(s.worker, k) + InCaller(s.caller, k) + s.ended[k] +
               (if s.tokens <= k < s'.tokens then 1 else 0)
    requires s.tokens <= s'.tokens
    ensures OneOwner(s')
  {
    forall k: nat ensures Places(s', k) == if k < s'.tokens then 1 else 0 {
      InSlotsUpdated(s.slots, i, t, k);
      assert Places(s, k) == if k < s.tokens then 1 else 0;
    }
  }

  lemma WorkerKeepsTokens(s: State, a: Action)
    requires Inv(s)
    ensures OneOwner(StepWorker(s, a))
  {
    var s' := StepWorker(s, a);
    if s' != s {
      match a
      case WorkerClaim =>
        var i := FirstWith(s.slots, Pending, 0);
        TokensAfter(s, s', i, s'.slots[i]);
      case WorkerDecode(_) => TokensAfter(s, s', 0, s.slots[0]);
      case WorkerFinish =>
        var i := s.worker.slot;
        assert SlotOk(s, i);
        TokensAfter(s, s', i, s'.slots[i]);
      case _ =>
    }
  }

  lemma RequestKeepsTokens(s: State, a: Action)
    requires Inv(s)
    ensures OneOwner(StepRequest(s, a))
  {
    var s' := StepRequest(s, a);
    if s' != s {
      match a
      case Request(_, _) =>
        var i := FirstWith(s.slots, Vacant, 0);
        assert s.slots[i] == VACANT;
        TokensAfter(s, s', i, s'.slots[i]);
      case SyncDecode(_) => TokensAfter(s, s', 0, s.slots[0]);
      case SyncFinish =>
        var i := Find(s.slots, s.caller.id, 0);
        assert SlotOk(s, i);
        TokensAfter(s, s', i, s'.slots[i]);
      case _ =>
    }
  }

  lemma PollBeginKeepsTokens(s: State, id: nat, stale: bool)
    requires Inv(s)
    ensures OneOwner(StepPoll(s, PollBegin(id, stale)))
  {
    var s', i := StepPoll(s, PollBegin(id, stale)), Find(s.slots, id, 0);
    if s' != s { TokensAfter(s, s', i, s'.slots[i]); }
  }

  lemma PublishKeepsTokens(s: State, ok: bool, kept: bool)
    requires Inv(s)
    ensures OneOwner(StepPoll(s, Publish(ok, kept)))
  {
    var s' := StepPoll(s, Publish(ok, kept));
    if s' != s { TokensAfter(s, s', s.caller.slot, s'.slots[s.caller.slot]); }
  }

  lemma PollEndKeepsTokens(s: State)
    requires Inv(s)
    ensures OneOwner(StepPoll(s, PollEnd))
  {
    var s' := StepPoll(s, PollEnd);
    if s' != s {
      var i := Find(s.slots, s.caller.id, 0);
      assert SlotOk(s, i);
      TokensAfter(s, s', i, s'.slots[i]);
    }
  }

  lemma TakeKeepsTokens(s: State, id: nat)
    requires Inv(s)
    ensures OneOwner(StepRelease(s, TakeHandle(id)))
  {
    hide Find, OneOwner, OneInFlight;
    var s', i := StepRelease(s, TakeHandle(id)), Find(s.slots, id, 0);
    if s' != s { TokensAfter(s, s', i, s'.slots[i]); }
  }

  lemma CancelKeepsTokens(s: State, id: nat)
    requires Inv(s)
    ensures OneOwner(StepRelease(s, Cancel(id)))
  {
    hide Find, OneOwner, OneInFlight, SlotsOk;
    var s', i := StepRelease(s, Cancel(id)), Find(s.slots, id, 0);
    if s.caller.Idle? && i < CAPACITY {
      TokensAfter(s, s', i, s'.slots[i]);
    } else {
      TokensAfter(s, s', 0, s.slots[0]);
    }
  }

  // ---------- Slots stay with the thread that works on them ----------

  ghost predicate Orderly(s: State) {
    IdsOk(s) && WorkerHoldsSlot(s) && CallerHoldsTask(s) && SlotsOk(s) && OneInFlight(s)
  }

  // At most one slot changed, and its task is the same one or gone.
  ghost predicate OneSlotChanged(s: State, s': State, i: nat) {
    && |s.slots| == |s'.slots| == CAPACITY && i < CAPACITY
    && s'.slots == s.slots[i := s'.slots[i]] && s'.nextId == s.nextId
    && (s'.slots[i] == VACANT ||
        (s'.slots[i].status != Vacant && s.slots[i].status != Vacant && s'.slots[i].id == s.slots[i].id))
  }

  lemma IdsKept(s: State, s': State, i: nat)
    requires IdsOk(s) && OneSlotChanged(s, s', i)
    ensures IdsOk(s')
  {}

  lemma FindIsSlot(s: State, i: nat)
    requires IdsOk(s) && i < CAPACITY && s.slots[i].status != Vacant
    ensures Find(s.slots, s.slots[i].id, 0) == i
  {}

  predicate Waits(t: Task) { t.status == Decoded && !t.sync }

  lemma InFlightKept(s: State, s': State, i: nat)
    requires |s.slots| == CAPACITY && OneInFlight(s) && OneSlotChanged(s, s', i)
    requires s.worker.Waiting? ==> s'.worker.Waiting?
    requires Waits(s'.slots[i]) ==> Waits(s.slots[i]) || (!s.worker.Waiting? && s'.worker.Waiting?)
    requires Waits(s'.slots[i]) ==> s'.worker.Waiting?
    ensures OneInFlight(s')
  {
    forall j, k | 0 <= j < k < CAPACITY ensures !(Waits(s'.slots[j]) && Waits(s'.slots[k])) {
      assert j != i ==> s'.slots[j] == s.slots[j];
      assert k != i ==> s'.slots[k] == s.slots[k];
    }
  }

  lemma ClaimKeepsOrder(s: State)
    requires Inv(s)
    ensures Orderly(StepWorker(s, WorkerClaim))
  {
    var s' := StepWorker(s, WorkerClaim);
    if s' != s {
      var i := s'.worker.slot;
      assert SlotOk(s, i);
      IdsKept(s, s', i);
      forall j | 0 <= j < CAPACITY ensures SlotOk(s', j) { assert SlotOk(s, j); }
    }
  }

  lemma DecodeKeepsOrder(s: State, ok: bool)
    requires Inv(s)
    ensures Orderly(StepWorker(s, WorkerDecode(ok)))
  {
    var s' := StepWorker(s, WorkerDecode(ok));
    assert Claimed(s') == Claimed(s);
    forall j | 0 <= j < CAPACITY ensures SlotOk(s', j) { assert SlotOk(s, j); }
  }

  lemma FinishKeepsOrder(s: State)
    requires Inv(s)
    ensures Orderly(StepWorker(s, WorkerFinish))
  {
    var s' := StepWorker(s, WorkerFinish);
    if s' != s {
      var i := s.worker.slot;
      assert SlotOk(s, i);
      IdsKept(s, s', i);
      InFlightKept(s, s', i);
      forall j | 0 <= j < CAPACITY ensures SlotOk(s', j) { assert SlotOk(s, j); }
    }
  }

  lemma RequestKeepsOrder(s: State, kind: Kind, recording: bool)
    requires Inv(s)
    ensures Orderly(StepRequest(s, Request(kind, recording)))
  {
    var s' := StepRequest(s, Request(kind, recording));
    if s' != s {
      var i := FirstWith(s.slots, Vacant, 0);
      assert s.slots[i] == VACANT;
      forall j | 0 <= j < CAPACITY ensures SlotOk(s', j) { assert SlotOk(s, j); }
    }
  }

  lemma SyncDecodeKeepsOrder(s: State, ok: bool)
    requires Inv(s)
    ensures Orderly(StepRequest(s, SyncDecode(ok)))
  {
    var s' := StepRequest(s, SyncDecode(ok));
    forall j | 0 <= j < CAPACITY ensures SlotOk(s', j) { assert SlotOk(s, j); }
  }

  lemma SyncFinishKeepsOrder(s: State)
    requires Inv(s)
    ensures Orderly(StepRequest(s, SyncFinish))
  {
    var s' := StepRequest(s, SyncFinish);
    if s' != s {
      var i := s.caller.slot;
      FindIsSlot(s, i);
      assert SlotOk(s, i);
      IdsKept(s, s', i);
      InFlightKept(s, s', i);
      forall j | 0 <= j < CAPACITY ensures SlotOk(s', j) { assert SlotOk(s, j); }
    }
  }

  lemma PollBeginKeepsOrder(s: State, id: nat, stale: bool)
    requires Inv(s)
    ensures Orderly(StepPoll(s, PollBegin(id, stale)))
  {
    var s' := StepPoll(s, PollBegin(id, stale));
    if s' != s {
      var i := Find(s.slots, id, 0);
      assert SlotOk(s, i);
      IdsKept(s, s', i);
      InFlightKept(s, s', i);
      forall j | 0 <= j < CAPACITY ensures SlotOk(s', j) { assert SlotOk(s, j); }
    }
  }

  lemma PublishKeepsOrder(s: State, ok: bool, kept: bool)
    requires Inv(s)
    ensures Orderly(StepPoll(s, Publish(ok, kept)))
  {
    var s' := StepPoll(s, Publish(ok, kept));
    if s' != s {
      var i := s.caller.slot;
      assert SlotOk(s, i);
      IdsKept(s, s', i);
      InFlightKept(s, s', i);
      forall j | 0 <= j < CAPACITY ensures SlotOk(s', j) { assert SlotOk(s, j); }
    }
  }

  lemma PollEndKeepsOrder(s: State)
    requires Inv(s)
    ensures Orderly(StepPoll(s, PollEnd))
  {
    var s' := StepPoll(s, PollEnd);
    if s' != s {
      var i := s.caller.slot;
      FindIsSlot(s, i);
      assert SlotOk(s, i);
      IdsKept(s, s', i);
      InFlightKept(s, s', i);
      forall j | 0 <= j < CAPACITY ensures SlotOk(s', j) { assert SlotOk(s, j); }
    }
  }

  lemma TakeKeepsOrder(s: State, id: nat)
    requires Inv(s)
    ensures Orderly(StepRelease(s, TakeHandle(id)))
  {
    var s' := StepRelease(s, TakeHandle(id));
    if s' != s {
      var i := Find(s.slots, id, 0);
      assert SlotOk(s, i);
      IdsKept(s, s', i);
      InFlightKept(s, s', i);
      forall j | 0 <= j < CAPACITY ensures SlotOk(s', j) { assert SlotOk(s, j); }
    }
  }

  lemma CancelKeepsOrder(s: State, id: nat)
    requires Inv(s) && s.caller.Idle?
    requires Find(s.slots, id, 0) < CAPACITY ==> s.slots[Find(s.slots, id, 0)].status != Cancelled
    ensures Orderly(StepRelease(s, Cancel(id)))
  {
    hide OneOwner, Find;
    var s' := StepRelease(s, Cancel(id));
    var i := Find(s.slots, id, 0);
    if i < CAPACITY {
      CancelFound(s, id, i);
      IdsKept(s, s', i);
      InFlightKept(s, s', i);
      SlotsKept(s, s', i);
    } else {
      CancelUnknown(s, s');
    }
    hide IdsOk, OneInFlight, SlotsOk, SlotOk, StepRelease;
  }

  lemma CancelFound(s: State, id: nat, i: nat)
    requires Inv(s) && s.caller.Idle? && i == Find(s.slots, id, 0) < CAPACITY && s.slots[i].status != Cancelled
    ensures var s' := StepRelease(s, Cancel(id));
            && OneSlotChanged(s, s', i) && SlotOk(s', i) && !Waits(s'.slots[i])
            && s'.worker == s.worker && s'.caller == s.caller && s.cancelled <= s'.cancelled
            && WorkerHoldsSlot(s') && CallerHoldsTask(s')
  {
    hide OneOwner, Find, OneInFlight;
    assert SlotOk(s, i);
  }

  lemma SlotsKept(s: State, s': State, i: nat)
    requires |s.slots| == CAPACITY && SlotsOk(s) && OneSlotChanged(s, s', i) && SlotOk(s', i)
    requires s'.worker == s.worker && s'.caller == s.caller && s.cancelled <= s'.cancelled
    ensures SlotsOk(s')
  {
    forall j | 0 <= j < CAPACITY ensures SlotOk(s', j) {
      assert SlotOk(s, j) && (j != i ==> s'.slots[j] == s.slots[j]);
    }
  }

  lemma CancelUnknown(s: State, s': State)
    requires Orderly(s) && s' == s.(cancelled := s'.cancelled) && s.cancelled <= s'.cancelled
    ensures Orderly(s')
  {
    forall j | 0 <= j < CAPACITY ensures SlotOk(s', j) { assert SlotOk(s, j); }
  }

  // ---------- Main results ----------

  // The one call the protocol does not survive: cancelling a task that is already cancelled.
  ghost predicate CancelsTwice(s: State, a: Action)
    requires |s.slots| == CAPACITY
  {
    && a.Cancel? && s.caller.Idle? && Find(s.slots, a.id, 0) < CAPACITY
    && s.slots[Find(s.slots, a.id, 0)].status == Cancelled
  }

  lemma StepKeepsOrder(s: State, a: Action)
    requires Inv(s) && !CancelsTwice(s, a)
    ensures Orderly(Step(s, a))
  {
    match a
    case WorkerClaim => ClaimKeepsOrder(s);
    case WorkerDecode(ok) => DecodeKeepsOrder(s, ok);
    case WorkerFinish => FinishKeepsOrder(s);
    case Request(kind, recording) => RequestKeepsOrder(s, kind, recording);
    case SyncDecode(ok) => SyncDecodeKeepsOrder(s, ok);
    case SyncFinish => SyncFinishKeepsOrder(s);
    case PollBegin(id, stale) => PollBeginKeepsOrder(s, id, stale);
    case Publish(ok, kept) => PublishKeepsOrder(s, ok, kept);
    case PollEnd => PollEndKeepsOrder(s);
    case TakeHandle(id) => TakeKeepsOrder(s, id);
    case Cancel(id) => if s.caller.Idle? { CancelKeepsOrder(s, id); }
  }

  lemma StepKeepsTokens(s: State, a: Action)
    requires Inv(s)
    ensures OneOwner(Step(s, a))
  {
    match a
    case PollBegin(id, stale) => PollBeginKeepsTokens(s, id, stale);
    case Publish(ok, kept) => PublishKeepsTokens(s, ok, kept);
    case PollEnd => PollEndKeepsTokens(s);
    case TakeHandle(id) => TakeKeepsTokens(s, id);
    case Cancel(id) => CancelKeepsTokens(s, id);
    case _ =>
      WorkerKeepsTokens(s, a);
      RequestKeepsTokens(s, a);
  }

  /** A step takes the worker's slot away exactly when it cancels a cancelled task; every
      other step keeps the whole invariant. */
  lemma HeldSlotKeptIff(s: State, a: Action)
    requires Inv(s)
    ensures WorkerHoldsSlot(Step(s, a)) <==> !CancelsTwice(s, a)
    ensures !CancelsTwice(s, a) ==> Inv(Step(s, a))
  {
    if CancelsTwice(s, a) {
      assert SlotOk(s, Find(s.slots, a.id, 0));
    } else {
      StepKeepsOrder(s, a);
      StepKeepsTokens(s, a);
    }
  }

  // No task is cancelled twice from here on.
  ghost predicate CancelsOnce(s: State, actions: seq<Action>) {
    && (forall i :: 0 <= i < |actions| && actions[i].Cancel? ==> actions[i].id !in s.cancelled)
    && (forall i, j :: 0 <= i < j < |actions| && actions[i].Cancel? ==> actions[i] != actions[j])
  }

  lemma OnceIsNotTwice(s: State, a: Action)
    requires Inv(s) && (a.Cancel? ==> a.id !in s.cancelled)
    ensures !CancelsTwice(s, a)
    ensures Step(s, a).cancelled <= s.cancelled + (if a.Cancel? then {a.id} else {})
  {
    if a.Cancel? && Find(s.slots, a.id, 0) < CAPACITY { assert SlotOk(s, Find(s.slots, a.id, 0)); }
  }

  /** Over every interleaving in which no task is cancelled twice: the worker's slot is never
      cleared or reused, every payload and handle has exactly one owner or one end, and at
      most one payload decoded by the worker is waiting or on its way. */
  lemma {:induction false} RunIsSafe(s: State, actions: seq<Action>)
    requires Inv(s) && CancelsOnce(s, actions)
    ensures Inv(Run(s, actions))
    decreases |actions|
  {
    if actions != [] {
      OnceThenRest(s, actions);
      HeldSlotKeptIff(s, actions[0]);
      RunIsSafe(Step(s, actions[0]), actions[1..]);
    }
  }

  lemma OnceThenRest(s: State, actions: seq<Action>)
    requires Inv(s) && actions != [] && CancelsOnce(s, actions)
    ensures !CancelsTwice(s, actions[0]) && CancelsOnce(Step(s, actions[0]), actions[1..])
  {
    var a, rest := actions[0], actions[1..];
    assert a.Cancel? ==> a.id !in s.cancelled;
    OnceIsNotTwice(s, a);
    var s' := Step(s, a);
    forall i | 0 <= i < |rest| && rest[i].Cancel? ensures rest[i].id !in s'.cancelled {
      assert rest[i] == actions[i + 1];
    }
    assert forall i :: 0 <= i < |rest| ==> rest[i] == actions[i + 1];
  }

  /** What safety means for the threads, read off a state of such a run. */
  lemma SafeState(actions: seq<Action>)
    requires CancelsOnce(Init(), actions)
    ensures var s := Run(Init(), actions);
            && (!s.worker.Waiting? ==>
                  && s.worker.slot < CAPACITY && s.slots[s.worker.slot].id == s.worker.id
                  && (s.slots[s.worker.slot].status == Loading || s.slots[s.worker.slot].status == Cancelled))
            && (forall t: nat :: t < s.tokens ==> Places(s, t) == 1)
            && (forall i, j :: 0 <= i < j < CAPACITY ==> !(Waits(s.slots[i]) && Waits(s.slots[j])))
  {
    InitInv();
    RunIsSafe(Init(), actions);
    var s := Run(Init(), actions);
    assert OneInFlight(s);
  }

  /** Two cancels of a task being loaded leave the worker holding a slot that is free. */
  lemma SecondCancelFreesHeldSlot()
    ensures var s := Run(Init(), [Request(Sprite, false), WorkerClaim, Cancel(1), Cancel(1)]);
            s.worker == Decoding(0, 1) && s.slots[0] == VACANT
  {
    var s0 := Init();
    var s1 := Step(s0, Request(Sprite, false));
    assert s1.slots[0].status == Pending && s1.slots[0].id == 1;
    assert forall i :: 0 < i < CAPACITY ==> s1.slots[i] == VACANT;
    var s2 := Step(s1, WorkerClaim);
    assert s2.worker == Decoding(0, 1);
    var s3 := Step(s2, Cancel(1));
    assert s3.slots[0].status == Cancelled;
    var s4 := Step(s3, Cancel(1));
    RunOfFour(s0, Request(Sprite, false), WorkerClaim, Cancel(1), Cancel(1));
  }

  lemma RunOfFour(s: State, a: Action, b: Action, c: Action, d: Action)
    requires |s.slots| == CAPACITY
    ensures Run(s, [a, b, c, d]) == Step(Step(Step(Step(s, a), b), c), d)
  {
    var s1 := Step(s, a);
    var s2 := Step(s1, b);
    var s3 := Step(s2, c);
    assert [a, b, c, d][1..] == [b, c, d] && [b, c, d][1..] == [c, d] && [c, d][1..] == [d] && [d][1..] == [];
    assert Run(s3, [d]) == Run(Step(s3, d), []);
    assert Run(s2, [c, d]) == Run(s3, [d]);
    assert Run(s1, [b, c, d]) == Run(s2, [c, d]);
  }
}
