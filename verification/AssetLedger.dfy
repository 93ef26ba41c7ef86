/**
  What becomes of an asset task (runtime/stasis_graphics.c), whatever the threads do in between.

  The ledger knows no slots and no critical sections: for each task requested, and neither cancelled
  nor taken, it notes the last answer of the decoder or the publisher. In every run the table of
  AssetTasks shows exactly the ledger's tasks, each in the state its last answer calls for.
*/
module AssetLedger {
  import opened AssetTasks
  import opened Options

  // The last answer about a task. A payload or handle is named by its token; a publisher that
  // fails may leave the payload with the task.
  datatype Answer =
    | Unanswered
    | Good(payload: nat)
    | Bad
    | Published(handle: nat)
    | Unpublished(left: Option<nat>)

  datatype Entry = Entry(kind: Kind, sync: bool, answer: Answer)

  type Ledger = map<nat, Entry>

  function Answered(l: Ledger, id: nat, answer: Answer): Ledger {
    if id in l then l[id := l[id].(answer := answer)] else l
  }

  function Decode(ok: bool, token: nat): Answer { if ok then Good(token) else Bad }

  predicate HasVacancy(s: State) { exists i :: 0 <= i < |s.slots| && s.slots[i].status == Vacant }

  // What action a, taken in state s, adds to the ledger.
  function Note(l: Ledger, s: State, a: Action): Ledger {
    match a
    case WorkerDecode(ok) => if s.worker.Decoding? then Answered(l, s.worker.id, Decode(ok, s.tokens)) else l
    case SyncDecode(ok) => if s.caller.SyncDecoding? then Answered(l, s.caller.id, Decode(ok, s.tokens)) else l
    case Publish(ok, kept) =>
      if !s.caller.Publisher? || s.caller.id !in l || !l[s.caller.id].answer.Good? then l
      else
        var payload := l[s.caller.id].answer.payload;
        Answered(l, s.caller.id, if ok then Published(s.tokens)
                                 else Unpublished(if kept then Some(payload) else None))
    case Request(kind, recording) =>
      if s.caller.Idle? && HasVacancy(s) then l[s.nextId := Entry(kind, kind == Audio && recording, Unanswered)] else l
    case PollBegin(id, stale) =>
      // A sprite decoded for a display that has changed is decoded again.
      if s.caller.Idle? && stale && id in l && l[id].kind == Sprite && l[id].answer.Good? && !Holds(s, id)
      then Answered(l, id, Unanswered) else l
    case TakeHandle(id) => if s.caller.Idle? && id in l && l[id].answer.Published? then l - {id} else l
    case Cancel(id) => if s.caller.Idle? then l - {id} else l
    case _ => l
  }

  // The ledger after a run that starts in state s with ledger l.
  function Track(s: State, l: Ledger, actions: seq<Action>): Ledger
    requires |s.slots| == CAPACITY
    decreases |actions|
  {
    if actions == [] then l else Track(Step(s, actions[0]), Note(l, s, actions[0]), actions[1..])
  }

  // ---------- The table shows the ledger ----------

  // A thread is decoding the task, has its decoder's answer, is publishing it, or has the publisher's answer.
  predicate Decodes(s: State, id: nat) {
    (s.worker.Decoding? && s.worker.id == id) || (s.caller.SyncDecoding? && s.caller.id == id)
  }
  predicate Holds(s: State, id: nat) {
    (s.worker.Holding? && s.worker.id == id) || (s.caller.SyncHolding? && s.caller.id == id)
  }
  predicate Publishes(s: State, id: nat) { s.caller.Publisher? && s.caller.id == id }
  predicate Ends(s: State, id: nat) { s.caller.Publicist? && s.caller.id == id }

  // The task as the table must show it.
  function Shown(s: State, id: nat, e: Entry): Task {
    var blank := Task(Loading, id, e.kind, e.sync, false, None, None);
    match e.answer
    case Unanswered => if Decodes(s, id) then blank else blank.(status := Pending)
    case Good(p) =>
      if Holds(s, id) then blank
      else blank.(status := if Publishes(s, id) then Publishing else Decoded, payload := Some(p))
    case Bad => if Holds(s, id) then blank else blank.(status := Failed)
    case Published(h) =>
      if Ends(s, id) then blank.(status := Publishing) else blank.(status := Loaded, handle := Some(h))
    case Unpublished(left) => blank.(status := if Ends(s, id) then Publishing else Failed, payload := left)
  }

  predicate Alive(t: Task) { t.status != Vacant && t.status != Cancelled }

  ghost predicate SlotShows(s: State, l: Ledger, i: nat)
    requires i < |s.slots|
  {
    Alive(s.slots[i]) ==> s.slots[i].id in l && s.slots[i] == Shown(s, s.slots[i].id, l[s.slots[i].id])
  }

  ghost predicate Present(s: State, id: nat) {
    exists i :: 0 <= i < |s.slots| && s.slots[i].id == id && Alive(s.slots[i])
  }

  function Told(result: Option<nat>): Answer {
    match result case None => Bad case Some(p) => Good(p)
  }

  // What a thread is doing fits the last answer.
  ghost predicate WorkerFits(s: State, l: Ledger) {
    match s.worker
    case Waiting => true
    case Decoding(_, id) => id in l ==> l[id].answer.Unanswered?
    case Holding(_, id, result) => id in l ==> l[id].answer == Told(result)
  }

  ghost predicate CallerFits(s: State, l: Ledger) {
    match s.caller
    case Idle => true
    case SyncDecoding(_, id) => id in l && l[id].answer.Unanswered?
    case SyncHolding(_, id, result) => id in l && l[id].answer == Told(result)
    case Publisher(_, id) => id in l && l[id].answer.Good?
    case Publicist(_, id, handle) =>
      id in l && if handle.Some? then l[id].answer == Published(handle.value) else l[id].answer.Unpublished?
  }

  ghost predicate Agrees(s: State, l: Ledger) {
    && (forall i :: 0 <= i < |s.slots| ==> SlotShows(s, l, i))
    && (forall id :: id in l ==> Present(s, id))
    && WorkerFits(s, l) && CallerFits(s, l)
  }

  // ---------- Every step keeps the agreement ----------

  predicate SameFlags(s: State, s': State, id: nat) {
    && (Decodes(s, id) <==> Decodes(s', id)) && (Holds(s, id) <==> Holds(s', id))
    && (Publishes(s, id) <==> Publishes(s', id)) && (Ends(s, id) <==> Ends(s', id))
  }

  predicate SameEntry(l: Ledger, l': Ledger, id: nat) { (id in l <==> id in l') && (id in l ==> l[id] == l'[id]) }

  // The tables of s and s' differ in slot i at most, and it concerns task x only.
  ghost predicate OnlyMoves(s: State, s': State, i: nat, x: nat) {
    && |s.slots| == |s'.slots| == CAPACITY && i < CAPACITY && s'.slots == s.slots[i := s'.slots[i]]
    && (Alive(s.slots[i]) ==> s.slots[i].id == x) && (Alive(s'.slots[i]) ==> s'.slots[i].id == x)
    && (forall j :: 0 <= j < CAPACITY && j != i && s.slots[j].status != Vacant ==> s.slots[j].id != x)
    && (s'.worker == s.worker || (WorkerAbout(s.worker, x) && WorkerAbout(s'.worker, x)))
    && (s'.caller == s.caller || (CallerAbout(s.caller, x) && CallerAbout(s'.caller, x)))
  }

  predicate WorkerAbout(w: Worker, x: nat) { w.Waiting? || w.id == x }
  predicate CallerAbout(c: Caller, x: nat) { c.Idle? || c.id == x }

  lemma Moved(s: State, l: Ledger, s': State, l': Ledger, i: nat, x: nat)
    requires Agrees(s, l) && OnlyMoves(s, s', i, x) && forall id :: id != x ==> SameEntry(l, l', id)
    requires SlotShows(s', l', i) && (x in l' <==> Alive(s'.slots[i]))
    requires WorkerFits(s', l') && CallerFits(s', l')
    ensures Agrees(s', l')
  {
    forall j | 0 <= j < CAPACITY ensures SlotShows(s', l', j) {
      if j != i {
        assert SlotShows(s, l, j);
        var id := s.slots[j].id;
        assert Alive(s.slots[j]) ==> SameEntry(l, l', id);
        if Alive(s.slots[j]) { SameShown(s, s', id, l[id]); }
      }
    }
    forall id | id in l' ensures Present(s', id) {
      if id == x {
        assert s'.slots[i].id == x;
      } else {
        assert SameEntry(l, l', id) && Present(s, id);
        var j :| 0 <= j < CAPACITY && s.slots[j].id == id && Alive(s.slots[j]);
        assert s'.slots[j] == s.slots[j];
      }
    }
  }

  lemma SameShown(s: State, s': State, id: nat, e: Entry)
    requires SameFlags(s, s', id)
    ensures Shown(s', id, e) == Shown(s, id, e)
  {}

  // What is known of a task; one in the ledger is the one live task with its id.
  lemma WhereItIs(s: State, l: Ledger, i: nat)
    requires Inv(s) && Agrees(s, l) && i < CAPACITY && s.slots[i].status != Vacant
    ensures WorkerHoldsSlot(s) && CallerHoldsTask(s) && WorkerFits(s, l) && CallerFits(s, l)
    ensures SlotOk(s, i) && SlotShows(s, l, i)
    ensures s.slots[i].id in l <==> Alive(s.slots[i])
    ensures Find(s.slots, s.slots[i].id, 0) == i
    ensures forall j :: 0 <= j < CAPACITY && j != i && s.slots[j].status != Vacant ==> s.slots[j].id != s.slots[i].id
  {
    hide OneOwner, OneInFlight, Shown, Find;
    FindIsSlot(s, i);
    assert SlotOk(s, i) && SlotShows(s, l, i);
    if s.slots[i].id in l { assert Present(s, s.slots[i].id); }
  }

  // The slots the threads work on.
  lemma ThreadSlots(s: State)
    requires Inv(s)
    ensures |s.slots| == CAPACITY
    ensures !s.worker.Waiting? ==> s.worker.slot < CAPACITY && s.slots[s.worker.slot].status != Vacant
    ensures !s.caller.Idle? ==> s.caller.slot < CAPACITY && s.slots[s.caller.slot].status != Vacant
  {
    hide OneOwner, OneInFlight;
  }

  lemma ClaimAgrees(s: State, l: Ledger)
    requires Inv(s) && Agrees(s, l)
    ensures Agrees(StepWorker(s, WorkerClaim), l)
  {
    hide Inv, Agrees, FirstWith;
    ThreadSlots(s);
    var s' := StepWorker(s, WorkerClaim);
    if s' != s {
      var i, x := s'.worker.slot, s'.worker.id;
      WhereItIs(s, l, i);
      Moved(s, l, s', l, i, x);
    }
  }

  lemma DecodeAgrees(s: State, l: Ledger, ok: bool)
    requires Inv(s) && Agrees(s, l)
    ensures Agrees(StepWorker(s, WorkerDecode(ok)), Note(l, s, WorkerDecode(ok)))
  {
    hide Inv, Agrees;
    ThreadSlots(s);
    if s.worker.Decoding? {
      var s', l' := StepWorker(s, WorkerDecode(ok)), Note(l, s, WorkerDecode(ok));
      var i, x := s.worker.slot, s.worker.id;
      WhereItIs(s, l, i);
      Moved(s, l, s', l', i, x);
    }
  }

  lemma FinishAgrees(s: State, l: Ledger)
    requires Inv(s) && Agrees(s, l)
    ensures Agrees(StepWorker(s, WorkerFinish), l)
  {
    hide Inv, Agrees;
    ThreadSlots(s);
    if s.worker.Holding? {
      var s', i, x := StepWorker(s, WorkerFinish), s.worker.slot, s.worker.id;
      WhereItIs(s, l, i);
      Moved(s, l, s', l, i, x);
    }
  }

  lemma RequestAgrees(s: State, l: Ledger, kind: Kind, recording: bool)
    requires Inv(s) && Agrees(s, l)
    ensures Agrees(StepRequest(s, Request(kind, recording)), Note(l, s, Request(kind, recording)))
  {
    hide OneOwner, OneInFlight, FirstWith;
    var i := FirstWith(s.slots, Vacant, 0);
    if s.caller.Idle? && i < CAPACITY {
      assert s.slots[i].status == Vacant && HasVacancy(s);
      var s', l' := StepRequest(s, Request(kind, recording)), Note(l, s, Request(kind, recording));
      NextIsNew(s, l);
      Moved(s, l, s', l', i, s.nextId);
    } else {
      assert i == CAPACITY ==> !HasVacancy(s);
    }
  }

  lemma NextIsNew(s: State, l: Ledger)
    requires Inv(s) && Agrees(s, l)
    ensures s.nextId !in l && (!s.worker.Waiting? ==> s.worker.id != s.nextId)
    ensures forall j :: 0 <= j < CAPACITY && s.slots[j].status != Vacant ==> s.slots[j].id != s.nextId
  {
    hide OneOwner, OneInFlight;
    assert s.nextId in l ==> Present(s, s.nextId);
  }

  lemma SyncDecodeAgrees(s: State, l: Ledger, ok: bool)
    requires Inv(s) && Agrees(s, l)
    ensures Agrees(StepRequest(s, SyncDecode(ok)), Note(l, s, SyncDecode(ok)))
  {
    hide Inv, Agrees;
    ThreadSlots(s);
    if s.caller.SyncDecoding? {
      var s', l' := StepRequest(s, SyncDecode(ok)), Note(l, s, SyncDecode(ok));
      var i, x := s.caller.slot, s.caller.id;
      WhereItIs(s, l, i);
      WorkerIsElsewhere(s, i);
      Moved(s, l, s', l', i, x);
    }
  }

  // The worker has no part in a task of the caller's.
  lemma WorkerIsElsewhere(s: State, i: nat)
    requires Inv(s) && !s.caller.Idle? && i == s.caller.slot
    ensures i < CAPACITY && s.slots[i].status != Vacant && s.slots[i].id == s.caller.id
    ensures !s.worker.Waiting? ==> s.worker.id != s.caller.id
  {
    hide OneOwner, OneInFlight;
  }

  lemma SyncFinishAgrees(s: State, l: Ledger)
    requires Inv(s) && Agrees(s, l)
    ensures Agrees(StepRequest(s, SyncFinish), l)
  {
    hide Inv, Agrees, Find;
    ThreadSlots(s);
    if s.caller.SyncHolding? {
      var s', i, x := StepRequest(s, SyncFinish), s.caller.slot, s.caller.id;
      WhereItIs(s, l, i);
      WorkerIsElsewhere(s, i);
      Moved(s, l, s', l, i, x);
    }
  }

  lemma PollBeginAgrees(s: State, l: Ledger, id: nat, stale: bool)
    requires Inv(s) && Agrees(s, l)
    ensures Agrees(StepPoll(s, PollBegin(id, stale)), Note(l, s, PollBegin(id, stale)))
  {
    hide Inv, Agrees, Find;
    ThreadSlots(s);
    var s', l', i := StepPoll(s, PollBegin(id, stale)), Note(l, s, PollBegin(id, stale)), Find(s.slots, id, 0);
    if s.caller.Idle? {
      if i < CAPACITY {
        WhereItIs(s, l, i);
        if s.slots[i].status == Decoded { ReadyBegins(s, l, i, stale); }
      } else {
        Missing(s, l, id);
      }
    }
  }

  lemma ReadyBegins(s: State, l: Ledger, i: nat, stale: bool)
    requires Inv(s) && Agrees(s, l) && s.caller.Idle? && i < CAPACITY && s.slots[i].status == Decoded
    ensures Agrees(StepPoll(s, PollBegin(s.slots[i].id, stale)), Note(l, s, PollBegin(s.slots[i].id, stale)))
  {
    hide Inv, Agrees, Find;
    ThreadSlots(s);
    var id := s.slots[i].id;
    WhereItIs(s, l, i);
    NotTheWorkers(s, i);
    var s', l' := StepPoll(s, PollBegin(id, stale)), Note(l, s, PollBegin(id, stale));
    Moved(s, l, s', l', i, id);
  }

  lemma Missing(s: State, l: Ledger, id: nat)
    requires |s.slots| == CAPACITY && Agrees(s, l) && Find(s.slots, id, 0) == CAPACITY
    ensures id !in l
  {
    assert id in l ==> Present(s, id);
  }

  // A task that waits for the caller is not the worker's.
  lemma NotTheWorkers(s: State, i: nat)
    requires Inv(s) && i < CAPACITY && s.slots[i].status !in {Vacant, Loading, Cancelled}
    ensures !s.worker.Waiting? ==> s.worker.id != s.slots[i].id
  {
    hide OneOwner, OneInFlight;
  }

  lemma PublishAgrees(s: State, l: Ledger, ok: bool, kept: bool)
    requires Inv(s) && Agrees(s, l)
    ensures Agrees(StepPoll(s, Publish(ok, kept)), Note(l, s, Publish(ok, kept)))
  {
    hide Inv, Agrees;
    ThreadSlots(s);
    if s.caller.Publisher? {
      var s', l' := StepPoll(s, Publish(ok, kept)), Note(l, s, Publish(ok, kept));
      var i, x := s.caller.slot, s.caller.id;
      WhereItIs(s, l, i);
      WorkerIsElsewhere(s, i);
      Moved(s, l, s', l', i, x);
    }
  }

  lemma PollEndAgrees(s: State, l: Ledger)
    requires Inv(s) && Agrees(s, l)
    ensures Agrees(StepPoll(s, PollEnd), l)
  {
    hide Inv, Agrees, Find;
    ThreadSlots(s);
    if s.caller.Publicist? {
      var s', i, x := StepPoll(s, PollEnd), s.caller.slot, s.caller.id;
      WhereItIs(s, l, i);
      WorkerIsElsewhere(s, i);
      Moved(s, l, s', l, i, x);
    }
  }

  lemma TakeAgrees(s: State, l: Ledger, id: nat)
    requires Inv(s) && Agrees(s, l)
    ensures Agrees(StepRelease(s, TakeHandle(id)), Note(l, s, TakeHandle(id)))
  {
    hide Inv, Agrees, Find;
    ThreadSlots(s);
    var s', l', i := StepRelease(s, TakeHandle(id)), Note(l, s, TakeHandle(id)), Find(s.slots, id, 0);
    if s.caller.Idle? {
      if i < CAPACITY {
        WhereItIs(s, l, i);
        if s.slots[i].status == Loaded {
          NotTheWorkers(s, i);
          Moved(s, l, s', l', i, id);
        }
      } else {
        Missing(s, l, id);
      }
    }
  }

  lemma CancelAgrees(s: State, l: Ledger, id: nat)
    requires Inv(s) && Agrees(s, l) && !CancelsTwice(s, Cancel(id))
    ensures Agrees(StepRelease(s, Cancel(id)), Note(l, s, Cancel(id)))
  {
    hide Inv, Agrees, Find;
    ThreadSlots(s);
    var s', l', i := StepRelease(s, Cancel(id)), Note(l, s, Cancel(id)), Find(s.slots, id, 0);
    if s.caller.Idle? {
      if i < CAPACITY {
        WhereItIs(s, l, i);
        Moved(s, l, s', l', i, id);
      } else {
        Missing(s, l, id);
        assert l' == l;
        SameTable(s, l, s');
      }
    }
  }

  lemma SameTable(s: State, l: Ledger, s': State)
    requires Agrees(s, l) && s'.slots == s.slots && s'.worker == s.worker && s'.caller == s.caller
    ensures Agrees(s', l)
  {
    assert forall j :: 0 <= j < |s.slots| && SlotShows(s, l, j) ==> SlotShows(s', l, j);
    assert forall k :: Present(s, k) ==> Present(s', k);
  }

  lemma StepAgrees(s: State, l: Ledger, a: Action)
    requires Inv(s) && Agrees(s, l) && !CancelsTwice(s, a)
    ensures Agrees(Step(s, a), Note(l, s, a))
  {
    hide Inv, Agrees, StepWorker, StepRequest, StepPoll, StepRelease, CancelsTwice, Find;
    match a
    case WorkerClaim => ClaimAgrees(s, l);
    case WorkerDecode(ok) => DecodeAgrees(s, l, ok);
    case WorkerFinish => FinishAgrees(s, l);
    case Request(kind, recording) => RequestAgrees(s, l, kind, recording);
    case SyncDecode(ok) => SyncDecodeAgrees(s, l, ok);
    case SyncFinish => SyncFinishAgrees(s, l);
    case PollBegin(id, stale) => PollBeginAgrees(s, l, id, stale);
    case Publish(ok, kept) => PublishAgrees(s, l, ok, kept);
    case PollEnd => PollEndAgrees(s, l);
    case TakeHandle(id) => TakeAgrees(s, l, id);
    case Cancel(id) => CancelAgrees(s, l, id);
  }

  // ---------- Main results ----------

  /** In every run in which no task is cancelled twice, the table shows exactly the ledger: the same
      tasks, each with the kind it was requested as and in the state its last answer calls for. */
  lemma {:induction false} RunAgrees(s: State, l: Ledger, actions: seq<Action>)
    requires Inv(s) && Agrees(s, l) && CancelsOnce(s, actions)
    ensures Inv(Run(s, actions)) && Agrees(Run(s, actions), Track(s, l, actions))
    decreases |actions|
  {
    hide Inv, Agrees, CancelsOnce, CancelsTwice, Note, Step;
    ThreadSlots(s);
    if actions != [] {
      OnceThenRest(s, actions);
      HeldSlotKeptIff(s, actions[0]);
      StepAgrees(s, l, actions[0]);
      RunAgrees(Step(s, actions[0]), Note(l, s, actions[0]), actions[1..]);
    }
  }

  lemma InitAgrees()
    ensures Inv(Init()) && Agrees(Init(), map[])
  {
    InitInv();
  }

  // The answers given about a task by action k of a run from s.
  ghost predicate SaidNo(s: State, actions: seq<Action>, k: nat, id: nat)
    requires |s.slots| == CAPACITY && k < |actions|
  {
    var r := Run(s, actions[..k]);
    match actions[k]
    case WorkerDecode(ok) => !ok && r.worker.Decoding? && r.worker.id == id
    case SyncDecode(ok) => !ok && r.caller.SyncDecoding? && r.caller.id == id
    case Publish(ok, _) => !ok && Publishes(r, id)
    case _ => false
  }

  ghost predicate MadePayload(s: State, actions: seq<Action>, k: nat, id: nat, token: nat)
    requires |s.slots| == CAPACITY && k < |actions|
  {
    var r := Run(s, actions[..k]);
    && token == r.tokens
    && match actions[k]
       case WorkerDecode(ok) => ok && r.worker.Decoding? && r.worker.id == id
       case SyncDecode(ok) => ok && r.caller.SyncDecoding? && r.caller.id == id
       case _ => false
  }

  ghost predicate MadeHandle(s: State, actions: seq<Action>, k: nat, id: nat, token: nat)
    requires |s.slots| == CAPACITY && k < |actions|
  {
    var r := Run(s, actions[..k]);
    token == r.tokens && Publishes(r, id) && actions[k].Publish? && actions[k].ok
  }

  // An answer about the task was given during the run.
  ghost predicate Given(s: State, actions: seq<Action>, id: nat, answer: Answer)
    requires |s.slots| == CAPACITY
  {
    match answer
    case Unanswered => true
    case Good(p) => exists k :: 0 <= k < |actions| && MadePayload(s, actions, k, id, p)
    case Published(h) => exists k :: 0 <= k < |actions| && MadeHandle(s, actions, k, id, h)
    case _ => exists k :: 0 <= k < |actions| && SaidNo(s, actions, k, id)
  }

  // The first action gave it, or a later one did.
  lemma GivenNow(s: State, l: Ledger, actions: seq<Action>, id: nat)
    requires |s.slots| == CAPACITY && actions != [] && id in Note(l, s, actions[0])
    ensures Given(s, actions, id, Note(l, s, actions[0])[id].answer) ||
            (id in l && Note(l, s, actions[0])[id].answer == l[id].answer)
  {
    assert actions[..0] == [];
    var a := actions[0];
    var answer := Note(l, s, a)[id].answer;
    if a.WorkerDecode? && s.worker.Decoding? && s.worker.id == id {
      assert if a.ok then MadePayload(s, actions, 0, id, s.tokens) else SaidNo(s, actions, 0, id);
    } else if a.SyncDecode? && s.caller.SyncDecoding? && s.caller.id == id {
      assert if a.ok then MadePayload(s, actions, 0, id, s.tokens) else SaidNo(s, actions, 0, id);
    } else if a.Publish? && Publishes(s, id) {
      assert if a.ok then MadeHandle(s, actions, 0, id, s.tokens) else SaidNo(s, actions, 0, id);
    }
  }

  lemma GivenLater(s: State, actions: seq<Action>, id: nat, answer: Answer)
    requires |s.slots| == CAPACITY && actions != [] && Given(Step(s, actions[0]), actions[1..], id, answer)
    ensures Given(s, actions, id, answer)
  {
    var s', rest := Step(s, actions[0]), actions[1..];
    forall k | 0 <= k < |rest| ensures Run(s', rest[..k]) == Run(s, actions[..k + 1]) && rest[k] == actions[k + 1] {
      assert actions[..k + 1][1..] == rest[..k];
    }
    match answer
    case Unanswered =>
    case Good(p) =>
      var k :| 0 <= k < |rest| && MadePayload(s', rest, k, id, p);
      assert MadePayload(s, actions, k + 1, id, p);
    case Published(h) =>
      var k :| 0 <= k < |rest| && MadeHandle(s', rest, k, id, h);
      assert MadeHandle(s, actions, k + 1, id, h);
    case _ =>
      var k :| 0 <= k < |rest| && SaidNo(s', rest, k, id);
      assert SaidNo(s, actions, k + 1, id);
  }

  // Every answer in the ledger was given during the run, or stood there before it.
  lemma {:induction false} AnswersAreGiven(s: State, l: Ledger, actions: seq<Action>, id: nat)
    requires |s.slots| == CAPACITY && id in Track(s, l, actions)
    ensures var answer := Track(s, l, actions)[id].answer;
            Given(s, actions, id, answer) || (id in l && answer == l[id].answer)
    decreases |actions|
  {
    hide Note, Step, Given;
    if actions != [] {
      var l' := Note(l, s, actions[0]);
      AnswersAreGiven(Step(s, actions[0]), l', actions[1..], id);
      var answer := Track(s, l, actions)[id].answer;
      if Given(Step(s, actions[0]), actions[1..], id, answer) {
        GivenLater(s, actions, id, answer);
      } else {
        GivenNow(s, l, actions, id);
      }
    }
  }

  /** A task fails only if its decoder or its publisher said no; a decoded one has the payload its
      decoder made, and a loaded one the handle its publisher made. */
  lemma OutcomeWasAnswered(actions: seq<Action>, i: nat)
    requires CancelsOnce(Init(), actions) && i < CAPACITY
    ensures var s := Run(Init(), actions);
            var t := s.slots[i];
            && (t.status == Failed ==> exists k :: 0 <= k < |actions| && SaidNo(Init(), actions, k, t.id))
            && (t.status == Decoded ==>
                  && t.payload.Some?
                  && exists k :: 0 <= k < |actions| && MadePayload(Init(), actions, k, t.id, t.payload.value))
            && (t.status == Loaded ==>
                  && t.handle.Some?
                  && exists k :: 0 <= k < |actions| && MadeHandle(Init(), actions, k, t.id, t.handle.value))
  {
    hide Inv, Agrees, SaidNo, MadePayload, MadeHandle, Run, Track, CancelsOnce;
    InitAgrees();
    RunAgrees(Init(), map[], actions);
    var s, l := Run(Init(), actions), Track(Init(), map[], actions);
    StatusTells(s, l, i);
    if Alive(s.slots[i]) { AnswersAreGiven(Init(), map[], actions, s.slots[i].id); }
  }

  lemma StatusTells(s: State, l: Ledger, i: nat)
    requires Agrees(s, l) && |s.slots| == CAPACITY && i < CAPACITY
    ensures var t := s.slots[i];
            Alive(t) ==>
              && t.id in l
              && (t.status == Failed ==> l[t.id].answer.Bad? || l[t.id].answer.Unpublished?)
              && (t.status == Decoded ==> t.payload.Some? && l[t.id].answer == Good(t.payload.value))
              && (t.status == Loaded ==> t.handle.Some? && l[t.id].answer == Published(t.handle.value))
  {
    assert SlotShows(s, l, i);
  }

  // ---------- A task that nothing stands in the way of ----------

  // Where a task is on its way from the decoder to a loaded handle.
  datatype Stage = AtDecoder | Answering | Ready | AtPublisher | Ending

  ghost predicate At(s: State, l: Ledger, id: nat, stage: Stage, e: Entry) {
    && id in l && l[id] == e
    && match stage
       case AtDecoder => Decodes(s, id) && e.answer.Unanswered?
       case Answering => Holds(s, id) && (e.answer.Good? || e.answer.Bad?)
       case Ready => !Holds(s, id) && !Publishes(s, id) && e.answer.Good?
       case AtPublisher => Publishes(s, id) && e.answer.Good?
       case Ending => Ends(s, id) && (e.answer.Published? || e.answer.Unpublished?)
  }

  // The actions that take it from its stage, or away.
  predicate Leaves(stage: Stage, id: nat, sync: bool, a: Action) {
    match stage
    case AtDecoder => a == Cancel(id) || if sync then a.SyncDecode? else a.WorkerDecode?
    case Answering => a == Cancel(id) || if sync then a.SyncFinish? else a.WorkerFinish?
    case Ready => a == Cancel(id) || (a.PollBegin? && a.id == id)
    case AtPublisher => a.Publish?
    case Ending => a.PollEnd?
  }

  // A task's own thread, by whether it is synchronous.
  lemma OwnThread(s: State, l: Ledger, id: nat)
    requires Inv(s) && Agrees(s, l) && id in l && (Decodes(s, id) || Holds(s, id))
    ensures if l[id].sync then (s.caller.SyncDecoding? || s.caller.SyncHolding?) && s.caller.id == id
            else !s.worker.Waiting? && s.worker.id == id
    ensures l[id].sync && !s.worker.Waiting? ==> s.worker.id != id
    ensures !l[id].sync && (s.caller.SyncDecoding? || s.caller.SyncHolding?) ==> s.caller.id != id
    ensures !Publishes(s, id)
  {
    hide OneOwner, OneInFlight;
    assert Present(s, id);
    var i :| 0 <= i < CAPACITY && s.slots[i].id == id && Alive(s.slots[i]);
    assert SlotShows(s, l, i);
  }

  predicate ByWorker(a: Action) { a.WorkerClaim? || a.WorkerDecode? || a.WorkerFinish? }

  // A step moves its own thread only, and each thread only along its own course.
  lemma ThreadsApart(s: State, a: Action)
    requires |s.slots| == CAPACITY
    ensures if ByWorker(a) then Step(s, a).caller == s.caller else Step(s, a).worker == s.worker
  {
    hide Find, FirstWith;
  }

  lemma WorkerCourse(s: State, a: Action)
    requires |s.slots| == CAPACITY && ByWorker(a)
    ensures var w := Step(s, a).worker;
            match s.worker
            case Waiting => !w.Holding?
            case Decoding(slot, id) => w == s.worker || (a.WorkerDecode? && w.Holding? && w.id == id)
            case Holding(_, _, _) => w == s.worker || (a.WorkerFinish? && w.Waiting?)
  {
    hide FirstWith;
  }

  lemma CallerCourse(s: State, a: Action)
    requires |s.slots| == CAPACITY && !ByWorker(a)
    ensures var c := Step(s, a).caller;
            match s.caller
            case Idle =>
              c.Idle? || (c.SyncDecoding? && c.id == s.nextId) || (c.Publisher? && a.PollBegin? && c.id == a.id)
            case SyncDecoding(_, id) => c == s.caller || (a.SyncDecode? && c.SyncHolding? && c.id == id)
            case SyncHolding(_, _, _) => c == s.caller || (a.SyncFinish? && c.Idle?)
            case Publisher(_, id) => c == s.caller || (a.Publish? && c.Publicist? && c.id == id)
            case Publicist(_, _, _) => c == s.caller || (a.PollEnd? && c.Idle?)
  {
    hide Find, FirstWith;
  }

  lemma EntryKept(s: State, l: Ledger, id: nat, stage: Stage, e: Entry, a: Action)
    requires At(s, l, id, stage, e) && !Leaves(stage, id, e.sync, a) && id != s.nextId
    requires WorkerFits(s, l) && CallerFits(s, l)
    requires Decodes(s, id) || Holds(s, id) ==>
               && !Publishes(s, id)
               && if e.sync then !(s.worker.Decoding? && s.worker.id == id)
                  else !(s.caller.SyncDecoding? && s.caller.id == id)
    ensures id in Note(l, s, a) && Note(l, s, a)[id] == e
  {
    hide HasVacancy;
  }

  lemma StageKept(s: State, l: Ledger, id: nat, stage: Stage, e: Entry, a: Action)
    requires Inv(s) && Agrees(s, l) && At(s, l, id, stage, e) && !Leaves(stage, id, e.sync, a)
    ensures At(Step(s, a), Note(l, s, a), id, stage, e)
  {
    hide Inv, Agrees, Step, Note;
    ThreadSlots(s);
    NextIsNew(s, l);
    ThreadsFit(s, l);
    if Decodes(s, id) || Holds(s, id) { OwnThread(s, l, id); }
    EntryKept(s, l, id, stage, e, a);
    ThreadsApart(s, a);
    if ByWorker(a) { WorkerCourse(s, a); } else { CallerCourse(s, a); }
  }

  lemma ThreadsFit(s: State, l: Ledger)
    requires Agrees(s, l)
    ensures WorkerFits(s, l) && CallerFits(s, l)
  {}

  lemma {:induction false} StageHolds(s: State, l: Ledger, id: nat, stage: Stage, e: Entry, w: seq<Action>)
    requires Inv(s) && Agrees(s, l) && CancelsOnce(s, w) && At(s, l, id, stage, e)
    requires forall a :: a in w ==> !Leaves(stage, id, e.sync, a)
    ensures Inv(Run(s, w)) && Agrees(Run(s, w), Track(s, l, w)) && At(Run(s, w), Track(s, l, w), id, stage, e)
    decreases |w|
  {
    hide Inv, Agrees, CancelsOnce, CancelsTwice, Note, Step, At, Leaves;
    ThreadSlots(s);
    if w != [] {
      OnceThenRest(s, w);
      HeldSlotKeptIff(s, w[0]);
      StepAgrees(s, l, w[0]);
      StageKept(s, l, id, stage, e, w[0]);
      assert forall a :: a in w[1..] ==> a in w;
      StageHolds(Step(s, w[0]), Note(l, s, w[0]), id, stage, e, w[1..]);
    }
  }

  // ---------- From the decoder to a handle ----------

  // The task of the ledger stands in the table as its entry says.
  lemma StandsSo(s: State, l: Ledger, id: nat)
    requires Inv(s) && Agrees(s, l) && id in l
    ensures var i := Find(s.slots, id, 0);
            i < CAPACITY && s.slots[i] == Shown(s, id, l[id]) && Alive(s.slots[i])
  {
    hide OneOwner, OneInFlight, Find, Shown;
    assert Present(s, id);
    var i :| 0 <= i < CAPACITY && s.slots[i].id == id && Alive(s.slots[i]);
    FindIsSlot(s, i);
    assert SlotShows(s, l, i);
  }

  /** Decoding ends in the answer given, whatever runs before (w) the thread comes back with it. */
  lemma DecoderAnswers(s: State, l: Ledger, id: nat, ok: bool, w: seq<Action>)
    requires Inv(s) && Agrees(s, l) && id in l && Decodes(s, id)
    requires var told := if l[id].sync then SyncDecode(ok) else WorkerDecode(ok);
             var finish := if l[id].sync then SyncFinish else WorkerFinish;
             CancelsOnce(Step(s, told), w) && Cancel(id) !in w && finish !in w
    ensures var told := if l[id].sync then SyncDecode(ok) else WorkerDecode(ok);
            var finish := if l[id].sync then SyncFinish else WorkerFinish;
            var done := Step(Run(Step(s, told), w), finish);
            var i := Find(done.slots, id, 0);
            && i < CAPACITY
            && done.slots[i] == Task(if ok then Decoded else Failed, id, l[id].kind, l[id].sync, false,
                                     if ok then Some(s.tokens) else None, None)
  {
    hide Inv, Agrees, Step, Note, Find, CancelsOnce, CancelsTwice, Track, Run;
    ThreadSlots(s);
    OwnThread(s, l, id);
    ThreadsFit(s, l);
    var told := if l[id].sync then SyncDecode(ok) else WorkerDecode(ok);
    var finish := if l[id].sync then SyncFinish else WorkerFinish;
    DecoderTells(s, l, id, ok);
    HeldSlotKeptIff(s, told);
    StepAgrees(s, l, told);
    var s1, l1 := Step(s, told), Note(l, s, told);
    StageHolds(s1, l1, id, Answering, l1[id], w);
    var s2, l2 := Run(s1, w), Track(s1, l1, w);
    OwnThread(s2, l2, id);
    FinishLetsGo(s2, l2, id);
    HeldSlotKeptIff(s2, finish);
    StepAgrees(s2, l2, finish);
    StandsSo(Step(s2, finish), l2, id);
  }

  lemma DecoderTells(s: State, l: Ledger, id: nat, ok: bool)
    requires |s.slots| == CAPACITY && id in l && l[id].answer.Unanswered?
    requires if l[id].sync then s.caller.SyncDecoding? && s.caller.id == id else s.worker.Decoding? && s.worker.id == id
    ensures var told := if l[id].sync then SyncDecode(ok) else WorkerDecode(ok);
            At(Step(s, told), Note(l, s, told), id, Answering, l[id].(answer := Decode(ok, s.tokens)))
    ensures !CancelsTwice(s, if l[id].sync then SyncDecode(ok) else WorkerDecode(ok))
  {
    hide Find, FirstWith;
  }

  lemma FinishLetsGo(s: State, l: Ledger, id: nat)
    requires |s.slots| == CAPACITY && id in l && Inv(s)
    requires if l[id].sync then s.caller.SyncHolding? && s.caller.id == id else s.worker.Holding? && s.worker.id == id
    requires l[id].sync && !s.worker.Waiting? ==> s.worker.id != id
    requires !l[id].sync && (s.caller.SyncDecoding? || s.caller.SyncHolding?) ==> s.caller.id != id
    requires !Publishes(s, id)
    ensures var finish := if l[id].sync then SyncFinish else WorkerFinish;
            && !Holds(Step(s, finish), id) && !Publishes(Step(s, finish), id) && Note(l, s, finish) == l
            && !CancelsTwice(s, finish)
  {
    hide OneOwner, OneInFlight, Find, FirstWith;
  }

  /** Polling a decoded task publishes it, whatever runs before (w1) the publisher is done and before
      (w2) the caller notes it: the task is loaded with the handle just made, or has failed. */
  lemma PublisherAnswers(s: State, l: Ledger, id: nat, stale: bool, ok: bool, kept: bool, w1: seq<Action>,
      w2: seq<Action>)
    requires Inv(s) && Agrees(s, l) && s.caller.Idle? && id in l && l[id].answer.Good? && !Holds(s, id)
    requires !(stale && l[id].kind == Sprite)
    requires (forall a :: a in w1 ==> !a.Publish?) && (forall a :: a in w2 ==> !a.PollEnd?)
    requires var begun := Step(s, PollBegin(id, stale));
             CancelsOnce(begun, w1) && CancelsOnce(Step(Run(begun, w1), Publish(ok, kept)), w2)
    ensures var before := Run(Step(s, PollBegin(id, stale)), w1);
            var done := Step(Run(Step(before, Publish(ok, kept)), w2), PollEnd);
            var i := Find(done.slots, id, 0);
            && i < CAPACITY && done.caller.Idle?
            && done.slots[i] == Task(if ok then Loaded else Failed, id, l[id].kind, l[id].sync, false,
                                     if !ok && kept then Some(l[id].answer.payload) else None,
                                     if ok then Some(before.tokens) else None)
  {
    hide Inv, Agrees, Step, Note, Find, CancelsOnce, CancelsTwice, Track, Run;
    ThreadSlots(s);
    StandsSo(s, l, id);
    PollPublishes(s, l, id, stale);
    HeldSlotKeptIff(s, PollBegin(id, stale));
    StepAgrees(s, l, PollBegin(id, stale));
    var s1 := Step(s, PollBegin(id, stale));
    StageHolds(s1, l, id, AtPublisher, l[id], w1);
    var s2, l2 := Run(s1, w1), Track(s1, l, w1);
    PublisherTells(s2, l2, id, ok, kept);
    HeldSlotKeptIff(s2, Publish(ok, kept));
    StepAgrees(s2, l2, Publish(ok, kept));
    var s3, l3 := Step(s2, Publish(ok, kept)), Note(l2, s2, Publish(ok, kept));
    StageHolds(s3, l3, id, Ending, l3[id], w2);
    var s4, l4 := Run(s3, w2), Track(s3, l3, w2);
    EndLetsGo(s4, l4);
    HeldSlotKeptIff(s4, PollEnd);
    StepAgrees(s4, l4, PollEnd);
    StandsSo(Step(s4, PollEnd), l4, id);
  }

  lemma PollPublishes(s: State, l: Ledger, id: nat, stale: bool)
    requires |s.slots| == CAPACITY && s.caller.Idle? && id in l && l[id].answer.Good?
    requires !(stale && l[id].kind == Sprite)
    requires var i := Find(s.slots, id, 0);
             i < CAPACITY && s.slots[i].status == Decoded && s.slots[i].kind == l[id].kind
    ensures At(Step(s, PollBegin(id, stale)), l, id, AtPublisher, l[id]) && Note(l, s, PollBegin(id, stale)) == l
    ensures !CancelsTwice(s, PollBegin(id, stale))
  {
    hide Find;
  }

  lemma PublisherTells(s: State, l: Ledger, id: nat, ok: bool, kept: bool)
    requires |s.slots| == CAPACITY && Inv(s) && id in l && At(s, l, id, AtPublisher, l[id])
    ensures var answer := if ok then Published(s.tokens)
                          else Unpublished(if kept then Some(l[id].answer.payload) else None);
            At(Step(s, Publish(ok, kept)), Note(l, s, Publish(ok, kept)), id, Ending, l[id].(answer := answer))
    ensures !CancelsTwice(s, Publish(ok, kept))
  {
    hide OneOwner, OneInFlight, Find;
  }

  lemma EndLetsGo(s: State, l: Ledger)
    requires |s.slots| == CAPACITY && s.caller.Publicist?
    ensures Step(s, PollEnd).caller.Idle? && Note(l, s, PollEnd) == l && !CancelsTwice(s, PollEnd)
  {
    hide Find;
  }

  /** A poll that finds a sprite decoded for another display frees it and queues it again. */
  lemma StaleGoesBack(s: State, l: Ledger, id: nat)
    requires Inv(s) && Agrees(s, l) && s.caller.Idle? && id in l && l[id].answer.Good? && !Holds(s, id)
    requires l[id].kind == Sprite
    ensures var done := Step(s, PollBegin(id, true));
            var i := Find(done.slots, id, 0);
            && i < CAPACITY && done.slots[i] == Task(Pending, id, Sprite, l[id].sync, false, None, None)
            && done.ended == s.ended + multiset{l[id].answer.payload}
  {
    hide OneOwner, OneInFlight;
    StandsSo(s, l, id);
    var i := Find(s.slots, id, 0);
    HeldSlotKeptIff(s, PollBegin(id, true));
    StepAgrees(s, l, PollBegin(id, true));
    FindIsSlot(Step(s, PollBegin(id, true)), i);
  }

  // The answer that reaches the caller's table: no thread holds it back.
  predicate Settled(s: State, id: nat) { !Decodes(s, id) && !Holds(s, id) }

  /** Taking a handle, or cancelling, ends exactly what the task had and frees its slot. A task at the
      decoder is only marked. */
  lemma LeavingEnds(s: State, l: Ledger, id: nat, a: Action)
    requires Inv(s) && Agrees(s, l) && s.caller.Idle? && id in l
    requires a == Cancel(id) || (a == TakeHandle(id) && l[id].answer.Published?)
    ensures var i, s', answer := Find(s.slots, id, 0), Step(s, a), l[id].answer;
            && i < CAPACITY
            && s'.slots == s.slots[i := if Settled(s, id) then VACANT
                                        else s.slots[i].(releaseRequested := true, status := Cancelled)]
            && s'.ended == s.ended + if Settled(s, id) then Left(answer) else multiset{}
  {
    hide Inv, Agrees, Find, Step, Shown, Settled, Left;
    ThreadSlots(s);
    StandsSo(s, l, id);
    ThreadsFit(s, l);
    AnswerFits(s, l, id);
    ShownLeft(s, id, l[id]);
    Releases(s, id, a);
  }

  // What an answer leaves to be ended.
  function Left(answer: Answer): multiset<nat> {
    match answer
    case Good(p) => multiset{p}
    case Published(h) => multiset{h}
    case Unpublished(left) => Bag(left)
    case _ => multiset{}
  }

  lemma AnswerFits(s: State, l: Ledger, id: nat)
    requires id in l && s.caller.Idle? && WorkerFits(s, l)
    ensures Decodes(s, id) ==> l[id].answer.Unanswered?
    ensures Holds(s, id) ==> l[id].answer.Good? || l[id].answer.Bad?
  {}

  lemma ShownLeft(s: State, id: nat, e: Entry)
    requires s.caller.Idle? && (Decodes(s, id) ==> e.answer.Unanswered?)
    requires Holds(s, id) ==> e.answer.Good? || e.answer.Bad?
    ensures var t := Shown(s, id, e);
            && (t.status == Loading || t.status == Publishing <==> !Settled(s, id))
            && (e.answer.Published? ==> t.status == Loaded)
            && (Settled(s, id) ==> Bag(t.handle) + Bag(t.payload) == Left(e.answer))
  {
    hide Decodes, Holds;
    assert !Publishes(s, id) && !Ends(s, id);
  }

  lemma Releases(s: State, id: nat, a: Action)
    requires |s.slots| == CAPACITY && s.caller.Idle? && Find(s.slots, id, 0) < CAPACITY
    requires a == Cancel(id) || (a == TakeHandle(id) && s.slots[Find(s.slots, id, 0)].status == Loaded)
    ensures var i, s' := Find(s.slots, id, 0), Step(s, a);
            var t := s.slots[i];
            if a.Cancel? && (t.status == Loading || t.status == Publishing) then
              s'.slots == s.slots[i := t.(releaseRequested := true, status := Cancelled)] && s'.ended == s.ended
            else s'.slots == s.slots[i := VACANT] && s'.ended == s.ended + Bag(t.handle) + Bag(t.payload)
  {
    hide Find;
  }

  /** The worker takes the first task waiting, and only when no decoded one waits for the caller. */
  lemma ClaimsFirst(s: State, i: nat)
    requires |s.slots| == CAPACITY && s.worker.Waiting? && i < CAPACITY
    ensures Step(s, WorkerClaim).worker == Worker.Decoding(i, s.slots[i].id) &&
              Step(s, WorkerClaim).slots == s.slots[i := s.slots[i].(status := Loading)] <==>
            && s.slots[i].status == Pending && (forall j :: 0 <= j < i ==> s.slots[j].status != Pending)
            && (forall j :: 0 <= j < CAPACITY ==> s.slots[j].status != Decoded)
  {}

  /** A request takes the first vacant slot under the next id, and is refused only by a full table. */
  lemma RequestsFirst(s: State, kind: Kind, recording: bool, i: nat)
    requires Inv(s) && s.caller.Idle? && i < 64
    requires s.slots[i].status == Vacant && forall j :: 0 <= j < i ==> s.slots[j].status != Vacant
    ensures var s' := Step(s, Request(kind, recording));
            && s'.nextId == s.nextId + 1 && s'.slots[i].id == s.nextId && s'.slots[i].kind == kind
            && s'.slots == s.slots[i := s'.slots[i]]
            && s'.slots[i].status == (if kind == Audio && recording then Loading else Pending)
            && s'.caller == if kind == Audio && recording then SyncDecoding(i, s.nextId) else Idle
  {
    hide OneOwner, OneInFlight, FirstWith;
    assert FirstWith(s.slots, Vacant, 0) == i;
  }

  /** Only when all 64 slots are taken is a request refused, and then nothing changes. */
  lemma RequestRefused(s: State, kind: Kind, recording: bool)
    requires Inv(s) && s.caller.Idle?
    ensures Step(s, Request(kind, recording)) == s <==> forall j :: 0 <= j < 64 ==> s.slots[j].status != Vacant
  {
    hide OneOwner, OneInFlight, FirstWith;
    assert FirstWith(s.slots, Vacant, 0) < 64 ==> s.slots[FirstWith(s.slots, Vacant, 0)].status == Vacant;
  }
}
