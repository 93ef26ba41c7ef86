/**
  Ordered replay of a frame's draw commands (runtime/stasis_graphics.c).

  The command buffer lists lines, rectangles, sprite runs, text and clip changes in
  painter order. The renderer queues lines, collects rectangles and sprites into batches
  of at most 2048 quads that share one atlas page, and resolves a stack of clips. The
  reference paints the commands one by one. A device call sequence means the list of
  primitives it paints, each with the clip in force and, for a sprite, the page bound.

  Clip coordinates are reals; a valid stream is what stasis_render_validate accepts.
*/
module Replay {
  import opened Options

  const KIND_SCALE: int := 16384
  const KIND_LINE: int := 1
  const KIND_SPRITE: int := 2
  const KIND_TEXT: int := 3
  const KIND_RECT: int := 4
  const KIND_PUSH: int := 5
  const KIND_POP: int := 6
  const MAX_CLIPS: nat := 256
  const MAX_LINES: nat := 10000
  const BATCH_QUADS: nat := 2048

  datatype Clip = Clip(x: real, y: real, w: real, h: real)

  // A run of sprites, with a clip of its own or (None) under the ordered clips.
  datatype Run = Run(first: nat, count: nat, clip: Option<Clip>)

  /** One frame. `pageOf` is the atlas page a sprite instance is drawn from, or -1 when it
      has no usable texture; `visible` is false for degenerate quads, which are skipped. A
      rectangle may have any width and height, also none or a negative one. */
  datatype Frame = Frame(
    order: seq<int>, lineCount: nat, rectCount: nat, textCount: nat,
    runs: seq<Run>, clips: seq<Clip>,
    pageOf: nat -> int, visible: nat -> bool, fallbackPage: int,
    rectW: nat -> real, rectH: nat -> real, width: real, height: real)

  datatype Prim = LinePrim(line: nat) | RectPrim(rect: nat) | SpritePrim(sprite: nat, page: int) | TextPrim(text: nat)
  datatype Draw = Draw(prim: Prim, clip: Option<Clip>)

  datatype Quad = RectQuad(rect: nat) | SpriteQuad(sprite: nat)
  datatype Call =
    | DrawLine(line: nat)
    | FillRect(rect: nat)
    | DrawText(text: nat)
    | Geometry(page: int, quads: seq<Quad>)
    | SetClip(clip: Clip)
    | NoClip

  // ---------- Commands ----------

  datatype Cmd =
    | CLine(line: nat) | CRect(rect: nat) | CRun(run: Run) | CText(text: nat)
    | CPush(clip: Clip) | CPop | CSkip

  function Decode(f: Frame, entry: int): Cmd {
    if entry < 0 then CSkip else
    var kind, index := entry / KIND_SCALE, entry % KIND_SCALE;
    if kind == KIND_PUSH && index < |f.clips| then CPush(f.clips[index])
    else if kind == KIND_POP && index == 0 then CPop
    else if kind == KIND_LINE && index < f.lineCount then CLine(index)
    else if kind == KIND_SPRITE && index < |f.runs| then CRun(f.runs[index])
    else if kind == KIND_RECT && index < f.rectCount then CRect(index)
    else if kind == KIND_TEXT && index < f.textCount then CText(index)
    else CSkip
  }

  function At(f: Frame, k: nat): Cmd
    requires k < |f.order|
  {
    Decode(f, f.order[k])
  }

  predicate Mixed(cmd: Cmd) { cmd.CRect? || cmd.CRun? }

  lemma MixedByKind(f: Frame, k: nat)
    requires k < |f.order| && !At(f, k).CSkip?
    ensures f.order[k] >= 0
    ensures Mixed(At(f, k)) <==> f.order[k] / KIND_SCALE == KIND_RECT || f.order[k] / KIND_SCALE == KIND_SPRITE
  {}

  // The clips requested and not yet popped before command k.
  function StackAt(f: Frame, k: nat): seq<Clip>
    requires k <= |f.order|
  {
    if k == 0 then []
    else
      var stack := StackAt(f, k - 1);
      match At(f, k - 1)
      case CPush(clip) => stack + [clip]
      case CPop => if stack == [] then [] else stack[..|stack| - 1]
      case _ => stack
  }

  ghost predicate EveryEntryRefers(f: Frame) {
    forall k :: 0 <= k < |f.order| ==> !At(f, k).CSkip?
  }

  // stasis_render_validate: every entry refers to something and the clip stack is bounded.
  ghost predicate ValidFrame(f: Frame) {
    && EveryEntryRefers(f)
    && (forall k :: 0 <= k <= |f.order| ==> |StackAt(f, k)| <= MAX_CLIPS)
    && (forall k :: 0 <= k < |f.order| && At(f, k).CPop? ==> StackAt(f, k) != [])
  }

  // ---------- Clips ----------

  function MaxR(a: real, b: real): real { if a > b then a else b }
  function MinR(a: real, b: real): real { if a < b then a else b }

  // [lo, hi) as an origin and a non-negative extent.
  function Extent(lo: real, hi: real): real { if hi > lo then hi - lo else 0.0 }

  function OnCanvas(f: Frame, c: Clip): Clip {
    var left, top := MaxR(c.x, 0.0), MaxR(c.y, 0.0);
    Clip(left, top, Extent(left, MinR(c.x + c.w, f.width)), Extent(top, MinR(c.y + c.h, f.height)))
  }

  function Resolve(f: Frame, requested: Clip, parent: Option<Clip>): Clip {
    var c := OnCanvas(f, requested);
    match parent
    case None => c
    case Some(p) =>
      var right, bottom := MinR(c.x + c.w, p.x + p.w), MinR(c.y + c.h, p.y + p.h);
      var x, y := MaxR(c.x, p.x), MaxR(c.y, p.y);
      Clip(x, y, Extent(x, right), Extent(y, bottom))
  }

  // The clip in force under a stack of requested clips.
  function Resolved(f: Frame, stack: seq<Clip>): Option<Clip> {
    if stack == [] then None
    else Some(Resolve(f, stack[|stack| - 1], Resolved(f, stack[..|stack| - 1])))
  }

  lemma ResolvedMore(f: Frame, stack: seq<Clip>, c: Clip)
    ensures Resolved(f, stack + [c]) == Some(Resolve(f, c, Resolved(f, stack)))
  {
    assert (stack + [c])[..|stack|] == stack;
  }

  predicate Within(c: Clip, px: real, py: real) {
    c.x <= px < c.x + c.w && c.y <= py < c.y + c.h
  }

  lemma ResolveIntersects(f: Frame, requested: Clip, parent: Option<Clip>, px: real, py: real)
    ensures Within(Resolve(f, requested, parent), px, py) <==>
            && Within(requested, px, py)
            && 0.0 <= px < f.width && 0.0 <= py < f.height
            && (parent.Some? ==> Within(parent.value, px, py))
  {}

  /** The clip in force is the canvas intersected with every active clip, as a set of points. */
  lemma {:induction false} ResolvedIsIntersection(f: Frame, stack: seq<Clip>, px: real, py: real)
    requires stack != []
    ensures Within(Resolved(f, stack).value, px, py) <==>
            && 0.0 <= px < f.width && 0.0 <= py < f.height
            && forall i :: 0 <= i < |stack| ==> Within(stack[i], px, py)
  {
    var n := |stack| - 1;
    var rest := stack[..n];
    ResolveIntersects(f, stack[n], Resolved(f, rest), px, py);
    if rest != [] { ResolvedIsIntersection(f, rest, px, py); }
    assert forall i :: 0 <= i < n ==> stack[i] == rest[i];
  }

  // ---------- The reference: paint the commands one by one ----------

  // A rectangle is filled when both extents are positive; one without area paints nothing; any
  // other one is a mirrored quad, which only a batch paints.
  predicate Fills(f: Frame, rect: nat) { f.rectW(rect) > 0.0 && f.rectH(rect) > 0.0 }
  predicate Flat(f: Frame, rect: nat) { f.rectW(rect) == 0.0 || f.rectH(rect) == 0.0 }
  predicate Mirrored(f: Frame, rect: nat) { !Fills(f, rect) && !Flat(f, rect) }

  function RunDraws(f: Frame, first: nat, count: nat, clip: Option<Clip>): seq<Draw> {
    if count == 0 then []
    else
      var sprite := first + count - 1;
      RunDraws(f, first, count - 1, clip) +
      (if f.pageOf(sprite) >= 0 && f.visible(sprite) then [Draw(SpritePrim(sprite, f.pageOf(sprite)), clip)] else [])
  }

  function CmdDraws(f: Frame, cmd: Cmd, stack: seq<Clip>): seq<Draw> {
    var clip := Resolved(f, stack);
    match cmd
    case CLine(i) => [Draw(LinePrim(i), clip)]
    case CRect(i) => if Fills(f, i) then [Draw(RectPrim(i), clip)] else []
    case CText(i) => [Draw(TextPrim(i), clip)]
    case CRun(run) =>
      RunDraws(f, run.first, run.count,
               if run.clip.None? then clip else Resolved(f, stack + [run.clip.value]))
    case _ => []
  }

  // The painter-order list of commands s..k-1.
  function Painted(f: Frame, s: nat, k: nat): seq<Draw>
    requires s <= k <= |f.order|
    decreases k - s
  {
    if k == s then [] else Painted(f, s, k - 1) + CmdDraws(f, At(f, k - 1), StackAt(f, k - 1))
  }

  // ---------- What the lowering sends ----------

  // The page named by the next sprite run, searched for up to `limit`.
  function LookPage(f: Frame, i: nat, limit: nat): int
    requires limit <= |f.order|
    decreases limit - i
  {
    if i >= limit || f.order[i] < 0 then f.fallbackPage
    else
      var kind, index := f.order[i] / KIND_SCALE, f.order[i] % KIND_SCALE;
      if kind == KIND_RECT then LookPage(f, i + 1, limit)
      else if kind != KIND_SPRITE || index >= |f.runs| then f.fallbackPage
      else if f.runs[index].count > 0 then f.pageOf(f.runs[index].first)
      else LookPage(f, i + 1, limit)
  }

  function Limit(f: Frame, i: nat): nat { if i + BATCH_QUADS < |f.order| then i + BATCH_QUADS else |f.order| }

  // The page of the last sprite of a run that has one, or the page before it.
  function RunPage(f: Frame, first: nat, count: nat, page: int): int {
    if count == 0 then page
    else
      var own := f.pageOf(first + count - 1);
      if own >= 0 then own else RunPage(f, first, count - 1, page)
  }

  function PageAfter(f: Frame, k: nat, page: int): int
    requires k < |f.order|
  {
    match At(f, k)
    case CRect(_) => if page >= 0 then page else LookPage(f, k + 1, Limit(f, k + 1))
    case CRun(run) => if run.clip.Some? then -1 else RunPage(f, run.first, run.count, page)
    case _ => -1
  }

  // The page of the open batch before command k; a span of rectangles and runs starts without one.
  function PageBefore(f: Frame, k: nat): int
    requires k <= |f.order|
  {
    if k == 0 || !Mixed(At(f, k - 1)) then -1 else PageAfter(f, k - 1, PageBefore(f, k - 1))
  }

  // Command k is a rectangle that goes out in a batch rather than at once.
  predicate Batched(f: Frame, k: nat)
    requires k < |f.order|
  {
    At(f, k).CRect? && PageAfter(f, k, PageBefore(f, k)) >= 0
  }

  function SentCmd(f: Frame, k: nat, stack: seq<Clip>): seq<Draw>
    requires k < |f.order|
  {
    if At(f, k).CRect? && Mirrored(f, At(f, k).rect) && Batched(f, k)
    then [Draw(RectPrim(At(f, k).rect), Resolved(f, stack))]
    else CmdDraws(f, At(f, k), stack)
  }

  // What commands s..k-1 paint once lowered.
  function Sent(f: Frame, s: nat, k: nat): seq<Draw>
    requires s <= k <= |f.order|
    decreases k - s
  {
    if k == s then [] else Sent(f, s, k - 1) + SentCmd(f, k - 1, StackAt(f, k - 1))
  }

  lemma {:induction false} SentJoins(f: Frame, s: nat, m: nat, k: nat)
    requires s <= m <= k <= |f.order|
    ensures Sent(f, s, k) == Sent(f, s, m) + Sent(f, m, k)
    decreases k - m
  {
    if m < k { SentJoins(f, s, m, k - 1); }
  }

  // No mirrored rectangle goes out in a batch.
  ghost predicate RectsAgree(f: Frame, k: nat)
    requires k <= |f.order|
  {
    forall j :: 0 <= j < k && At(f, j).CRect? && Mirrored(f, At(f, j).rect) ==> !Batched(f, j)
  }

  predicate IsMirror(f: Frame, d: Draw) { d.prim.RectPrim? && Mirrored(f, d.prim.rect) }
  ghost predicate HasMirror(f: Frame, draws: seq<Draw>) { exists i :: 0 <= i < |draws| && IsMirror(f, draws[i]) }

  lemma MirrorJoins(f: Frame, a: seq<Draw>, b: seq<Draw>)
    ensures HasMirror(f, a + b) <==> HasMirror(f, a) || HasMirror(f, b)
  {
    if HasMirror(f, a) {
      var i :| 0 <= i < |a| && IsMirror(f, a[i]);
      assert IsMirror(f, (a + b)[i]);
    }
    if HasMirror(f, b) {
      var i :| 0 <= i < |b| && IsMirror(f, b[i]);
      assert IsMirror(f, (a + b)[|a| + i]);
    }
  }

  lemma {:induction false} RunHasNoMirror(f: Frame, first: nat, count: nat, clip: Option<Clip>)
    ensures !HasMirror(f, RunDraws(f, first, count, clip))
  {
    if count > 0 {
      RunHasNoMirror(f, first, count - 1, clip);
    }
  }

  lemma CmdHasNoMirror(f: Frame, cmd: Cmd, stack: seq<Clip>)
    ensures !HasMirror(f, CmdDraws(f, cmd, stack))
  {
    hide Resolved;
    match cmd
    case CRun(run) =>
      RunHasNoMirror(f, run.first, run.count,
                     if run.clip.None? then Resolved(f, stack) else Resolved(f, stack + [run.clip.value]));
    case _ =>
  }

  /** The lowered commands paint the painter-order list if and only if no mirrored rectangle is batched. */
  lemma {:induction false} SentIsPaintedIff(f: Frame, k: nat)
    requires k <= |f.order|
    ensures Sent(f, 0, k) == Painted(f, 0, k) <==> RectsAgree(f, k)
    ensures HasMirror(f, Sent(f, 0, k)) <==> !RectsAgree(f, k)
    ensures !HasMirror(f, Painted(f, 0, k))
  {
    if k > 0 {
      SentIsPaintedIff(f, k - 1);
      var stack := StackAt(f, k - 1);
      CmdHasNoMirror(f, At(f, k - 1), stack);
      MirrorJoins(f, Sent(f, 0, k - 1), SentCmd(f, k - 1, stack));
      MirrorJoins(f, Painted(f, 0, k - 1), CmdDraws(f, At(f, k - 1), stack));
      SentCmdMirror(f, k - 1, stack);
    }
  }

  lemma SentCmdMirror(f: Frame, k: nat, stack: seq<Clip>)
    requires k < |f.order|
    ensures HasMirror(f, SentCmd(f, k, stack)) <==> At(f, k).CRect? && Mirrored(f, At(f, k).rect) && Batched(f, k)
  {
    hide Resolved, Batched;
    CmdHasNoMirror(f, At(f, k), stack);
    if At(f, k).CRect? && Mirrored(f, At(f, k).rect) && Batched(f, k) {
      assert IsMirror(f, SentCmd(f, k, stack)[0]);
    }
  }

  // ---------- What a call sequence paints ----------

  function ClipAfter(calls: seq<Call>): Option<Clip> {
    if calls == [] then None
    else
      match calls[|calls| - 1]
      case SetClip(c) => Some(c)
      case NoClip => None
      case _ => ClipAfter(calls[..|calls| - 1])
  }

  // A quad without area covers no pixel.
  function QuadDraw(f: Frame, q: Quad, page: int, clip: Option<Clip>): seq<Draw> {
    match q
    case RectQuad(i) => if Flat(f, i) then [] else [Draw(RectPrim(i), clip)]
    case SpriteQuad(i) => [Draw(SpritePrim(i, page), clip)]
  }

  function QuadDraws(f: Frame, quads: seq<Quad>, page: int, clip: Option<Clip>): seq<Draw> {
    if quads == [] then []
    else QuadDraws(f, quads[..|quads| - 1], page, clip) + QuadDraw(f, quads[|quads| - 1], page, clip)
  }

  lemma EmptyBatch(f: Frame, page: int, clip: Option<Clip>)
    ensures QuadDraws(f, [], page, clip) == []
  {}

  lemma MoreQuads(f: Frame, quads: seq<Quad>, q: Quad, page: int, clip: Option<Clip>)
    ensures QuadDraws(f, quads + [q], page, clip) == QuadDraws(f, quads, page, clip) + QuadDraw(f, q, page, clip)
  {
    assert (quads + [q])[..|quads|] == quads;
  }

  function CallDraws(f: Frame, c: Call, clip: Option<Clip>): seq<Draw> {
    match c
    case DrawLine(i) => [Draw(LinePrim(i), clip)]
    case FillRect(i) => [Draw(RectPrim(i), clip)]
    case DrawText(i) => [Draw(TextPrim(i), clip)]
    case Geometry(page, quads) => QuadDraws(f, quads, page, clip)
    case _ => []
  }

  function Played(f: Frame, calls: seq<Call>): seq<Draw> {
    if calls == [] then []
    else
      var rest := calls[..|calls| - 1];
      Played(f, rest) + CallDraws(f, calls[|calls| - 1], ClipAfter(rest))
  }

  lemma PlayedOne(f: Frame, calls: seq<Call>, c: Call)
    ensures Played(f, calls + [c]) == Played(f, calls) + CallDraws(f, c, ClipAfter(calls))
    ensures ClipAfter(calls + [c]) ==
              match c case SetClip(clip) => Some(clip) case NoClip => None case _ => ClipAfter(calls)
  {
    assert (calls + [c])[..|calls|] == calls;
  }

  function LineDraws(lines: seq<nat>, clip: Option<Clip>): seq<Draw> {
    seq(|lines|, i requires 0 <= i < |lines| => Draw(LinePrim(lines[i]), clip))
  }

  lemma NoMoreLines(draws: seq<Draw>, clip: Option<Clip>)
    ensures LineDraws([], clip) == [] && draws + LineDraws([], clip) == draws
  {}

  lemma LineHasNoMirror(f: Frame, draws: seq<Draw>, lines: seq<nat>, clip: Option<Clip>)
    ensures HasMirror(f, draws + LineDraws(lines, clip)) <==> HasMirror(f, draws)
  {
    MirrorJoins(f, draws, LineDraws(lines, clip));
  }

  lemma LineDrawsMore(lines: seq<nat>, i: nat, clip: Option<Clip>)
    requires i < |lines|
    ensures LineDraws(lines[..i + 1], clip) == LineDraws(lines[..i], clip) + [Draw(LinePrim(lines[i]), clip)]
  {}

  // ---------- When the line queue is long enough ----------

  // Lines in a row just before command k.
  function TrailingLines(f: Frame, k: nat): nat
    requires k <= |f.order|
  {
    if k == 0 || !At(f, k - 1).CLine? then 0 else TrailingLines(f, k - 1) + 1
  }

  /** No more than 10000 lines in a row: the queue never has to drop one. */
  ghost predicate LinesFit(f: Frame, k: nat)
    requires k <= |f.order|
  {
    forall j :: 0 <= j <= k ==> TrailingLines(f, j) <= MAX_LINES
  }

  // Every batch is non-empty and small enough for the vertex buffer.
  ghost predicate Bounded(calls: seq<Call>) {
    forall i :: 0 <= i < |calls| && calls[i].Geometry? ==> 0 < |calls[i].quads| <= 2048
  }

  // A usable but invisible sprite lies on another page: passing it also ends a batch.
  ghost predicate Jumps(f: Frame, page: int) {
    exists s: nat :: f.pageOf(s) >= 0 && !f.visible(s) && f.pageOf(s) != page
  }

  // Nothing more could go into the call: it is no batch, or it is full, or such a sprite may have ended it.
  ghost predicate IsDone(f: Frame, c: Call) { c.Geometry? ==> |c.quads| == 2048 || Jumps(f, c.page) }

  ghost predicate Parted(f: Frame, a: Call, b: Call) { IsDone(f, a) || !b.Geometry? || a.page != b.page }

  /** No batch could have gone out with the one before it. */
  ghost predicate Merged(f: Frame, calls: seq<Call>) {
    forall i :: 0 < i < |calls| ==> Parted(f, calls[i - 1], calls[i])
  }

  // The last call is no batch; it is done; a batch from this page may follow it.
  ghost predicate NoBatch(calls: seq<Call>) { calls == [] || !calls[|calls| - 1].Geometry? }
  ghost predicate Ended(f: Frame, calls: seq<Call>) { calls == [] || IsDone(f, calls[|calls| - 1]) }
  ghost predicate MayFollow(f: Frame, calls: seq<Call>, page: int) {
    Ended(f, calls) || (calls[|calls| - 1].Geometry? && calls[|calls| - 1].page != page)
  }

  lemma NoBatchEnds(f: Frame, calls: seq<Call>, page: int)
    ensures NoBatch(calls) ==> Ended(f, calls)
    ensures Ended(f, calls) ==> MayFollow(f, calls, page)
  {}

  lemma MergedOne(f: Frame, calls: seq<Call>, c: Call)
    requires Merged(f, calls) && (c.Geometry? ==> MayFollow(f, calls, c.page))
    ensures Merged(f, calls + [c])
  {
    var now := calls + [c];
    forall i | 0 < i < |now| ensures Parted(f, now[i - 1], now[i]) {
      if i < |calls| {
        assert Parted(f, calls[i - 1], calls[i]);
      } else {
        assert now[i - 1] == calls[|calls| - 1];
      }
    }
  }

  lemma {:induction false} NoLinesBetween(f: Frame, s: nat, k: nat)
    requires s < k <= |f.order|
    requires forall j :: s <= j < k ==> Mixed(At(f, j))
    ensures TrailingLines(f, k) == 0 && (LinesFit(f, k) <==> LinesFit(f, s))
    ensures StackAt(f, k) == StackAt(f, s)
    decreases k
  {
    if s < k - 1 { NoLinesBetween(f, s, k - 1); }
    assert forall j :: s < j <= k ==> TrailingLines(f, j) == 0;
  }

  lemma LinesFitStep(f: Frame, k: nat)
    requires k < |f.order|
    ensures LinesFit(f, k + 1) <==> LinesFit(f, k) && TrailingLines(f, k + 1) <= MAX_LINES
    ensures Sent(f, 0, k + 1) == Sent(f, 0, k) + SentCmd(f, k, StackAt(f, k))
    ensures TrailingLines(f, k + 1) == if At(f, k).CLine? then TrailingLines(f, k) + 1 else 0
  {}

  // ---------- The renderer ----------

  // Order entries that name no page: rectangles and empty runs.
  predicate Passed(f: Frame, entry: int) {
    entry >= 0 &&
    (entry / KIND_SCALE == KIND_RECT ||
     (entry / KIND_SCALE == KIND_SPRITE && entry % KIND_SCALE < |f.runs| && f.runs[entry % KIND_SCALE].count == 0))
  }

  // Entry i is the first sprite run with anything in it, less than a batch away.
  predicate Nearby(f: Frame, from: nat, i: nat)
    requires i < |f.order|
  {
    var entry := f.order[i];
    && from <= i < from + 2048 && entry >= 0 && entry / KIND_SCALE == KIND_SPRITE
    && entry % KIND_SCALE < |f.runs| && f.runs[entry % KIND_SCALE].count > 0
    && forall j :: from <= j < i ==> Passed(f, f.order[j])
  }

  class Renderer {
    const f: Frame
    var calls: seq<Call>   // what has been sent to the device
    var lines: seq<nat>    // queued lines
    var clips: seq<Clip>   // resolved clips, innermost last

    constructor (f: Frame)
      ensures this.f == f && calls == [] && lines == [] && clips == []
    {
      this.f := f;
      calls, lines, clips := [], [], [];
    }

    function Top(): Option<Clip>
      reads this`clips
    {
      if clips == [] then None else Some(clips[|clips| - 1])
    }

    // Each entry is its requested clip resolved against the ones below it.
    ghost predicate ClipsFor(stack: seq<Clip>)
      reads this`clips
    {
      |clips| == |stack| && forall j :: 0 <= j < |clips| ==> Some(clips[j]) == Resolved(f, stack[..j + 1])
    }

    lemma TopIsResolved(stack: seq<Clip>)
      requires ClipsFor(stack)
      ensures Top() == Resolved(f, stack)
    {
      if clips != [] { assert stack[..|clips|] == stack; }
    }

    // Every batch sent fits, and none could have been sent with the one before it.
    ghost predicate Tidy()
      reads this`calls
    {
      Bounded(calls) && Merged(f, calls)
    }

    method Emit(c: Call)
      requires Tidy() && (c.Geometry? ==> 0 < |c.quads| <= 2048 && MayFollow(f, calls, c.page))
      modifies this`calls
      ensures Tidy() && calls == old(calls) + [c]
      ensures Played(f, calls) == old(Played(f, calls)) + CallDraws(f, c, old(ClipAfter(calls)))
      ensures ClipAfter(calls) ==
                match c case SetClip(clip) => Some(clip) case NoClip => None case _ => old(ClipAfter(calls))
    {
      hide Played, Merged, MayFollow;
      PlayedOne(f, calls, c);
      MergedOne(f, calls, c);
      calls := calls + [c];
    }

    method FlushLines()
      requires Tidy()
      modifies this`calls, this`lines
      ensures Tidy() && lines == [] && ClipAfter(calls) == old(ClipAfter(calls))
      ensures old(lines != []) || old(NoBatch(calls)) ==> NoBatch(calls)
      ensures Played(f, calls) == old(Played(f, calls)) + LineDraws(old(lines), old(ClipAfter(calls)))
    {
      hide Played, ClipAfter, Merged;
      ghost var clip, before := ClipAfter(calls), Played(f, calls);
      for i := 0 to |lines|
        invariant lines == old(lines) && Tidy() && ClipAfter(calls) == clip
        invariant i > 0 || old(NoBatch(calls)) ==> NoBatch(calls)
        invariant Played(f, calls) == before + LineDraws(lines[..i], clip)
      {
        LineDrawsMore(lines, i, clip);
        Emit(DrawLine(lines[i]));
      }
      assert lines[..|lines|] == lines;
      lines := [];
    }

    // Full queue: the line is dropped silently.
    method QueueLine(line: nat)
      modifies this`lines
      ensures lines == if |old(lines)| >= MAX_LINES then old(lines) else old(lines) + [line]
    {
      if |lines| >= MAX_LINES { return; }
      lines := lines + [line];
    }

    method RestoreClip()
      requires Tidy()
      modifies this`calls
      ensures Tidy() && Played(f, calls) == old(Played(f, calls)) && ClipAfter(calls) == Top() && NoBatch(calls)
    {
      hide Merged;
      if clips != [] { Emit(SetClip(clips[|clips| - 1])); } else { Emit(NoClip); }
    }

    method PushClip(c: Clip, ghost stack: seq<Clip>)
      requires ClipsFor(stack) && |stack| < MAX_CLIPS && Tidy()
      modifies this`clips, this`calls
      ensures ClipsFor(stack + [c]) && ClipAfter(calls) == Top()
      ensures Tidy() && Played(f, calls) == old(Played(f, calls)) && NoBatch(calls)
    {
      hide Played, ClipAfter, Resolve, Merged;
      TopIsResolved(stack);
      if |clips| >= MAX_CLIPS { return; }
      var resolved := Resolve(f, c, Top());
      assert (stack + [c])[..|stack|] == stack && (stack + [c])[..|stack| + 1] == stack + [c];
      assert forall j :: 0 <= j <= |stack| ==> (stack + [c])[..j] == stack[..j];
      clips := clips + [resolved];
      Emit(SetClip(resolved));
    }

    method PopClip(ghost stack: seq<Clip>)
      requires ClipsFor(stack) && stack != [] && Tidy()
      modifies this`clips, this`calls
      ensures ClipsFor(stack[..|stack| - 1]) && ClipAfter(calls) == Top()
      ensures Tidy() && Played(f, calls) == old(Played(f, calls)) && NoBatch(calls)
    {
      hide Merged;
      if |clips| <= 0 { return; }
      ghost var rest := stack[..|stack| - 1];
      assert forall j :: 0 <= j <= |rest| ==> rest[..j] == stack[..j];
      clips := clips[..|clips| - 1];
      RestoreClip();
    }

    method Submit(page: int, quads: seq<Quad>)
      requires Tidy() && |quads| <= BATCH_QUADS && (quads != [] ==> MayFollow(f, calls, page))
      modifies this`calls
      ensures Tidy() && ClipAfter(calls) == old(ClipAfter(calls))
      ensures calls == if quads == [] then old(calls) else old(calls) + [Geometry(page, quads)]
      ensures Played(f, calls) == old(Played(f, calls)) + QuadDraws(f, quads, page, old(ClipAfter(calls)))
    {
      hide Merged, MayFollow;
      if |quads| <= 0 { return; }
      Emit(Geometry(page, quads));
    }

    // What has been painted once the open batch goes out.
    ghost function Pending(page: int, quads: seq<Quad>): seq<Draw>
      reads this`calls
    {
      Played(f, calls) + QuadDraws(f, quads, page, ClipAfter(calls))
    }

    ghost predicate BatchOk(page: int, quads: seq<Quad>)
      reads this`calls
    {
      Tidy() && |quads| < BATCH_QUADS && (page < 0 ==> quads == []) && FollowsOn(page, quads)
    }

    // The open batch may go out next, and an empty one leaves nothing to add to.
    ghost predicate FollowsOn(page: int, quads: seq<Quad>)
      reads this`calls
    {
      && (page < 0 ==> NoBatch(calls))
      && (quads == [] ==> Ended(f, calls))
      && (quads != [] ==> MayFollow(f, calls, page))
    }

    // A full batch goes out at once.
    method FlushFull(page: int, quads: seq<Quad>) returns (quads': seq<Quad>)
      requires Tidy() && |quads| <= BATCH_QUADS && (page < 0 ==> quads == []) && FollowsOn(page, quads)
      modifies this`calls
      ensures BatchOk(page, quads') && ClipAfter(calls) == old(ClipAfter(calls))
      ensures Pending(page, quads') == old(Pending(page, quads))
    {
      hide Played, ClipAfter, QuadDraws, Merged, Bounded, Jumps;
      EmptyBatch(f, page, ClipAfter(calls));
      quads' := quads;
      if |quads| == BATCH_QUADS {
        Submit(page, quads);
        quads' := [];
      }
    }

    // One sprite: a new batch when the page changes or the batch is full.
    method DrawSprite(sprite: nat, page: int, quads: seq<Quad>) returns (page': int, quads': seq<Quad>)
      requires BatchOk(page, quads)
      modifies this`calls
      ensures BatchOk(page', quads') && ClipAfter(calls) == old(ClipAfter(calls))
      ensures page' == if f.pageOf(sprite) >= 0 then f.pageOf(sprite) else page
      ensures Pending(page', quads') == old(Pending(page, quads)) +
                (if f.pageOf(sprite) >= 0 && f.visible(sprite)
                 then [Draw(SpritePrim(sprite, f.pageOf(sprite)), ClipAfter(calls))] else [])
    {
      hide Played, ClipAfter, QuadDraws;
      EmptyBatch(f, page, ClipAfter(calls));
      page', quads' := page, quads;
      var own := f.pageOf(sprite);
      if own < 0 { return; }
      if page >= 0 && own != page {
        Submit(page, quads);
        quads' := [];
      }
      page' := own;
      EmptyBatch(f, own, ClipAfter(calls));
      assert Pending(page', quads') == old(Pending(page, quads));
      if f.visible(sprite) {
        MoreQuads(f, quads', SpriteQuad(sprite), own, ClipAfter(calls));
        quads' := quads' + [SpriteQuad(sprite)];
      }
      quads' := FlushFull(page', quads');
    }

    method DrawRun(run: Run, page: int, quads: seq<Quad>) returns (page': int, quads': seq<Quad>)
      requires BatchOk(page, quads)
      modifies this`calls
      ensures BatchOk(page', quads') && ClipAfter(calls) == old(ClipAfter(calls))
      ensures page' == RunPage(f, run.first, run.count, page)
      ensures Pending(page', quads') ==
              old(Pending(page, quads)) + RunDraws(f, run.first, run.count, ClipAfter(calls))
    {
      hide Played, QuadDraws;
      page', quads' := page, quads;
      for offset := 0 to run.count
        invariant page' == RunPage(f, run.first, offset, page)
        invariant BatchOk(page', quads') && ClipAfter(calls) == old(ClipAfter(calls))
        invariant Pending(page', quads') ==
                  old(Pending(page, quads)) + RunDraws(f, run.first, offset, ClipAfter(calls))
      {
        page', quads' := DrawSprite(run.first + offset, page', quads');
      }
    }

    // A run with a clip of its own: flush, narrow the clip, draw, flush, restore.
    method DrawClippedRun(run: Run, page: int, quads: seq<Quad>, ghost stack: seq<Clip>)
      requires BatchOk(page, quads) && run.clip.Some? && ClipsFor(stack) && ClipAfter(calls) == Top()
      modifies this`calls
      ensures Tidy() && ClipAfter(calls) == Top() && NoBatch(calls)
      ensures Played(f, calls) == old(Pending(page, quads)) +
                RunDraws(f, run.first, run.count, Resolved(f, stack + [run.clip.value]))
    {
      hide Played, ClipAfter, QuadDraws, RunDraws, ClipsFor, Resolve, Resolved;
      TopIsResolved(stack);
      ResolvedMore(f, stack, run.clip.value);
      EmptyBatch(f, page, ClipAfter(calls));
      if |quads| > 0 && page >= 0 { Submit(page, quads); }
      Emit(SetClip(Resolve(f, run.clip.value, Top())));
      EmptyBatch(f, -1, ClipAfter(calls));
      assert Pending(-1, []) == old(Pending(page, quads));
      var page', quads' := DrawRun(run, -1, []);
      EmptyBatch(f, page', ClipAfter(calls));
      if |quads'| > 0 && page' >= 0 { Submit(page', quads'); }
      RestoreClip();
    }

    // The page the next sprite run will need, searched for at most one batch ahead.
    method LookaheadPage(from: nat) returns (page: int)
      ensures forall i :: from <= i < |f.order| && Nearby(f, from, i) ==>
                page == f.pageOf(f.runs[f.order[i] % KIND_SCALE].first)
      ensures (forall i :: from <= i < |f.order| ==> !Nearby(f, from, i)) ==> page == f.fallbackPage
      ensures page == LookPage(f, from, Limit(f, from))
    {
      var limit := if from + BATCH_QUADS < |f.order| then from + BATCH_QUADS else |f.order|;
      var i := from;
      while i < limit
        invariant LookPage(f, from, limit) == LookPage(f, i, limit)
        invariant from <= i && forall j :: from <= j < i && j < limit ==> Passed(f, f.order[j])
        decreases limit - i
      {
        var entry := f.order[i];
        if entry < 0 { break; }
        var kind, index := entry / KIND_SCALE, entry % KIND_SCALE;
        if kind != KIND_RECT {
          if kind != KIND_SPRITE || index >= |f.runs| { break; }
          if f.runs[index].count > 0 {
            assert Nearby(f, from, i);
            return f.pageOf(f.runs[index].first);
          }
        }
        i := i + 1;
      }
      return f.fallbackPage;
    }

    // A rectangle joins the open batch, opens one on a nearby page, or is filled at once; filling
    // skips it unless both extents are positive.
    method DrawRect(rect: nat, k: nat, page: int, quads: seq<Quad>) returns (page': int, quads': seq<Quad>)
      requires BatchOk(page, quads)
      modifies this`calls
      ensures Tidy() && ClipAfter(calls) == old(ClipAfter(calls))
      ensures |quads'| <= BATCH_QUADS && (page' < 0 ==> quads' == []) && FollowsOn(page', quads')
      ensures page' == if page >= 0 then page else LookPage(f, k + 1, Limit(f, k + 1))
      ensures Pending(page', quads') == old(Pending(page, quads)) +
                (if Fills(f, rect) || (Mirrored(f, rect) && page' >= 0)
                 then [Draw(RectPrim(rect), ClipAfter(calls))] else [])
    {
      hide Played, ClipAfter, QuadDraws;
      EmptyBatch(f, page, ClipAfter(calls));
      page', quads' := page, quads;
      NoBatchEnds(f, calls, page);
      if page < 0 { page' := LookaheadPage(k + 1); }
      EmptyBatch(f, page', ClipAfter(calls));
      if page' < 0 {
        if f.rectW(rect) <= 0.0 || f.rectH(rect) <= 0.0 { return; }
        Emit(FillRect(rect));
        return;
      }
      MoreQuads(f, quads, RectQuad(rect), page', ClipAfter(calls));
      quads' := quads + [RectQuad(rect)];
    }

    // One command of a span of rectangles and sprite runs.
    method DrawMixed(k: nat, page: int, quads: seq<Quad>, ghost stack: seq<Clip>)
      returns (page': int, quads': seq<Quad>)
      requires k < |f.order| && Mixed(At(f, k)) && page == PageBefore(f, k)
      requires BatchOk(page, quads) && ClipsFor(stack) && ClipAfter(calls) == Top()
      modifies this`calls
      ensures BatchOk(page', quads') && ClipAfter(calls) == Top() && page' == PageBefore(f, k + 1)
      ensures Pending(page', quads') == old(Pending(page, quads)) + SentCmd(f, k, stack)
    {
      TopIsResolved(stack);
      hide Played, ClipAfter, RunDraws, QuadDraws, ClipsFor, Resolved, LookPage, RunPage;
      hide Merged, Bounded, NoBatch, Ended, MayFollow;
      EmptyBatch(f, -1, ClipAfter(calls));
      var kind, index := f.order[k] / KIND_SCALE, f.order[k] % KIND_SCALE;
      if kind == KIND_RECT {
        page', quads' := DrawRect(index, k, page, quads);
      } else {
        var run := f.runs[index];
        if run.clip.Some? {
          DrawClippedRun(run, page, quads, stack);
          page', quads' := -1, [];
          NoBatchEnds(f, calls, -1);
        } else {
          page', quads' := DrawRun(run, page, quads);
        }
      }
      quads' := FlushFull(page', quads');
    }

    /** A maximal span of rectangles and sprite runs, lowered to batches. */
    method DrawSpan(start: nat) returns (next: nat)
      requires EveryEntryRefers(f) && start < |f.order| && Mixed(At(f, start))
      requires start == 0 || !Mixed(At(f, start - 1))
      requires Tidy() && NoBatch(calls) && ClipsFor(StackAt(f, start)) && ClipAfter(calls) == Top()
      modifies this`calls
      ensures start < next <= |f.order| && (next == |f.order| || !Mixed(At(f, next)))
      ensures forall j :: start <= j < next ==> Mixed(At(f, j))
      ensures Tidy() && ClipAfter(calls) == Top()
      ensures Played(f, calls) == old(Played(f, calls)) + Sent(f, start, next)
    {
      hide Decode, StackAt, ClipsFor, Played, SentCmd, QuadDraws, ClipAfter, PageAfter;
      var page, quads := -1, [];
      EmptyBatch(f, page, ClipAfter(calls));
      next := start;
      ghost var before := Played(f, calls);
      while next < |f.order|
        invariant start <= next <= |f.order|
        invariant next == start ==> Mixed(At(f, start))
        invariant forall j :: start <= j < next ==> Mixed(At(f, j))
        invariant BatchOk(page, quads) && ClipAfter(calls) == Top() && page == PageBefore(f, next)
        invariant Pending(page, quads) == before + Sent(f, start, next)
        decreases |f.order| - next
      {
        var entry := f.order[next];
        MixedByKind(f, next);
        if entry < 0 { break; }
        var kind := entry / KIND_SCALE;
        if kind != KIND_RECT && kind != KIND_SPRITE { break; }
        if next > start { NoLinesBetween(f, start, next); }
        page, quads := DrawMixed(next, page, quads, StackAt(f, start));
        next := next + 1;
      }
      EmptyBatch(f, page, ClipAfter(calls));
      if |quads| > 0 && page >= 0 { Submit(page, quads); }
    }

    // Everything painted or queued after k commands; `lost` lines were dropped.
    ghost predicate Progress(k: nat, lost: nat)
      requires k <= |f.order|
      reads this
    {
      && Tidy() && (NoBatch(calls) || lines != [] || (k > 0 && Mixed(At(f, k - 1))))
      && ClipsFor(StackAt(f, k)) && ClipAfter(calls) == Top()
      && |lines| == (if TrailingLines(f, k) < MAX_LINES then TrailingLines(f, k) else MAX_LINES)
      && (lost == 0 <==> LinesFit(f, k))
      && Shown(k, lost)
    }

    ghost predicate Shown(k: nat, lost: nat)
      requires k <= |f.order|
      reads this
    {
      var shown := Played(f, calls) + LineDraws(lines, ClipAfter(calls));
      && |shown| + lost == |Sent(f, 0, k)|
      && (lost == 0 ==> shown == Sent(f, 0, k))
      && (HasMirror(f, shown) <==> HasMirror(f, Sent(f, 0, k)))
    }

    // Sends the queued lines out before anything else is drawn.
    method FlushIfPending(pendingKind: int, k: nat, ghost lost: nat)
      requires k <= |f.order| && Progress(k, lost) && (lines != [] ==> pendingKind == KIND_LINE)
      modifies this`calls, this`lines
      ensures Tidy() && lines == [] && ClipAfter(calls) == Top() && (NoBatch(calls) || (k > 0 && Mixed(At(f, k - 1))))
      ensures Shown(k, lost)
    {
      hide Played, Sent, HasMirror, ClipsFor, LinesFit, TrailingLines, StackAt;
      ghost var shown := Played(f, calls) + LineDraws(lines, ClipAfter(calls));
      if pendingKind == KIND_LINE { FlushLines(); }
      NoMoreLines(Played(f, calls), ClipAfter(calls));
      assert Played(f, calls) + LineDraws(lines, ClipAfter(calls)) == shown;
    }

    method StepLine(k: nat, ghost lost: nat) returns (ghost lost': nat)
      requires k < |f.order| && At(f, k).CLine? && Progress(k, lost)
      modifies this`lines
      ensures Progress(k + 1, lost')
    {
      hide Decode, Played, ClipsFor, Resolved, Merged, Bounded, NoBatch, ClipAfter, RunDraws;
      LinesFitStep(f, k);
      TopIsResolved(StackAt(f, k));
      ghost var clip := ClipAfter(calls);
      ghost var line := At(f, k).line;
      lost' := if |lines| >= MAX_LINES then lost + 1 else lost;
      assert |lines| < MAX_LINES ==>
        LineDraws(lines + [line], clip) == LineDraws(lines, clip) + [Draw(LinePrim(line), clip)];
      LineIndex(f, k);
      LineHasNoMirror(f, Played(f, calls), lines, clip);
      LineHasNoMirror(f, Played(f, calls), lines + [line], clip);
      MirrorJoins(f, Sent(f, 0, k), SentCmd(f, k, StackAt(f, k)));
      QueueLine(f.order[k] % KIND_SCALE);
      assert Shown(k + 1, lost');
    }

    // After a flush: the clip changed, or something was drawn directly.
    lemma StepDone(k: nat, next: nat, lost: nat, painted: seq<Draw>)
      requires k < next <= |f.order| && !At(f, next - 1).CLine?
      requires Tidy() && lines == [] && ClipsFor(StackAt(f, next)) && ClipAfter(calls) == Top()
      requires NoBatch(calls) || Mixed(At(f, next - 1))
      requires LinesFit(f, next) <==> LinesFit(f, k)
      requires lost == 0 <==> LinesFit(f, k)
      requires |painted| + lost == |Sent(f, 0, k)| && (lost == 0 ==> painted == Sent(f, 0, k))
      requires HasMirror(f, painted) <==> HasMirror(f, Sent(f, 0, k))
      requires Played(f, calls) == painted + Sent(f, k, next)
      ensures Progress(next, lost)
    {
      hide Sent, Played, HasMirror;
      SentJoins(f, 0, k, next);
      MirrorJoins(f, painted, Sent(f, k, next));
      MirrorJoins(f, Sent(f, 0, k), Sent(f, k, next));
      NoMoreLines(Played(f, calls), ClipAfter(calls));
    }

    method StepClip(k: nat, ghost lost: nat)
      requires ValidFrame(f) && k < |f.order| && (At(f, k).CPush? || At(f, k).CPop?) && Progress(k, lost)
      modifies this`calls, this`lines, this`clips
      ensures Progress(k + 1, lost) && lines == []
    {
      hide Decode, StackAt, Sent, Played, ClipsFor, Resolved, LinesFit, TrailingLines, ValidFrame, HasMirror;
      ghost var stack := StackAt(f, k);
      ClipCommand(f, k);
      LinesFitStep(f, k);
      FlushLines();
      ghost var painted := Played(f, calls);
      var kind, index := f.order[k] / KIND_SCALE, f.order[k] % KIND_SCALE;
      if kind == KIND_PUSH {
        PushClip(f.clips[index], stack);
      } else {
        PopClip(stack);
      }
      StepDone(k, k + 1, lost, painted);
    }

    method StepText(k: nat, pendingKind: int, ghost lost: nat)
      requires k < |f.order| && At(f, k).CText? && Progress(k, lost) && (lines != [] ==> pendingKind == KIND_LINE)
      modifies this`calls, this`lines
      ensures Progress(k + 1, lost) && lines == []
    {
      hide Decode, StackAt, Sent, Played, ClipsFor, Resolved, LinesFit, TrailingLines, CmdDraws, HasMirror;
      TextCommand(f, k);
      TopIsResolved(StackAt(f, k));
      LinesFitStep(f, k);
      FlushIfPending(pendingKind, k, lost);
      NoMoreLines(Played(f, calls), ClipAfter(calls));
      ghost var painted := Played(f, calls);
      Emit(DrawText(f.order[k] % KIND_SCALE));
      StepDone(k, k + 1, lost, painted);
    }

    method StepSpan(k: nat, pendingKind: int, ghost lost: nat) returns (next: nat)
      requires EveryEntryRefers(f) && k < |f.order| && Mixed(At(f, k)) && (k == 0 || !Mixed(At(f, k - 1)))
      requires Progress(k, lost) && (lines != [] ==> pendingKind == KIND_LINE)
      modifies this`calls, this`lines
      ensures k < next <= |f.order| && Progress(next, lost) && lines == []
      ensures next == |f.order| || !Mixed(At(f, next))
    {
      hide Decode, Played, Sent, HasMirror, Resolved;
      FlushIfPending(pendingKind, k, lost);
      NoMoreLines(Played(f, calls), ClipAfter(calls));
      ghost var painted := Played(f, calls);
      next := DrawSpan(k);
      NoLinesBetween(f, k, next);
      StepDone(k, next, lost, painted);
    }

    /** The ordered replay. No batch exceeds the vertex buffer, and what the device paints is
        the painter-order list, clips and pages included, if and only if no more than 10000
        lines stand in a row and no mirrored rectangle goes out in a batch. */
    method SubmitFrame()
      requires ValidFrame(f) && calls == [] && lines == [] && clips == []
      modifies this
      ensures Bounded(calls) && Merged(f, calls)
      ensures Played(f, calls) == Painted(f, 0, |f.order|) <==> LinesFit(f, |f.order|) && RectsAgree(f, |f.order|)
      ensures Played(f, calls) == Sent(f, 0, |f.order|) <==> LinesFit(f, |f.order|)
    {
      hide Decode, Played, Sent, Painted, ClipsFor, StackAt, LinesFit, TrailingLines, RectsAgree;
      ghost var lost := 0;
      StartProgress();
      var pendingKind, k := 0, 0;
      while k < |f.order|
        invariant k <= |f.order| && Progress(k, lost)
        invariant lines != [] ==> pendingKind == KIND_LINE
        invariant k < |f.order| && Mixed(At(f, k)) ==> k == 0 || !Mixed(At(f, k - 1))
        decreases |f.order| - k
      {
        var entry := f.order[k];
        EntryKind(f, k);
        var kind := entry / KIND_SCALE;
        if kind == KIND_PUSH || kind == KIND_POP {
          StepClip(k, lost);
          pendingKind, k := 0, k + 1;
        } else if kind == KIND_LINE {
          lost := StepLine(k, lost);
          pendingKind, k := kind, k + 1;
        } else if kind == KIND_SPRITE || kind == KIND_RECT {
          k := StepSpan(k, pendingKind, lost);
          pendingKind := 0;
        } else {
          StepText(k, pendingKind, lost);
          pendingKind, k := kind, k + 1;
        }
      }
      FlushIfPending(pendingKind, k, lost);
      NoMoreLines(Played(f, calls), ClipAfter(calls));
      SentIsPaintedIff(f, |f.order|);
    }

    lemma StartProgress()
      requires calls == [] && lines == [] && clips == []
      ensures Progress(0, 0)
    {}
  }

  lemma TextCommand(f: Frame, k: nat)
    requires k < |f.order| && At(f, k).CText?
    ensures Sent(f, k, k + 1) == [Draw(TextPrim(f.order[k] % KIND_SCALE), Resolved(f, StackAt(f, k)))]
    ensures StackAt(f, k + 1) == StackAt(f, k)
  {
    assert Sent(f, k, k) == [];
  }

  lemma ClipCommand(f: Frame, k: nat)
    requires ValidFrame(f) && k < |f.order| && (At(f, k).CPush? || At(f, k).CPop?)
    ensures Sent(f, k, k + 1) == []
    ensures var kind, index, stack := f.order[k] / KIND_SCALE, f.order[k] % KIND_SCALE, StackAt(f, k);
            if kind == KIND_PUSH then
              && 0 <= index < |f.clips| && |stack| < MAX_CLIPS && StackAt(f, k + 1) == stack + [f.clips[index]]
            else stack != [] && StackAt(f, k + 1) == stack[..|stack| - 1]
  {
    assert |StackAt(f, k + 1)| <= MAX_CLIPS;
    assert Sent(f, k, k) == [];
  }

  lemma LineIndex(f: Frame, k: nat)
    requires k < |f.order| && At(f, k).CLine?
    ensures At(f, k).line == f.order[k] % KIND_SCALE
  {}

  lemma EntryKind(f: Frame, k: nat)
    requires ValidFrame(f) && k < |f.order|
    ensures f.order[k] >= 0
    ensures var kind := f.order[k] / KIND_SCALE;
            && ((At(f, k).CPush? || At(f, k).CPop?) <==> kind == KIND_PUSH || kind == KIND_POP)
            && (At(f, k).CLine? <==> kind == KIND_LINE)
            && (Mixed(At(f, k)) <==> kind == KIND_SPRITE || kind == KIND_RECT)
            && (At(f, k).CText? <==> kind == KIND_TEXT)
            && (kind == KIND_PUSH || kind == KIND_POP || kind == KIND_LINE || kind == KIND_SPRITE ||
                kind == KIND_RECT || kind == KIND_TEXT)
  {
    assert !At(f, k).CSkip?;
  }

  lemma {:induction false} OnlyLines(f: Frame, k: nat)
    requires k <= |f.order| && forall j :: 0 <= j < |f.order| ==> At(f, j).CLine?
    ensures TrailingLines(f, k) == k && StackAt(f, k) == []
  {
    if k > 0 { OnlyLines(f, k - 1); }
  }

  /** The validator accepts frames that overflow the line queue: 10001 lines in a row. */
  lemma ValidFrameMayLoseLines() returns (f: Frame)
    ensures ValidFrame(f) && !LinesFit(f, |f.order|)
  {
    f := Frame(seq(MAX_LINES + 1, i => KIND_LINE * KIND_SCALE), 1, 0, 0, [], [], i => -1, i => false, -1,
               i => 0.0, i => 0.0, 0.0, 0.0);
    assert forall j :: 0 <= j < |f.order| ==> At(f, j) == CLine(0);
    forall k | 0 <= k <= |f.order| ensures |StackAt(f, k)| <= MAX_CLIPS { OnlyLines(f, k); }
    OnlyLines(f, |f.order|);
  }

  /** The validator accepts a frame whose one rectangle is mirrored and goes out in a batch. */
  lemma ValidFrameMayMirror() returns (f: Frame)
    ensures ValidFrame(f) && LinesFit(f, |f.order|) && !RectsAgree(f, |f.order|)
  {
    f := Frame([KIND_RECT * KIND_SCALE], 0, 1, 0, [], [], i => -1, i => false, 0, i => -1.0, i => 1.0, 0.0, 0.0);
    assert At(f, 0) == CRect(0) && PageBefore(f, 0) == -1;
    assert LookPage(f, 1, Limit(f, 1)) == 0;
    assert Batched(f, 0);
    forall k | 0 <= k <= |f.order| ensures StackAt(f, k) == [] && TrailingLines(f, k) == 0 {
      if k == 1 { assert StackAt(f, 0) == []; }
    }
  }
}
