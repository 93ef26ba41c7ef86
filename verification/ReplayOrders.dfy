/**
  What the numbers in a frame's order list mean (runtime/stasis_graphics.c). A drawing program is a list
  of orders that name lines, sprite runs, texts, rectangles and clips by index; the entry of an order is
  its kind times 16384 plus that index. The painter here takes the orders one by one and knows nothing
  of entries, batches or queues.
*/
module ReplayOrders {
  import opened Options
  import opened Replay

  datatype Order = Line(i: nat) | Sprites(i: nat) | Words(i: nat) | Box(i: nat) | Push(i: nat) | Pop

  function Entry(o: Order): int {
    match o
    case Line(i) => 16384 + i
    case Sprites(i) => 2 * 16384 + i
    case Words(i) => 3 * 16384 + i
    case Box(i) => 4 * 16384 + i
    case Push(i) => 5 * 16384 + i
    case Pop => 6 * 16384
  }

  // The order names something the frame has.
  predicate Names(f: Frame, o: Order) {
    match o
    case Line(i) => i < 16384 && i < f.lineCount
    case Sprites(i) => i < 16384 && i < |f.runs|
    case Words(i) => i < 16384 && i < f.textCount
    case Box(i) => i < 16384 && i < f.rectCount
    case Push(i) => i < 16384 && i < |f.clips|
    case Pop => true
  }

  ghost predicate Encodes(f: Frame, program: seq<Order>) {
    && |program| == |f.order|
    && forall k :: 0 <= k < |program| ==> Names(f, program[k]) && f.order[k] == Entry(program[k])
  }

  // ---------- Every valid frame encodes one program ----------

  lemma EntryIsUnique(f: Frame, o: Order, p: Order)
    requires Names(f, o) && Names(f, p) && Entry(o) == Entry(p)
    ensures o == p
  {}

  lemma ProgramIsUnique(f: Frame, p: seq<Order>, q: seq<Order>)
    requires Encodes(f, p) && Encodes(f, q)
    ensures p == q
  {
    forall k | 0 <= k < |p| ensures p[k] == q[k] { EntryIsUnique(f, p[k], q[k]); }
  }

  function OrderOf(entry: int): Order
    requires entry >= 0
  {
    var kind, index := entry / 16384, entry % 16384;
    if kind == 1 then Line(index)
    else if kind == 2 then Sprites(index)
    else if kind == 3 then Words(index)
    else if kind == 4 then Box(index)
    else if kind == 5 then Push(index)
    else Pop
  }

  lemma EntryReads(f: Frame, k: nat)
    requires EveryEntryRefers(f) && k < |f.order|
    ensures f.order[k] >= 0 && Names(f, OrderOf(f.order[k])) && f.order[k] == Entry(OrderOf(f.order[k]))
  {
    assert !At(f, k).CSkip?;
  }

  /** The validator accepts only frames that encode a program, and each encodes just one. */
  lemma ValidFrameEncodes(f: Frame) returns (program: seq<Order>)
    requires EveryEntryRefers(f)
    ensures Encodes(f, program) && forall p :: Encodes(f, p) ==> p == program
  {
    forall k | 0 <= k < |f.order| ensures f.order[k] >= 0 { EntryReads(f, k); }
    program := seq(|f.order|, k requires 0 <= k < |f.order| && f.order[k] >= 0 => OrderOf(f.order[k]));
    forall k | 0 <= k < |f.order| ensures Names(f, program[k]) && f.order[k] == Entry(program[k]) { EntryReads(f, k); }
    forall p | Encodes(f, p) ensures p == program { ProgramIsUnique(f, p, program); }
  }

  // ---------- The painter ----------

  // The visible sprites among first..last - 1, in order, each from its own page.
  function SpriteDraws(f: Frame, first: nat, last: nat, clip: Option<Clip>): seq<Draw>
    decreases last - first
  {
    if first >= last then []
    else
      (if f.pageOf(first) >= 0 && f.visible(first) then [Draw(SpritePrim(first, f.pageOf(first)), clip)] else []) +
      SpriteDraws(f, first + 1, last, clip)
  }

  function RunClip(run: Run, stack: seq<Clip>): seq<Clip> {
    match run.clip case None => stack case Some(own) => stack + [own]
  }

  // What one order paints under a stack of clips, and the stack it leaves.
  function OrderDraws(f: Frame, o: Order, stack: seq<Clip>): seq<Draw>
    requires Names(f, o)
  {
    var clip := Resolved(f, stack);
    match o
    case Line(i) => [Draw(LinePrim(i), clip)]
    case Words(i) => [Draw(TextPrim(i), clip)]
    case Box(i) => if f.rectW(i) > 0.0 && f.rectH(i) > 0.0 then [Draw(RectPrim(i), clip)] else []
    case Sprites(i) =>
      var run := f.runs[i];
      SpriteDraws(f, run.first, run.first + run.count, Resolved(f, RunClip(run, stack)))
    case _ => []
  }

  function OrderStack(f: Frame, o: Order, stack: seq<Clip>): seq<Clip>
    requires Names(f, o)
  {
    match o
    case Push(i) => stack + [f.clips[i]]
    case Pop => if stack == [] then [] else stack[..|stack| - 1]
    case _ => stack
  }

  function Paint(f: Frame, program: seq<Order>, stack: seq<Clip>): seq<Draw>
    requires forall k :: 0 <= k < |program| ==> Names(f, program[k])
  {
    if program == [] then []
    else
      assert Names(f, program[0]);
      OrderDraws(f, program[0], stack) + Paint(f, program[1..], OrderStack(f, program[0], stack))
  }

  // ---------- Reading entry by entry paints the program ----------

  lemma {:induction false} SpritesInOrder(f: Frame, first: nat, count: nat, clip: Option<Clip>)
    ensures RunDraws(f, first, count, clip) == SpriteDraws(f, first, first + count, clip)
    decreases count
  {
    if count > 0 {
      SpritesInOrder(f, first, count - 1, clip);
      LastSprite(f, first, first + count - 1, clip);
    }
  }

  lemma {:induction false} LastSprite(f: Frame, first: nat, last: nat, clip: Option<Clip>)
    requires first <= last
    ensures SpriteDraws(f, first, last + 1, clip) ==
            SpriteDraws(f, first, last, clip) + SpriteDraws(f, last, last + 1, clip)
    decreases last - first
  {
    if first < last { LastSprite(f, first + 1, last, clip); }
  }

  lemma {:induction false} PaintedJoins(f: Frame, s: nat, m: nat, k: nat)
    requires s <= m <= k <= |f.order|
    ensures Painted(f, s, k) == Painted(f, s, m) + Painted(f, m, k)
    decreases k - m
  {
    if m < k { PaintedJoins(f, s, m, k - 1); }
  }

  // One entry and the order it encodes.
  lemma OneOrder(f: Frame, o: Order, k: nat)
    requires k < |f.order| && Names(f, o) && f.order[k] == Entry(o)
    ensures At(f, k) ==
            match o
            case Line(i) => CLine(i)
            case Words(i) => CText(i)
            case Box(i) => CRect(i)
            case Sprites(i) => CRun(f.runs[i])
            case Push(i) => CPush(f.clips[i])
            case Pop => CPop
  {}

  lemma OneIsPainted(f: Frame, o: Order, k: nat)
    requires k < |f.order| && Names(f, o) && f.order[k] == Entry(o)
    ensures Painted(f, k, k + 1) == OrderDraws(f, o, StackAt(f, k))
    ensures StackAt(f, k + 1) == OrderStack(f, o, StackAt(f, k))
  {
    hide Decode, Resolved, RunDraws, SpriteDraws;
    OneOrder(f, o, k);
    assert Painted(f, k, k) == [];
    if o.Sprites? {
      var run := f.runs[o.i];
      SpritesInOrder(f, run.first, run.count, Resolved(f, RunClip(run, StackAt(f, k))));
    }
  }

  lemma {:induction false} RestIsPainted(f: Frame, program: seq<Order>, k: nat)
    requires Encodes(f, program) && k <= |program|
    ensures Painted(f, k, |f.order|) == Paint(f, program[k..], StackAt(f, k))
    decreases |program| - k
  {
    hide Decode, Resolved, StackAt, OrderDraws, OrderStack, CmdDraws;
    if k < |program| {
      RestIsPainted(f, program, k + 1);
      OneIsPainted(f, program[k], k);
      PaintedJoins(f, k, k + 1, |f.order|);
      assert program[k..][1..] == program[k + 1..];
    }
  }

  // ---------- The condition on lines ----------

  // 10001 lines stand in a row.
  ghost predicate Crowded(program: seq<Order>) {
    exists j :: 0 <= j && j + 10000 < |program| && LinesFrom(program, j)
  }

  ghost predicate LinesFrom(program: seq<Order>, j: int)
    requires 0 <= j && j + 10000 < |program|
  {
    forall m :: j <= m <= j + 10000 ==> program[m].Line?
  }

  lemma {:induction false} CountsLines(f: Frame, program: seq<Order>, k: nat)
    requires Encodes(f, program) && k <= |program|
    ensures TrailingLines(f, k) <= k
    ensures forall m :: k - TrailingLines(f, k) <= m < k ==> program[m].Line?
    ensures TrailingLines(f, k) < k ==> !program[k - TrailingLines(f, k) - 1].Line?
  {
    hide Decode;
    if k > 0 {
      OneOrder(f, program[k - 1], k - 1);
      CountsLines(f, program, k - 1);
    }
  }

  lemma LinesFitIff(f: Frame, program: seq<Order>)
    requires Encodes(f, program)
    ensures LinesFit(f, |f.order|) <==> !Crowded(program)
  {
    hide TrailingLines;
    if !LinesFit(f, |f.order|) {
      var k :| 0 <= k <= |f.order| && TrailingLines(f, k) > MAX_LINES;
      CountsLines(f, program, k);
      assert LinesFrom(program, k - 10001);
    }
    if Crowded(program) {
      var j :| 0 <= j && j + 10000 < |program| && LinesFrom(program, j);
      CountsLines(f, program, j + 10001);
      var c := TrailingLines(f, j + 10001);
      assert c <= 10000 ==> program[j + 10000 - c].Line?;
    }
  }

  /** The ordered replay of an encoded program: the device paints exactly what the program's painter
      paints if and only if no more than 10000 lines stand in a row and no mirrored rectangle goes
      out in a batch. Every batch holds 1 to 2048 quads, and none could have gone out with the one before
      it unless a usable but invisible sprite lies on another page. */
  method ReplayProgram(f: Frame, ghost program: seq<Order>) returns (calls: seq<Call>)
    requires ValidFrame(f) && Encodes(f, program)
    ensures Bounded(calls) && Merged(f, calls)
    ensures Played(f, calls) == Paint(f, program, []) <==> !Crowded(program) && RectsAgree(f, |f.order|)
  {
    var renderer := new Renderer(f);
    renderer.SubmitFrame();
    calls := renderer.calls;
    RestIsPainted(f, program, 0);
    assert program[0..] == program && StackAt(f, 0) == [];
    LinesFitIff(f, program);
  }
}
