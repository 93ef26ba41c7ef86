/**
  One page of the sprite atlas (runtime/stasis_graphics.c): a shelf cursor that hands out
  fresh rows, and a list of freed rectangles that are merged with their neighbours when
  they come back and split when they are used again.

  `live` (the padded rectangles currently allocated) and `handed` (every rectangle the
  shelf has given out since the page was last empty) are history variables.
*/
module AtlasPage {
  import opened CInts

  const PADDING: int := 1
  const MAX_FREE_RECTS: nat := 256
  const FIRST_X: int := 1
  const FIRST_Y: int := 6  // rows above hold the white and placeholder texels

  datatype Rect = Rect(x: int, y: int, w: int, h: int) {
    predicate Empty() { w <= 0 || h <= 0 }
    predicate Contains(px: int, py: int) { x <= px < x + w && y <= py < y + h }
  }

  predicate Disjoint(a: Rect, b: Rect) {
    a.x + a.w <= b.x || b.x + b.w <= a.x || a.y + a.h <= b.y || b.y + b.h <= a.y
  }

  /** For non-empty rectangles the four comparisons mean exactly: no common pixel. */
  lemma DisjointMeansNoCommonPixel(a: Rect, b: Rect)
    requires !a.Empty() && !b.Empty()
    ensures Disjoint(a, b) <==> !exists px, py :: a.Contains(px, py) && b.Contains(px, py)
  {
    if !Disjoint(a, b) {
      var px := if a.x < b.x then b.x else a.x;
      var py := if a.y < b.y then b.y else a.y;
      assert a.Contains(px, py) && b.Contains(px, py);
    }
  }

  ghost predicate InSet(rects: set<Rect>, px: int, py: int) {
    exists r :: r in rects && r.Contains(px, py)
  }

  datatype Layout = Layout(
    width: int, height: int,
    cursorX: int, cursorY: int, rowH: int,
    free: set<Rect>, live: set<Rect>, handed: set<Rect>, exact: bool)

  predicate Inside(l: Layout, r: Rect) {
    FIRST_X <= r.x && r.x + r.w <= l.width && FIRST_Y <= r.y && r.y + r.h <= l.height
  }

  // In a finished row, or left of the cursor in the current one.
  predicate BehindFrontier(l: Layout, r: Rect) {
    r.y + r.h <= l.cursorY || (r.x + r.w <= l.cursorX && r.y + r.h <= l.cursorY + l.rowH)
  }

  predicate Placed(l: Layout, r: Rect) {
    !r.Empty() && Inside(l, r) && BehindFrontier(l, r)
  }

  ghost predicate AllPlaced(l: Layout) {
    && (forall r :: r in l.live ==> Placed(l, r))
    && (forall r :: r in l.free ==> Placed(l, r))
    && (forall r :: r in l.handed ==> Placed(l, r))
  }

  ghost predicate PairwiseDisjoint(rects: set<Rect>) {
    forall a, b :: a in rects && b in rects && a != b ==> Disjoint(a, b)
  }

  // Every pixel handed out is live or free.
  ghost predicate NoHole(l: Layout) {
    forall px, py :: InSet(l.handed, px, py) ==> InSet(l.live + l.free, px, py)
  }

  // Live and free lie in what was handed out, and are all of it exactly while `exact`.
  ghost predicate Tiled(l: Layout) {
    && (forall px, py :: InSet(l.live + l.free, px, py) ==> InSet(l.handed, px, py))
    && (l.exact <==> NoHole(l))
  }

  // The current row of the shelf: where it is, its right edge and its height.
  datatype Row = Row(y: int, right: int, h: int) {
    predicate Has(r: Rect) { r.y == y && r.x + r.w <= right && r.h <= h }
    ghost predicate Ends(handed: set<Rect>, r: Rect) { r in handed && Has(r) && r.x + r.w == right }
    ghost predicate Fills(handed: set<Rect>, r: Rect) { r in handed && Has(r) && r.h == h }

    // Earlier rows end above this one.
    ghost predicate Follows(handed: set<Rect>) {
      && (forall r :: r in handed ==> r.y + r.h <= y || Has(r))
      && (if handed == {} then right == FIRST_X && y == FIRST_Y && h == 0
          else (exists r :: Ends(handed, r)) && (exists r :: Fills(handed, r)))
    }
  }

  function RowOf(l: Layout): Row { Row(l.cursorY, l.cursorX, l.rowH) }

  ghost predicate LayoutOk(l: Layout) {
    && RowOf(l).Follows(l.handed)
    && FIRST_X <= l.cursorX && FIRST_Y <= l.cursorY && 0 <= l.rowH
    && l.live !! l.free
    && AllPlaced(l)
    && PairwiseDisjoint(l.live + l.free) && PairwiseDisjoint(l.handed)
    && Tiled(l)
  }

  // `into` covers the same pixels as `out` and strays nowhere else.
  ghost predicate SameRegion(out: set<Rect>, into: set<Rect>) {
    && (forall px, py :: InSet(into, px, py) <==> InSet(out, px, py))
    && (forall b: Rect, r: Rect :: !b.Empty() && r in into && (forall a :: a in out ==> Disjoint(a, b)) ==>
         Disjoint(r, b))
  }

  lemma RegionSwapped(s: set<Rect>, out: set<Rect>, into: set<Rect>, px: int, py: int)
    requires out <= s && SameRegion(out, into)
    ensures InSet(s - out + into, px, py) <==> InSet(s, px, py)
  {
    if InSet(s, px, py) {
      var r :| r in s && r.Contains(px, py);
      if r in out {
        assert InSet(out, px, py);
        var q :| q in into && q.Contains(px, py);
        assert q in s - out + into;
      } else {
        assert r in s - out + into;
      }
    }
    if InSet(s - out + into, px, py) {
      var r :| r in s - out + into && r.Contains(px, py);
      if r in into {
        assert InSet(into, px, py);
        var q :| q in out && q.Contains(px, py);
        assert q in s;
      }
    }
  }

  /** Cutting up or joining allocated and free rectangles keeps a layout sound, as long as
      the pieces cover the same pixels. */
  lemma Repartition(l: Layout, l': Layout, out: set<Rect>, into: set<Rect>)
    requires LayoutOk(l) && out <= l.live + l.free
    requires l' == l.(live := l'.live, free := l'.free) && l'.live !! l'.free
    requires l'.live + l'.free == l.live + l.free - out + into
    requires SameRegion(out, into) && PairwiseDisjoint(into)
    requires forall r :: r in into ==> Placed(l, r)
    ensures LayoutOk(l')
  {
    var s, s' := l.live + l.free, l'.live + l'.free;
    forall r | r in s' ensures Placed(l', r) {
      assert r in s || r in into;
    }
    forall r | r in l'.live ensures Placed(l', r) { assert r in s'; }
    forall r | r in l'.free ensures Placed(l', r) { assert r in s'; }
    forall a, b | a in s' && b in s' && a != b ensures Disjoint(a, b) {
      assert (a in s - out || a in into) && (b in s - out || b in into);
      if a in into && b in s - out {
        assert forall c :: c in out ==> Disjoint(c, b);
      } else if b in into && a in s - out {
        assert forall c :: c in out ==> Disjoint(c, a);
      }
    }
    forall px, py ensures InSet(s', px, py) <==> InSet(s, px, py) {
      RegionSwapped(s, out, into, px, py);
    }
  }

  // Forgetting a free rectangle leaves a hole where it was.
  lemma Forgotten(l: Layout, f: Rect)
    requires LayoutOk(l) && f in l.free
    ensures LayoutOk(l.(free := l.free - {f}, exact := false))
  {
    var l' := l.(free := l.free - {f}, exact := false);
    forall px, py | InSet(l'.live + l'.free, px, py) ensures InSet(l.live + l.free, px, py) {
      var r :| r in l'.live + l'.free && r.Contains(px, py);
      assert r in l.live + l.free;
    }
    assert f in l.live + l.free && f.Contains(f.x, f.y);
    assert InSet(l.live + l.free, f.x, f.y);
    assert InSet(l'.handed, f.x, f.y);
    forall r | r in l'.live + l'.free ensures !r.Contains(f.x, f.y) {
      assert r in l.live + l.free && r != f;
      assert Disjoint(r, f);
    }
  }

  // ---------- Merging ----------

  // Same row and side by side, or same column and stacked.
  predicate Mergeable(a: Rect, r: Rect) {
    || (a.y == r.y && a.h == r.h && (a.x + a.w == r.x || r.x + r.w == a.x))
    || (a.x == r.x && a.w == r.w && (a.y + a.h == r.y || r.y + r.h == a.y))
  }

  function Max(a: int, b: int): int { if a > b then a else b }
  function Min(a: int, b: int): int { if a < b then a else b }

  function Merged(a: Rect, r: Rect): Rect {
    if a.y == r.y && a.h == r.h && (a.x + a.w == r.x || r.x + r.w == a.x) then
      Rect(Min(a.x, r.x), r.y, Max(a.x + a.w, r.x + r.w) - Min(a.x, r.x), r.h)
    else
      Rect(r.x, Min(a.y, r.y), r.w, Max(a.y + a.h, r.y + r.h) - Min(a.y, r.y))
  }

  lemma MergedIsUnion(a: Rect, r: Rect)
    requires Mergeable(a, r) && !a.Empty() && !r.Empty()
    ensures !Merged(a, r).Empty()
    ensures forall px, py :: Merged(a, r).Contains(px, py) <==> a.Contains(px, py) || r.Contains(px, py)
    ensures forall b: Rect :: !b.Empty() && Disjoint(a, b) && Disjoint(r, b) ==> Disjoint(Merged(a, r), b)
  {}

  lemma MergedPlaced(l: Layout, a: Rect, r: Rect)
    requires Mergeable(a, r) && Placed(l, a) && Placed(l, r)
    ensures Placed(l, Merged(a, r))
  {}

  lemma MergeKeepsLayout(l: Layout, a: Rect, r: Rect)
    requires LayoutOk(l) && a in l.free && r in l.free && a != r && Mergeable(a, r)
    ensures Merged(a, r) !in l.live + l.free - {a, r}
    ensures LayoutOk(l.(free := l.free - {a, r} + {Merged(a, r)}))
  {
    var m := Merged(a, r);
    MergedIsUnion(a, r);
    MergedPlaced(l, a, r);
    assert SameRegion({a, r}, {m}) by {
      forall px, py ensures InSet({m}, px, py) <==> InSet({a, r}, px, py) {
        assert m in {m} && a in {a, r} && r in {a, r};
      }
    }
    forall b | b in l.live + l.free - {a, r} ensures b != m {
      assert Disjoint(a, b) && Disjoint(r, b);
      assert Disjoint(m, b);
    }
    Repartition(l, l.(free := l.free - {a, r} + {m}), {a, r}, {m});
  }

  // ---------- Splitting a free rectangle ----------

  function Corner(f: Rect, w: int, h: int): Rect { Rect(f.x, f.y, w, h) }
  function RightPiece(f: Rect, w: int, h: int): Rect { Rect(f.x + w, f.y, f.w - w, h) }
  function BottomPiece(f: Rect, w: int, h: int): Rect { Rect(f.x, f.y + h, f.w, f.h - h) }

  // A piece that exists: empty ones are not kept.
  function Piece(r: Rect): set<Rect> { if r.Empty() then {} else {r} }

  function Cut(f: Rect, w: int, h: int): set<Rect> {
    {Corner(f, w, h)} + Piece(RightPiece(f, w, h)) + Piece(BottomPiece(f, w, h))
  }

  lemma CutIsWhole(f: Rect, w: int, h: int)
    requires 0 < w <= f.w && 0 < h <= f.h
    ensures SameRegion({f}, Cut(f, w, h)) && PairwiseDisjoint(Cut(f, w, h))
  {
    var a, r, b := Corner(f, w, h), RightPiece(f, w, h), BottomPiece(f, w, h);
    forall px, py ensures InSet(Cut(f, w, h), px, py) <==> InSet({f}, px, py) {
      assert f in {f} && a in Cut(f, w, h);
      assert !r.Empty() ==> r in Cut(f, w, h);
      assert !b.Empty() ==> b in Cut(f, w, h);
      assert f.Contains(px, py) ==> a.Contains(px, py) || r.Contains(px, py) || b.Contains(px, py);
    }
    forall c: Rect, q: Rect | !c.Empty() && q in Cut(f, w, h) && (forall z :: z in {f} ==> Disjoint(z, c))
      ensures Disjoint(q, c)
    {
      assert f in {f};
      assert Disjoint(f, c);
      assert f.x <= q.x && q.x + q.w <= f.x + f.w && f.y <= q.y && q.y + q.h <= f.y + f.h;
    }
  }

  function Remainders(f: Rect, w: int, h: int): set<Rect> {
    Piece(RightPiece(f, w, h)) + Piece(BottomPiece(f, w, h))
  }

  lemma RemaindersApart(f: Rect, w: int, h: int)
    requires 0 < w <= f.w && 0 < h <= f.h
    ensures Piece(RightPiece(f, w, h)) !! Piece(BottomPiece(f, w, h))
  {}

  // The layout after allocating the corner of a free rectangle.
  function SplitLayout(l: Layout, f: Rect, w: int, h: int): Layout {
    l.(live := l.live + {Corner(f, w, h)},
       free := l.free - {f} + Remainders(f, w, h))
  }

  lemma SplitKeepsLayout(l: Layout, f: Rect, w: int, h: int)
    requires LayoutOk(l) && f in l.free && 0 < w <= f.w && 0 < h <= f.h
    ensures LayoutOk(SplitLayout(l, f, w, h)) && Corner(f, w, h) !in l.live
    ensures Remainders(f, w, h) !! (l.free - {f})
  {
    CutIsWhole(f, w, h);
    var others := l.live + l.free - {f};
    forall q | q in Cut(f, w, h) ensures Placed(l, q) && q !in others {
      if q in others {
        assert q in l.live + l.free && f in l.live + l.free;
        assert Disjoint(f, q);
      }
    }
    Repartition(l, SplitLayout(l, f, w, h), {f}, Cut(f, w, h));
  }

  lemma FreeIsApart(l: Layout, f: Rect, w: int, h: int)
    requires LayoutOk(l) && f in l.free && 0 < w <= f.w && 0 < h <= f.h
    ensures Apart(l, Corner(f, w, h))
    ensures Inside(l, Corner(f, w, h)) && FIRST_X + w <= l.width
  {
    forall b | b in l.live ensures Disjoint(Corner(f, w, h), b) {
      assert b in l.live + l.free && f in l.live + l.free;
      assert Disjoint(f, b);
    }
  }

  // ---------- The shelf ----------

  // Where the shelf puts the next rectangle: after the last one, or at the start of a new row.
  function ShelfRect(l: Layout, w: int, h: int): Rect {
    if l.cursorX + w > l.width then Rect(FIRST_X, l.cursorY + l.rowH, w, h)
    else Rect(l.cursorX, l.cursorY, w, h)
  }

  function ShelfRow(l: Layout, w: int): int {
    if l.cursorX + w > l.width then 0 else l.rowH
  }

  function ShelfLayout(l: Layout, w: int, h: int): Layout {
    var n := ShelfRect(l, w, h);
    l.(cursorX := n.x + w, cursorY := n.y, rowH := Max(h, ShelfRow(l, w)),
       live := l.live + {n}, handed := l.handed + {n})
  }

  /** The shelf checks the height but not the width after wrapping: its rectangle stays on
      the page exactly when it fits into a row of its own. */
  lemma ShelfInsideIff(l: Layout, w: int, h: int)
    requires LayoutOk(l) && 0 < w && 0 < h
    requires ShelfRect(l, w, h).y + h <= l.height
    ensures Inside(l, ShelfRect(l, w, h)) <==> FIRST_X + w <= l.width
  {}

  lemma ShelfIsApart(l: Layout, w: int, h: int)
    requires LayoutOk(l) && 0 < w && 0 < h
    ensures Apart(l, ShelfRect(l, w, h))
  {}

  lemma ShelfKeepsLayout(l: Layout, w: int, h: int)
    requires LayoutOk(l) && 0 < w && 0 < h
    requires ShelfRect(l, w, h).y + h <= l.height && FIRST_X + w <= l.width
    ensures LayoutOk(ShelfLayout(l, w, h)) && ShelfRect(l, w, h) !in l.live
  {
    hide Row.Follows;
    var n, l' := ShelfRect(l, w, h), ShelfLayout(l, w, h);
    forall r | r in l.live || r in l.free || r in l.handed ensures Disjoint(n, r) && Placed(l', r) {}
    assert l'.live + l'.free == l.live + l.free + {n};
    forall a, b | a in l'.live + l'.free && b in l'.live + l'.free && a != b ensures Disjoint(a, b) {
      assert (a == n || a in l.live + l.free) && (b == n || b in l.live + l.free);
    }
    forall px, py ensures InSet(l'.live + l'.free, px, py) <==> InSet(l.live + l.free, px, py) || n.Contains(px, py) {
      GrownRegion(l.live + l.free, n, px, py);
    }
    forall px, py ensures InSet(l'.handed, px, py) <==> InSet(l.handed, px, py) || n.Contains(px, py) {
      GrownRegion(l.handed, n, px, py);
    }
    RowsGrow(l, w, h);
  }

  lemma RowsGrow(l: Layout, w: int, h: int)
    requires RowOf(l).Follows(l.handed) && 0 < w && 0 < h && 0 <= l.rowH
    ensures RowOf(ShelfLayout(l, w, h)).Follows(ShelfLayout(l, w, h).handed)
  {
    var n, l' := ShelfRect(l, w, h), ShelfLayout(l, w, h);
    var row, row' := RowOf(l), RowOf(l');
    assert row'.Ends(l'.handed, n);
    if l'.rowH == h {
      assert row'.Fills(l'.handed, n);
    } else {
      var tall :| row.Fills(l.handed, tall);
      assert row'.Fills(l'.handed, tall);
    }
  }

  // ---------- Where the shelf puts things ----------

  // In the last row handed out; its rightmost rectangle; its tallest.
  ghost predicate Newest(handed: set<Rect>, r: Rect) { r in handed && forall q :: q in handed ==> q.y <= r.y }
  ghost predicate Rightmost(handed: set<Rect>, r: Rect) {
    Newest(handed, r) && forall q :: Newest(handed, q) ==> q.x + q.w <= r.x + r.w
  }
  ghost predicate Tallest(handed: set<Rect>, r: Rect) {
    Newest(handed, r) && forall q :: Newest(handed, q) ==> q.h <= r.h
  }

  /** The next place on the shelf, from what was handed out alone: the first one at (1, 6); then right
      of the last rectangle of the last row while it fits there, and else at the start of a new row
      just below the tallest of the last one. */
  ghost predicate NextPlace(handed: set<Rect>, width: int, n: Rect) {
    && (handed == {} ==> n.x == 1 && n.y == 6)
    && forall last, tall :: Rightmost(handed, last) && Tallest(handed, tall) ==>
         if last.x + last.w + n.w <= width then n.x == last.x + last.w && n.y == last.y
         else n.x == 1 && n.y == tall.y + tall.h
  }

  // The cursors end the last row: its rightmost rectangle ends at the first, its tallest one fills the row.
  lemma LastRow(l: Layout)
    requires LayoutOk(l)
    ensures l.handed == {} ==> l.cursorX == FIRST_X && l.cursorY == FIRST_Y && l.rowH == 0
    ensures l.handed != {} ==> (exists r :: Rightmost(l.handed, r)) && (exists r :: Tallest(l.handed, r))
    ensures forall r :: Rightmost(l.handed, r) ==> r.x + r.w == l.cursorX && r.y == l.cursorY
    ensures forall r :: Tallest(l.handed, r) ==> r.h == l.rowH && r.y == l.cursorY
  {
    if l.handed != {} {
      var row := RowOf(l);
      var last :| row.Ends(l.handed, last);
      var tall :| row.Fills(l.handed, tall);
      forall q | Newest(l.handed, q) ensures row.Has(q) { assert Placed(l, q) && last.y <= q.y; }
      forall q | q in l.handed ensures q.y <= l.cursorY { assert Placed(l, q); }
      assert Newest(l.handed, last) && Newest(l.handed, tall);
      assert Rightmost(l.handed, last) && Tallest(l.handed, tall);
    }
  }

  lemma ShelfIsNext(l: Layout, w: int, h: int)
    requires LayoutOk(l)
    ensures NextPlace(l.handed, l.width, ShelfRect(l, w, h))
    ensures l.handed != {} ==> (exists r :: Rightmost(l.handed, r)) && (exists r :: Tallest(l.handed, r))
  {
    hide LayoutOk, Rightmost, Tallest;
    LastRow(l);
  }

  // What a shelf allocation changes.
  lemma ShelfShape(l: Layout, w: int, h: int)
    requires ShelfRect(l, w, h) !in l.live
    ensures var n, l' := ShelfRect(l, w, h), ShelfLayout(l, w, h);
            && l'.live == l.live + {n} && |l'.live| == |l.live| + 1 && l'.handed == l.handed + {n}
            && l'.free == l.free && l'.exact == l.exact && l'.width == l.width && l'.height == l.height
            && l'.cursorX == n.x + w && l'.cursorY == n.y && l'.rowH == Max(h, ShelfRow(l, w))
  {}

  lemma GrownRegion(s: set<Rect>, n: Rect, px: int, py: int)
    ensures InSet(s + {n}, px, py) <==> InSet(s, px, py) || n.Contains(px, py)
  {
    if InSet(s, px, py) {
      var r :| r in s && r.Contains(px, py);
      assert r in s + {n};
    }
    assert n in s + {n};
  }

  // Giving back a rectangle moves it from live to free and changes no pixel.
  lemma ReleaseKeepsLayout(l: Layout, r: Rect)
    requires LayoutOk(l) && r in l.live
    ensures LayoutOk(l.(live := l.live - {r}, free := l.free + {r}))
  {
    var l' := l.(live := l.live - {r}, free := l.free + {r});
    assert l'.live + l'.free == l.live + l.free - {} + {};
    Repartition(l, l', {}, {});
  }

  // ---------- The free list ----------

  // page->free_rects[i] = page->free_rects[--page->free_rect_count]
  function SwapRemove(s: seq<Rect>, i: nat): seq<Rect>
    requires i < |s|
  {
    if i == |s| - 1 then s[..i] else s[..|s| - 1][i := s[|s| - 1]]
  }

  ghost predicate Distinct(s: seq<Rect>) {
    forall i, j :: 0 <= i < j < |s| ==> s[i] != s[j]
  }

  // s enumerates the set without repetition.
  ghost predicate Lists(s: seq<Rect>, rects: set<Rect>) {
    Distinct(s) && (forall r :: r in rects <==> r in s)
  }

  lemma SwapRemoveLists(s: seq<Rect>, i: nat, rects: set<Rect>)
    requires i < |s| && Lists(s, rects)
    ensures s[i] in rects && Lists(SwapRemove(s, i), rects - {s[i]})
  {
    var t := SwapRemove(s, i);
    forall r | r in rects - {s[i]} ensures r in t {
      var j :| 0 <= j < |s| && s[j] == r;
      assert t[if j == |s| - 1 then i else j] == r;
    }
    forall r | r in t ensures r in rects - {s[i]} {
      var j :| 0 <= j < |t| && t[j] == r;
      assert r == s[if j == i then |s| - 1 else j];
    }
  }

  lemma AppendLists(s: seq<Rect>, r: Rect, rects: set<Rect>)
    requires Lists(s, rects) && r !in rects
    ensures Lists(s + [r], rects + {r})
  {}

  lemma ReplaceLists(s: seq<Rect>, i: nat, r: Rect, rects: set<Rect>)
    requires Lists(s, rects) && r !in rects && i < |s|
    ensures s[i] in rects && Lists(s[i := r], rects - {s[i]} + {r})
  {
    forall q | q in rects - {s[i]} ensures q in s[i := r] {
      var j :| 0 <= j < |s| && s[j] == q;
      assert s[i := r][j] == q;
    }
    assert s[i := r][i] == r;
  }

  // Some rectangle of the list joins with r.
  predicate Joins(s: seq<Rect>, r: Rect) { exists i :: 0 <= i < |s| && Mergeable(s[i], r) }

  // Using a corner of entry `best` of a full list: both remainders come back and neither finds a
  // neighbour, so there is one rectangle too many.
  predicate Overfills(s: seq<Rect>, best: nat, w: int, h: int)
    requires best < |s|
  {
    var right, bottom, rest := RightPiece(s[best], w, h), BottomPiece(s[best], w, h), SwapRemove(s, best);
    && |s| == 256 && !right.Empty() && !bottom.Empty()
    && !Joins(rest, right) && !Joins(rest, bottom)
  }

  lemma RemaindersDoNotJoin(s: seq<Rect>, f: Rect, w: int, h: int)
    requires 0 < w <= f.w && 0 < h <= f.h && !RightPiece(f, w, h).Empty() && !BottomPiece(f, w, h).Empty()
    ensures Joins(s + [RightPiece(f, w, h)], BottomPiece(f, w, h)) <==> Joins(s, BottomPiece(f, w, h))
  {
    var right, bottom := RightPiece(f, w, h), BottomPiece(f, w, h);
    assert !Mergeable(right, bottom);
    if Joins(s, bottom) {
      var i :| 0 <= i < |s| && Mergeable(s[i], bottom);
      assert (s + [right])[i] == s[i];
    }
  }

  // The layout after giving back a rectangle that still waits to be listed.
  lemma Released(l: Layout, s: seq<Rect>, r: Rect)
    requires LayoutOk(l) && Lists(s, l.free) && r in l.live
    ensures var l' := l.(live := l.live - {r}, free := l.free + {r});
            && LayoutOk(l') && |l'.live| == |l.live| - 1 && Piece(r) <= l'.free && Lists(s, l'.free - Piece(r))
    ensures !r.Empty()
  {
    ReleaseKeepsLayout(l, r);
    assert l.free + {r} - Piece(r) == l.free;
  }

  // A page with nothing on it but the reserved texels.
  function Blank(width: int, height: int): Layout {
    Layout(width, height, FIRST_X, FIRST_Y, 0, {}, {}, {}, true)
  }

  // `a` is not live and touches nothing that is.
  ghost predicate Apart(l: Layout, a: Rect) {
    a !in l.live && forall b :: b in l.live ==> Disjoint(a, b)
  }

  lemma SplitListed(l: Layout, s: seq<Rect>, i: nat, w: int, h: int)
    requires LayoutOk(l) && Lists(s, l.free) && i < |s| && 0 < w <= s[i].w && 0 < h <= s[i].h
    ensures var l' := SplitLayout(l, s[i], w, h);
            && LayoutOk(l') && |l'.live| == |l.live| + 1
            && Remainders(s[i], w, h) <= l'.free
            && Lists(SwapRemove(s, i), l'.free - Remainders(s[i], w, h))
  {
    var f := s[i];
    assert f in l.free;
    var l' := SplitLayout(l, f, w, h);
    SplitKeepsLayout(l, f, w, h);
    SwapRemoveLists(s, i, l.free);
    assert l'.free - Remainders(f, w, h) == l.free - {f};
  }

  /** What a sound layout promises: live rectangles are pairwise disjoint, inside the page
      and below the header, free ones are disjoint from them and behind the frontier, and
      each pixel handed out lies in exactly one of them if and only if the layout is exact. */
  lemma SoundLayoutTiles(l: Layout, px: int, py: int)
    requires LayoutOk(l)
    ensures forall a, b :: a in l.live && b in l.live && a != b ==> Disjoint(a, b)
    ensures forall a, f :: a in l.live && f in l.free ==> Disjoint(a, f)
    ensures forall r :: r in l.live || r in l.free ==> Inside(l, r) && BehindFrontier(l, r)
    ensures forall a, b :: a in l.live + l.free && b in l.live + l.free ==>
              (a.Contains(px, py) && b.Contains(px, py) ==> a == b)
    ensures InSet(l.live + l.free, px, py) ==> InSet(l.handed, px, py)
    ensures l.exact <==> NoHole(l)
  {
    forall a, b | a in l.live && (b in l.live || b in l.free) && a != b ensures Disjoint(a, b) {
      assert a in l.live + l.free && b in l.live + l.free;
    }
  }

  type SoundLayout = l: Layout | LayoutOk(l) ghost witness Blank(0, 0)

  // ---------- The page in place ----------

  function Area(r: Rect): int { r.w * r.h }

  /** On a page whose own area is a C int, the area of every rectangle on it is below INT_MAX, where
      the search for the smallest one starts. */
  lemma AreasFit(l: Layout, r: Rect)
    requires LayoutOk(l) && (r in l.live || r in l.free) && l.width * l.height <= INT_MAX
    ensures 0 < Area(r) < INT_MAX
  {
    hide LayoutOk, Area;
    RectIsPlaced(l, r);
    ProductGrows(r.w, r.h, l.width, l.height);
    AreaIs(r);
  }

  lemma AreaIs(r: Rect)
    ensures Area(r) == r.w * r.h
  {}

  lemma RectIsPlaced(l: Layout, r: Rect)
    requires LayoutOk(l) && (r in l.live || r in l.free)
    ensures 0 < r.w < l.width && 0 < r.h <= l.height
  {
    assert Placed(l, r);
  }

  lemma ProductGrows(a: int, b: int, m: int, n: int)
    requires 0 < a < m && 0 < b <= n
    ensures 0 < a * b < m * n
  {
    assert m * n - a * b == m * (n - b) + (m - a) * b;
    assert m * (n - b) >= 0 && (m - a) * b > 0;
  }

  // ---------- Giving one up ----------

  // Entry i is the first of least area.
  ghost predicate IsSmallest(s: seq<Rect>, i: nat) {
    && i < |s| && (forall j :: 0 <= j < |s| ==> Area(s[i]) <= Area(s[j]))
    && forall j :: 0 <= j < i ==> Area(s[i]) < Area(s[j])
  }

  // A rectangle that finds the list full takes the place of the smallest, unless it is no larger itself.
  ghost predicate GivesUp(s: seq<Rect>, r: Rect, now: seq<Rect>) {
    exists i: nat :: IsSmallest(s, i) && now == if Area(r) <= Area(s[i]) then s else s[i := r]
  }

  // ---------- What the list can still hold ----------

  predicate Within(q: Rect, r: Rect) { r.x <= q.x && q.x + q.w <= r.x + r.w && r.y <= q.y && q.y + q.h <= r.y + r.h }

  // The rectangle lies in one entry of the list.
  ghost predicate Covers(s: seq<Rect>, q: Rect) { q.Empty() || exists i :: 0 <= i < |s| && Within(q, s[i]) }

  ghost predicate KeepsRoom(s: seq<Rect>, now: seq<Rect>) { forall q :: Covers(s, q) ==> Covers(now, q) }

  // What lay in one entry or in r lies in one entry or in m now.
  ghost predicate Keeps(s: seq<Rect>, r: Rect, now: seq<Rect>, m: Rect) {
    && (forall q :: Covers(s, q) ==> Covers(now, q) || Within(q, m))
    && (forall q :: Within(q, r) ==> Covers(now, q) || Within(q, m))
  }

  lemma KeepsItself(s: seq<Rect>, r: Rect)
    ensures Keeps(s, r, s, r)
  {}

  lemma KeepsJoined(s: seq<Rect>, r: Rect, now: seq<Rect>, m: Rect, i: nat)
    requires Keeps(s, r, now, m) && i < |now| && Mergeable(now[i], m) && !now[i].Empty() && !m.Empty()
    ensures Keeps(s, r, SwapRemove(now, i), Merged(now[i], m))
  {
    hide Covers;
    var joined := Merged(now[i], m);
    MergedHolds(now[i], m);
    forall q | Covers(now, q) || Within(q, m) ensures Covers(SwapRemove(now, i), q) || Within(q, joined) {
      SwapRemoveCovers(now, i, q);
    }
  }

  lemma MergedHolds(a: Rect, m: Rect)
    requires Mergeable(a, m) && !a.Empty() && !m.Empty()
    ensures Within(a, Merged(a, m)) && Within(m, Merged(a, m))
  {}

  lemma SwapRemoveCovers(s: seq<Rect>, i: nat, q: Rect)
    requires i < |s|
    ensures Covers(s, q) ==> Covers(SwapRemove(s, i), q) || Within(q, s[i])
  {
    var t := SwapRemove(s, i);
    if !q.Empty() && Covers(s, q) {
      var j :| 0 <= j < |s| && Within(q, s[j]);
      if j != i {
        assert t[if j == |s| - 1 then i else j] == s[j];
      }
    }
  }

  lemma KeepsAppended(s: seq<Rect>, r: Rect, now: seq<Rect>, m: Rect)
    requires Keeps(s, r, now, m)
    ensures KeepsRoom(s, now + [m]) && Covers(now + [m], r)
  {
    var all := now + [m];
    forall q | Covers(now, q) || Within(q, m) ensures Covers(all, q) {
      assert all[|now|] == m;
      if !q.Empty() && !Within(q, m) {
        var j :| 0 <= j < |now| && Within(q, now[j]);
        assert all[j] == now[j];
      }
    }
    assert Within(r, r);
  }

  // Nothing is lost when the best fit f for n is cut: what lies in another entry, the strip right of
  // n, as high as n, and the strip below it, as wide as f, each lie in one entry afterwards.
  ghost predicate Leftover(s: seq<Rect>, now: seq<Rect>, n: Rect, best: nat)
    requires best < |s|
  {
    var f := s[best];
    && KeepsRoom(SwapRemove(s, best), now)
    && Covers(now, Rect(n.x + n.w, n.y, f.w - n.w, n.h))
    && Covers(now, Rect(f.x, n.y + n.h, f.w, f.h - n.h))
  }

  ghost predicate CutsBest(s: seq<Rect>, now: seq<Rect>, n: Rect) {
    exists i: nat :: IsBest(s, i, n.w, n.h) && n.x == s[i].x && n.y == s[i].y && Leftover(s, now, n, i)
  }

  lemma BestIsCut(s: seq<Rect>, now: seq<Rect>, n: Rect, i: nat)
    requires IsBest(s, i, n.w, n.h) && n.x == s[i].x && n.y == s[i].y && Leftover(s, now, n, i)
    ensures CutsBest(s, now, n)
  {
    hide IsBest, Leftover;
  }

  // ---------- The best fit ----------

  predicate Holds(r: Rect, w: int, h: int) { w <= r.w && h <= r.h }

  // Some rectangle of the list can hold w by h.
  predicate HasRoom(s: seq<Rect>, w: int, h: int) {
    exists i :: 0 <= i < |s| && Holds(s[i], w, h) && Area(s[i]) < INT_MAX
  }

  // Entry `best` is the first of least area among those that can hold w by h.
  ghost predicate IsBest(s: seq<Rect>, best: nat, w: int, h: int) {
    && best < |s| && Holds(s[best], w, h) && Area(s[best]) < INT_MAX
    && (forall i :: 0 <= i < |s| && Holds(s[i], w, h) ==> Area(s[i]) >= Area(s[best]))
    && (forall i :: 0 <= i < best && Holds(s[i], w, h) ==> Area(s[i]) > Area(s[best]))
  }

  // Using the best fit for w by h gives up a rectangle.
  ghost predicate Crowds(s: seq<Rect>, w: int, h: int) {
    exists i :: IsBest(s, i, w, h) && Overfills(s, i, w, h)
  }

  lemma SmallestListed(s: seq<Rect>, i: nat)
    requires IsSmallest(s, i)
    ensures i < |s|
  {}

  lemma GaveUp(s: seq<Rect>, i: nat, r: Rect)
    requires IsSmallest(s, i)
    ensures GivesUp(s, r, if Area(r) <= Area(s[i]) then s else s[i := r])
  {}

  // The rectangle lies in the corner of the best fit for its size.
  ghost predicate AtBest(s: seq<Rect>, r: Rect) {
    exists i: nat :: IsBest(s, i, r.w, r.h) && r.x == s[i].x && r.y == s[i].y
  }

  lemma BestHolds(s: seq<Rect>, best: nat, w: int, h: int)
    requires IsBest(s, best, w, h)
    ensures best < |s| && w <= s[best].w && h <= s[best].h
  {}

  lemma BestCorner(s: seq<Rect>, best: nat, r: Rect)
    requires IsBest(s, best, r.w, r.h) && r.x == s[best].x && r.y == s[best].y
    ensures AtBest(s, r)
  {}

  lemma CrowdsMeans(s: seq<Rect>, best: int, w: int, h: int)
    requires best >= 0 ==> IsBest(s, best, w, h)
    requires best < 0 ==> !HasRoom(s, w, h)
    ensures Crowds(s, w, h) <==> best >= 0 && Overfills(s, best, w, h)
  {
    hide Overfills, Area;
    forall i | IsBest(s, i, w, h) ensures i == best {}
  }

  class Page {
    var width: int
    var height: int
    var cursorX: int
    var cursorY: int
    var rowH: int
    var freeRects: seq<Rect>
    var liveAllocations: nat
    var sealed: bool
    var plannerLayout: bool
    var dedicated: bool
    ghost var layout: SoundLayout

    // Everything but the free list agrees with the layout.
    ghost predicate Mirrors()
      reads this
    {
      && width == layout.width && height == layout.height
      && cursorX == layout.cursorX && cursorY == layout.cursorY && rowH == layout.rowH
      && |freeRects| <= MAX_FREE_RECTS
    }

    // The free list holds every free rectangle except the ones waiting to enter it.
    ghost predicate Consistent(waiting: set<Rect>)
      reads this
    {
      && Mirrors()
      && waiting <= layout.free && Lists(freeRects, layout.free - waiting)
    }

    ghost predicate Valid()
      reads this
    {
      && Mirrors() && Lists(freeRects, layout.free)
      && liveAllocations == |layout.live|
    }

    constructor (width: int, height: int, dedicated: bool)
      ensures Valid() && this.width == width && this.height == height && this.dedicated == dedicated
      ensures layout.live == {} && layout.exact && !sealed && !plannerLayout
    {
      this.width, this.height, this.dedicated := width, height, dedicated;
      cursorX, cursorY, rowH := FIRST_X, FIRST_Y, 0;
      freeRects, liveAllocations := [], 0;
      sealed, plannerLayout := false, false;
      layout := Blank(width, height);
    }

    // The first free rectangle that joins with r, or -1.
    method FindNeighbour(r: Rect) returns (found: int)
      ensures -1 <= found < |freeRects|
      ensures found >= 0 ==> Mergeable(freeRects[found], r)
      ensures found < 0 <==> !Joins(freeRects, r)
    {
      for i := 0 to |freeRects|
        invariant forall j :: 0 <= j < i ==> !Mergeable(freeRects[j], r)
      {
        if Mergeable(freeRects[i], r) { return i; }
      }
      return -1;
    }

    method Smallest() returns (smallest: nat)
      requires freeRects != []
      ensures IsSmallest(freeRects, smallest)
    {
      smallest := 0;
      for i := 1 to |freeRects|
        invariant smallest < i
        invariant forall j :: 0 <= j < i ==> Area(freeRects[smallest]) <= Area(freeRects[j])
        invariant forall j :: 0 <= j < smallest ==> Area(freeRects[smallest]) < Area(freeRects[j])
      {
        if Area(freeRects[i]) < Area(freeRects[smallest]) { smallest := i; }
      }
    }

    lemma FreeIsSolid(l: Layout, f: Rect)
      requires LayoutOk(l) && f in l.free
      ensures !f.Empty()
    {}

    // Joins r with its free neighbours until none is left.
    method Coalesce(r: Rect, ghost waiting: set<Rect>) returns (m: Rect)
      requires r !in waiting && Consistent({r} + waiting)
      modifies this`freeRects, this`layout
      ensures m !in waiting && Consistent({m} + waiting)
      ensures layout == old(layout).(free := layout.free)
      ensures |freeRects| <= |old(freeRects)| && (|freeRects| == |old(freeRects)| <==> !Joins(old(freeRects), r))
      ensures !Joins(old(freeRects), r) ==> m == r && freeRects == old(freeRects)
      ensures !Joins(freeRects, m) && Keeps(old(freeRects), r, freeRects, m)
    {
      hide LayoutOk, Keeps, Covers;
      m := r;
      KeepsItself(freeRects, r);
      var i := FindNeighbour(m);
      while i >= 0
        invariant m !in waiting && Consistent({m} + waiting)
        invariant layout == old(layout).(free := layout.free)
        invariant -1 <= i < |freeRects| <= |old(freeRects)|
        invariant i >= 0 ==> Mergeable(freeRects[i], m)
        invariant i < 0 <==> !Joins(freeRects, m)
        invariant |freeRects| == |old(freeRects)| ==> m == r && freeRects == old(freeRects)
        invariant |freeRects| < |old(freeRects)| ==> Joins(old(freeRects), r)
        invariant Keeps(old(freeRects), r, freeRects, m)
        decreases |freeRects|
      {
        var a := freeRects[i];
        ghost var listed := layout.free - ({m} + waiting);
        assert a in listed;
        FreeIsSolid(layout, a);
        FreeIsSolid(layout, m);
        KeepsJoined(old(freeRects), r, freeRects, m, i);
        MergeKeepsLayout(layout, a, m);
        SwapRemoveLists(freeRects, i, listed);
        freeRects := SwapRemove(freeRects, i);
        layout := layout.(free := layout.free - {a, m} + {Merged(a, m)});
        m := Merged(a, m);
        assert layout.free - ({m} + waiting) == listed - {a};
        i := FindNeighbour(m);
      }
    }

    /** Puts a rectangle on the free list, joined with its neighbours. If it joins none of 256
        entries the smallest rectangle is given up (`dropped`), and from then on the tiling has a hole. */
    method AddFreeRect(r: Rect, ghost waiting: set<Rect>) returns (ghost dropped: bool)
      requires Piece(r) !! waiting && Consistent(Piece(r) + waiting)
      modifies this`freeRects, this`layout
      ensures Consistent(waiting)
      ensures layout == old(layout).(free := layout.free, exact := old(layout.exact) && !dropped)
      ensures dropped <==> !r.Empty() && |old(freeRects)| == 256 && !Joins(old(freeRects), r)
      ensures dropped ==> GivesUp(old(freeRects), r, freeRects)
      ensures |freeRects| <= |old(freeRects)| + 1 && (Joins(old(freeRects), r) ==> |freeRects| <= |old(freeRects)|)
      ensures r.Empty() ==> freeRects == old(freeRects)
      ensures !r.Empty() && !Joins(old(freeRects), r) && !dropped ==> freeRects == old(freeRects) + [r]
      ensures !dropped ==> KeepsRoom(old(freeRects), freeRects) && Covers(freeRects, r)
    {
      hide LayoutOk, GivesUp, Area, Keeps;
      dropped := false;
      if r.w <= 0 || r.h <= 0 {
        assert Piece(r) + waiting == waiting;
        return;
      }
      assert Piece(r) == {r};
      var m := Coalesce(r, waiting);
      ghost var listed := layout.free - ({m} + waiting);
      if |freeRects| >= MAX_FREE_RECTS {
        dropped := true;
        var smallest := Smallest();
        SmallestListed(freeRects, smallest);
        GaveUp(freeRects, smallest, m);
        if Area(m) <= Area(freeRects[smallest]) {
          Forgotten(layout, m);
          layout := layout.(free := layout.free - {m}, exact := false);
          assert layout.free - waiting == listed;
        } else {
          var victim := freeRects[smallest];
          ReplaceLists(freeRects, smallest, m, listed);
          Forgotten(layout, victim);
          freeRects := freeRects[smallest := m];
          layout := layout.(free := layout.free - {victim}, exact := false);
          assert layout.free - waiting == listed - {victim} + {m};
        }
      } else {
        AppendLists(freeRects, m, listed);
        KeepsAppended(old(freeRects), r, freeRects, m);
        freeRects := freeRects + [m];
        assert layout.free - waiting == listed + {m};
      }
    }

    // The first free rectangle of least area that can hold w by h, or -1.
    method BestFit(w: int, h: int) returns (best: int)
      ensures -1 <= best < |freeRects|
      ensures best >= 0 <==> HasRoom(freeRects, w, h)
      ensures best >= 0 ==> IsBest(freeRects, best, w, h)
    {
      best := -1;
      var bestArea := INT_MAX;
      for i := 0 to |freeRects|
        invariant -1 <= best < |freeRects|
        invariant best >= 0 ==> Holds(freeRects[best], w, h) && bestArea == Area(freeRects[best])
        invariant best < 0 ==> bestArea == INT_MAX
        invariant best >= 0 ==> best < i && bestArea < INT_MAX
        invariant forall j :: 0 <= j < best && Holds(freeRects[j], w, h) ==> Area(freeRects[j]) > bestArea
        invariant forall j :: 0 <= j < i && Holds(freeRects[j], w, h) ==> Area(freeRects[j]) >= bestArea
      {
        var f := freeRects[i];
        if w > f.w || h > f.h { continue; }
        if Area(f) < bestArea { best, bestArea := i, Area(f); }
      }
    }

    // Takes the corner of a free rectangle; the two remainders wait to be freed.
    method TakeCorner(best: nat, w: int, h: int)
      requires Valid() && best < |freeRects|
      requires 0 < w <= freeRects[best].w && 0 < h <= freeRects[best].h
      modifies this`freeRects, this`layout, this`liveAllocations
      ensures layout == SplitLayout(old(layout), old(freeRects[best]), w, h)
      ensures liveAllocations == |layout.live| && freeRects == SwapRemove(old(freeRects), best)
      ensures Consistent(Remainders(old(freeRects[best]), w, h))
    {
      hide LayoutOk, Lists, Remainders;
      var f := freeRects[best];
      SplitListed(layout, freeRects, best, w, h);
      freeRects := SwapRemove(freeRects, best);
      layout := SplitLayout(layout, f, w, h);
      liveAllocations := liveAllocations + 1;
    }

    // Takes the corner of a free rectangle and gives the two remainders back.
    method Split(best: nat, w: int, h: int) returns (ghost dropped: bool)
      requires Valid() && best < |freeRects|
      requires 0 < w <= freeRects[best].w && 0 < h <= freeRects[best].h
      modifies this`freeRects, this`layout, this`liveAllocations
      ensures Valid()
      ensures layout == old(layout).(free := layout.free, exact := old(layout.exact) && !dropped,
                                     live := old(layout.live) + {Corner(old(freeRects[best]), w, h)})
      ensures dropped <==> Overfills(old(freeRects), best, w, h)
      ensures !dropped ==> Leftover(old(freeRects), freeRects, Corner(old(freeRects[best]), w, h), best)
    {
      hide LayoutOk, Lists, Mergeable, Covers;
      var f, right, bottom := freeRects[best], RightPiece(freeRects[best], w, h), BottomPiece(freeRects[best], w, h);
      TakeCorner(best, w, h);
      RemaindersApart(f, w, h);
      ghost var first := AddFreeRect(right, Piece(bottom));
      if !right.Empty() && !bottom.Empty() { RemaindersDoNotJoin(SwapRemove(old(freeRects), best), f, w, h); }
      dropped := AddLast(bottom);
    }

    // The last rectangle waiting to be freed.
    method AddLast(r: Rect) returns (ghost dropped: bool)
      requires Consistent(Piece(r)) && liveAllocations == |layout.live|
      modifies this`freeRects, this`layout
      ensures Valid()
      ensures layout == old(layout).(free := layout.free, exact := old(layout.exact) && !dropped)
      ensures dropped <==> !r.Empty() && |old(freeRects)| == 256 && !Joins(old(freeRects), r)
      ensures !dropped ==> KeepsRoom(old(freeRects), freeRects) && Covers(freeRects, r)
    {
      hide LayoutOk, Lists, Mergeable, Covers;
      assert Piece(r) + {} == Piece(r);
      dropped := AddFreeRect(r, {});
      assert layout.free - {} == layout.free;
    }

    lemma ListedIsFree(i: nat)
      requires Valid() && i < |freeRects|
      ensures freeRects[i] in layout.free
    {}

    method ReserveFree(best: nat, w: int, h: int) returns (x: int, y: int, ghost dropped: bool)
      requires Valid() && best < |freeRects|
      requires 0 < w <= freeRects[best].w && 0 < h <= freeRects[best].h
      modifies this`freeRects, this`layout, this`liveAllocations
      ensures Valid() && layout.live == old(layout).live + {Rect(x, y, w, h)}
      ensures Apart(old(layout), Rect(x, y, w, h)) && Inside(old(layout), Rect(x, y, w, h)) && FIRST_X + w <= width
      ensures x == old(freeRects[best].x) && y == old(freeRects[best].y)
      ensures layout.handed == old(layout.handed) && layout.exact == (old(layout.exact) && !dropped)
      ensures dropped <==> Overfills(old(freeRects), best, w, h)
      ensures !dropped ==> Leftover(old(freeRects), freeRects, Rect(x, y, w, h), best)
    {
      hide LayoutOk, Lists, Overfills, Leftover;
      ListedIsFree(best);
      var f := freeRects[best];
      assert f in layout.free;
      FreeIsApart(layout, f, w, h);
      dropped := Split(best, w, h);
      x, y := f.x, f.y;
    }

    method ReserveShelf(w: int, h: int) returns (ok: bool, x: int, y: int)
      requires Valid() && 0 < w && 0 < h
      modifies this`cursorX, this`cursorY, this`rowH, this`layout, this`liveAllocations
      ensures ok == (ShelfRect(old(layout), w, h).y + h <= height)
      ensures !ok ==> unchanged(this)
      ensures Rect(x, y, w, h) == ShelfRect(old(layout), w, h)
      ensures NextPlace(old(layout.handed), width, Rect(x, y, w, h)) && ok == (y + h <= height)
      ensures ok && FIRST_X + w <= width ==>
                && Valid() && layout == ShelfLayout(old(layout), w, h)
                && layout.live == old(layout).live + {Rect(x, y, w, h)}
                && layout.handed == old(layout.handed) + {Rect(x, y, w, h)} && layout.exact == old(layout.exact)
    {
      hide LayoutOk, Lists, ShelfLayout, NextPlace, Rightmost, Tallest;
      ShelfIsNext(layout, w, h);
      var row;
      x, y, row := cursorX, cursorY, rowH;
      if x + w > width { x, y, row := FIRST_X, y + row, 0; }
      if y + h > height { return false, x, y; }
      ok := true;
      cursorX, cursorY, rowH := x + w, y, Max(h, row);
      liveAllocations := liveAllocations + 1;
      if FIRST_X + w <= width {
        ShelfKeepsLayout(layout, w, h);
        ShelfShape(layout, w, h);
        layout := ShelfLayout(layout, w, h);
      }
    }

    // Reserves a w by h rectangle: the corner of the best fit, or else the next place on the shelf.
    method ReserveRect(w: int, h: int) returns (ok: bool, x: int, y: int, ghost dropped: bool)
      requires Valid() && 0 < w && 0 < h
      modifies this`cursorX, this`cursorY, this`rowH, this`freeRects, this`layout, this`liveAllocations
      ensures !ok ==> unchanged(this) && !HasRoom(freeRects, w, h) && y + h > height
      ensures if HasRoom(old(freeRects), w, h) then AtBest(old(freeRects), Rect(x, y, w, h))
              else NextPlace(old(layout.handed), width, Rect(x, y, w, h))
      ensures ok && !HasRoom(old(freeRects), w, h) && FIRST_X + w <= width ==>
                freeRects == old(freeRects) && layout == ShelfLayout(old(layout), w, h)
      ensures !HasRoom(old(freeRects), w, h) ==> ok == (ShelfRect(old(layout), w, h).y + h <= height)
      ensures ok ==> Apart(old(layout), Rect(x, y, w, h))
      ensures ok ==> (Inside(old(layout), Rect(x, y, w, h)) <==> FIRST_X + w <= width)
      ensures ok && FIRST_X + w <= width ==>
                && Valid() && layout.live == old(layout).live + {Rect(x, y, w, h)}
                && layout.handed == old(layout.handed) +
                                    (if HasRoom(old(freeRects), w, h) then {} else {Rect(x, y, w, h)})
                && layout.exact == (old(layout.exact) && !dropped)
      ensures (dropped <==> Crowds(old(freeRects), w, h)) && (dropped ==> ok)
      ensures HasRoom(old(freeRects), w, h) && !dropped ==> CutsBest(old(freeRects), freeRects, Rect(x, y, w, h))
    {
      hide LayoutOk, Lists, Apart, Overfills, ShelfRect, ShelfLayout, Crowds, HasRoom, NextPlace, IsBest, Leftover;
      dropped := false;
      var best := BestFit(w, h);
      CrowdsMeans(freeRects, best, w, h);
      if best >= 0 {
        ok := true;
        BestHolds(freeRects, best, w, h);
        x, y, dropped := ReserveFree(best, w, h);
        BestCorner(old(freeRects), best, Rect(x, y, w, h));
        if !dropped { BestIsCut(old(freeRects), freeRects, Rect(x, y, w, h), best); }
      } else {
        ShelfIsApart(layout, w, h);
        if ShelfRect(layout, w, h).y + h <= height { ShelfInsideIff(layout, w, h); }
        ok, x, y := ReserveShelf(w, h);
      }
    }

    /** Reserves room for a w by h sprite with one pixel of padding all round. On success
        the padded rectangle is new, disjoint from every live one, and inside the page if
        and only if it fits into a row of its own; in that case the page stays sound.
        A failed probe changes nothing. */
    method Reserve(w: int, h: int) returns (ok: bool, x: int, y: int, ghost dropped: bool)
      requires Valid() && 0 < w && 0 < h
      modifies this`cursorX, this`cursorY, this`rowH, this`freeRects, this`layout, this`liveAllocations
      ensures !ok ==> unchanged(this)
      ensures !ok && !sealed ==> !HasRoom(freeRects, w + 2, h + 2) && y - 1 + h + 2 > height
      ensures !sealed ==>
                if HasRoom(old(freeRects), w + 2, h + 2) then AtBest(old(freeRects), Rect(x - 1, y - 1, w + 2, h + 2))
                else NextPlace(old(layout.handed), width, Rect(x - 1, y - 1, w + 2, h + 2))
      ensures ok && !HasRoom(old(freeRects), w + 2, h + 2) && FIRST_X + w + 2 <= width ==>
                freeRects == old(freeRects) && layout == ShelfLayout(old(layout), w + 2, h + 2)
      ensures !sealed && !HasRoom(old(freeRects), w + 2, h + 2) ==>
                ok == (ShelfRect(old(layout), w + 2, h + 2).y + h + 2 <= height)
      ensures ok ==> !sealed && Apart(old(layout), Rect(x - 1, y - 1, w + 2, h + 2))
      ensures ok ==> (Inside(old(layout), Rect(x - 1, y - 1, w + 2, h + 2)) <==> FIRST_X + w + 2 <= width)
      ensures ok && FIRST_X + w + 2 <= width ==>
                var r := Rect(x - 1, y - 1, w + 2, h + 2);
                && Valid() && layout.live == old(layout).live + {r}
                && layout.handed == old(layout.handed) + (if HasRoom(old(freeRects), w + 2, h + 2) then {} else {r})
                && layout.exact == (old(layout.exact) && !dropped)
      ensures (dropped <==> !sealed && Crowds(old(freeRects), w + 2, h + 2)) && (dropped ==> ok)
      ensures !sealed && HasRoom(old(freeRects), w + 2, h + 2) && !dropped ==>
                CutsBest(old(freeRects), freeRects, Rect(x - 1, y - 1, w + 2, h + 2))
    {
      hide LayoutOk, Lists, Apart, Inside, ShelfRect, ShelfLayout, Crowds, HasRoom, NextPlace, AtBest, CutsBest;
      if sealed { return false, 0, 0, false; }
      ok, x, y, dropped := ReserveRect(w + PADDING * 2, h + PADDING * 2);
      x, y := x + PADDING, y + PADDING;
    }

    method Clear()
      modifies this`cursorX, this`cursorY, this`rowH, this`freeRects, this`layout
      ensures layout == Blank(layout.width, layout.height) && freeRects == []
      ensures layout.width == old(layout.width) && layout.height == old(layout.height)
      ensures old(Mirrors()) ==> Mirrors()
    {
      cursorX, cursorY, rowH := FIRST_X, FIRST_Y, 0;
      freeRects := [];
      layout := Blank(layout.width, layout.height);
    }

    /** Gives back one live rectangle. The page forgets everything when its last rectangle
        goes; a sealed or planned page keeps the space occupied until then, and any other
        page may hand it out again. */
    method Release(r: Rect) returns (destroyed: bool, ghost dropped: bool)
      requires Valid() && r in layout.live
      requires dedicated ==> layout.live == {r}
      modifies this`cursorX, this`cursorY, this`rowH, this`freeRects, this`layout,
               this`liveAllocations, this`plannerLayout
      ensures Valid() && layout.live == old(layout.live) - {r}
      ensures destroyed <==> dedicated && !sealed
      ensures !sealed && layout.live == {} ==> layout == Blank(width, height)
      ensures sealed || layout.live != {} ==> layout.handed == old(layout.handed)
      ensures sealed || (old(plannerLayout) && layout.live != {}) ==> !layout.exact
      ensures !sealed && !old(plannerLayout) && layout.live != {} ==> layout.exact == (old(layout.exact) && !dropped)
      ensures dropped <==>
              && !sealed && !old(plannerLayout) && layout.live != {}
              && |old(freeRects)| == 256 && !Joins(old(freeRects), r)
      ensures plannerLayout == (old(plannerLayout) && (sealed || layout.live != {}))
      ensures sealed || (old(plannerLayout) && layout.live != {}) ==>
                freeRects == old(freeRects) && cursorX == old(cursorX) && cursorY == old(cursorY) && rowH == old(rowH)
      ensures !sealed && !old(plannerLayout) && layout.live != {} && !dropped ==>
                KeepsRoom(old(freeRects), freeRects) && Covers(freeRects, r)
    {
      hide LayoutOk;
      dropped := false;
      destroyed := dedicated && !sealed;
      liveAllocations := liveAllocations - 1;
      if sealed {
        Abandon(r);
      } else if dedicated || liveAllocations == 0 {
        plannerLayout := false;
        Clear();
      } else if plannerLayout {
        Abandon(r);
      } else {
        dropped := Return(r);
      }
    }

    // Puts a live rectangle back on the free list.
    method Return(r: Rect) returns (ghost dropped: bool)
      requires Mirrors() && Lists(freeRects, layout.free)
      requires r in layout.live && liveAllocations == |layout.live| - 1
      modifies this`freeRects, this`layout
      ensures Valid() && layout.live == old(layout.live) - {r}
      ensures layout.width == old(layout.width) && layout.height == old(layout.height)
      ensures layout.handed == old(layout.handed) && layout.exact == (old(layout.exact) && !dropped)
      ensures dropped <==> |old(freeRects)| == 256 && !Joins(old(freeRects), r)
      ensures !dropped ==> KeepsRoom(old(freeRects), freeRects) && Covers(freeRects, r)
    {
      hide LayoutOk, Lists, Mergeable, Joins, Piece, Covers;
      Released(layout, freeRects, r);
      layout := layout.(live := layout.live - {r}, free := layout.free + {r});
      dropped := AddLast(r);
    }

    // The rectangle's pixels stay unused until the page is cleared.
    ghost method Abandon(r: Rect)
      requires r in layout.live
      modifies this`layout
      ensures layout == old(layout).(live := old(layout.live) - {r}, exact := false)
    {
      ReleaseKeepsLayout(layout, r);
      var l := layout.(live := layout.live - {r}, free := layout.free + {r});
      Forgotten(l, r);
      assert l.free - {r} == layout.free;
      layout := l.(free := l.free - {r}, exact := false);
    }
  }

  // ---------- How much a page holds ----------

  lemma Quotients(total: nat, unit: nat, n: nat)
    requires unit > 0
    ensures n < total / unit <==> (n + 1) * unit <= total
  {
    var q := total / unit;
    assert total == q * unit + total % unit;
    if n < q {
      assert q * unit == (n + 1) * unit + (q - n - 1) * unit;
    } else {
      assert (n + 1) * unit == (q + 1) * unit + (n - q) * unit;
    }
  }

  // The shelf after `row` full rows and `col` more rectangles, all w by h.
  ghost predicate Grid(l: Layout, w: int, h: int, row: nat, col: nat) {
    && l.cursorX == FIRST_X + col * w && l.cursorY == FIRST_Y + row * h
    && l.rowH == (if row == 0 && col == 0 then 0 else h)
    && (col == 0 ==> row == 0)
  }

  lemma NextInGrid(l: Layout, w: int, h: int, row: nat, col: nat, cols: nat, rows: nat)
    requires Grid(l, w, h, row, col) && 0 < w && 0 < h && 1 <= col + cols && col <= cols
    requires l.width >= FIRST_X && l.height >= FIRST_Y
    requires cols == (l.width - FIRST_X) / w && rows == (l.height - FIRST_Y) / h
    ensures var wraps := col == cols;
            var row', col' := if wraps then row + 1 else row, if wraps then 1 else col + 1;
            && (ShelfRect(l, w, h).y + h <= l.height <==> row' < rows)
            && Grid(ShelfLayout(l, w, h), w, h, row', col')
  {
    Quotients(l.width - FIRST_X, w, col);
    assert (col + 1) * w == col * w + w;
    var wraps := col == cols;
    var row' := if wraps then row + 1 else row;
    Quotients(l.height - FIRST_Y, h, row');
    assert (row + 1) * h == row * h + h && (row' + 1) * h == row' * h + h;
  }

  // Every entry of the list is inside the page, so its area is no more than the page's.
  lemma RoomAgain(s: seq<Rect>, l: Layout, r: Rect)
    requires Covers(s, r) && !r.Empty() && l.width * l.height < INT_MAX
    requires forall i :: 0 <= i < |s| ==> Inside(l, s[i]) && !s[i].Empty()
    ensures HasRoom(s, r.w, r.h)
  {
    var i :| 0 <= i < |s| && Within(r, s[i]);
    AreaBound(s[i].w, s[i].h, l.width, l.height);
    assert Holds(s[i], r.w, r.h);
  }

  lemma AreaBound(w: nat, h: nat, width: nat, height: nat)
    requires w <= width && h <= height
    ensures w * h <= width * height
  {
    assert width * height - w * h == (width - w) * height + w * (height - h);
    assert (width - w) * height >= 0 && w * (height - h) >= 0;
  }

  /** Room given back is room again: on an ordinary page whose free list has a place left, releasing a
      rectangle and reserving its size succeeds without another pixel of the shelf. */
  method Reuse(page: Page, r: Rect) returns (x: int, y: int)
    requires page.Valid() && r in page.layout.live && page.layout.live != {r} && 2 < r.w && 2 < r.h
    requires !page.dedicated && !page.sealed && !page.plannerLayout && |page.freeRects| < 256
    requires page.width * page.height < INT_MAX
    modifies page
    ensures page.Valid() && page.layout.live == old(page.layout.live) - {r} + {Rect(x - 1, y - 1, r.w, r.h)}
    ensures page.layout.handed == old(page.layout.handed)
  {
    hide LayoutOk, Lists, Covers, KeepsRoom, HasRoom, CutsBest, AtBest, NextPlace, Apart, Crowds, Joins;
    LiveInside(page, r);
    var destroyed, dropped := page.Release(r);
    Others(old(page.layout.live), r);
    FreeInside(page);
    RoomAgain(page.freeRects, page.layout, r);
    var ok;
    ok, x, y, dropped := page.Reserve(r.w - 2, r.h - 2);
  }

  lemma Others(live: set<Rect>, r: Rect)
    requires r in live && live != {r}
    ensures live - {r} != {}
  {
    assert live - {r} == {} ==> live == {r};
  }

  lemma LiveInside(page: Page, r: Rect)
    requires page.Valid() && r in page.layout.live
    ensures FIRST_X + r.w <= page.width
  {}

  lemma FreeInside(page: Page)
    requires page.Valid()
    ensures forall i :: 0 <= i < |page.freeRects| ==>
              Inside(page.layout, page.freeRects[i]) && !page.freeRects[i].Empty()
    ensures page.layout.width == page.width && page.layout.height == page.height
  {
    forall i | 0 <= i < |page.freeRects|
      ensures Inside(page.layout, page.freeRects[i]) && !page.freeRects[i].Empty()
    {
      assert page.freeRects[i] in page.layout.free;
    }
  }

  /** Rectangles of one size are refused by an empty page only after as many columns times rows as fit
      beside and above one another. */
  method FillShelf(page: Page, w: int, h: int, n: nat) returns (placed: nat)
    requires page.Valid() && page.layout == Blank(page.width, page.height) && !page.sealed
    requires 0 < w && 0 < h && FIRST_X + w + 2 <= page.width && page.height >= FIRST_Y
    modifies page
    ensures var cols, rows := (old(page.width) - 1) / (w + 2), (old(page.height) - 6) / (h + 2);
            placed == if n < cols * rows then n else cols * rows
  {
    hide LayoutOk, Grid;
    placed := 0;
    ghost var cols: nat, rows: nat := (page.width - 1) / (w + 2), (page.height - 6) / (h + 2);
    ghost var row: nat, col: nat := 0, 0;
    GridStarts(page.layout, w + 2, h + 2);
    NothingFree(page.freeRects, page.layout.free);
    for i := 0 to n
      invariant page.Valid() && !page.sealed && page.freeRects == []
      invariant page.width == old(page.width) && page.height == old(page.height)
      invariant Grid(page.layout, w + 2, h + 2, row, col) && col <= cols && 1 <= col + cols
      invariant placed == row * cols + col && (placed > 0 ==> row < rows)
      invariant placed == if i < cols * rows then i else cols * rows
    {
      ghost var before := page.layout;
      NextInGrid(before, w + 2, h + 2, row, col, cols, rows);
      ghost var wraps := col == cols;
      ghost var row', col' := if wraps then row + 1 else row, if wraps then 1 else col + 1;
      CountInGrid(row, col, cols, rows);
      var ok, x, y;
      ghost var dropped;
      ok, x, y, dropped := page.Reserve(w, h);
      if ok {
        placed, row, col := placed + 1, row', col';
      }
    }
  }

  lemma GridStarts(l: Layout, w: int, h: int)
    requires l.cursorX == FIRST_X && l.cursorY == FIRST_Y && l.rowH == 0
    ensures Grid(l, w, h, 0, 0)
  {}

  // The place of the next rectangle is on the page exactly while fewer than all are placed.
  lemma CountInGrid(row: nat, col: nat, cols: nat, rows: nat)
    requires col <= cols && 1 <= cols && (row * cols + col > 0 ==> row < rows)
    ensures var wraps := col == cols;
            var row', col' := if wraps then row + 1 else row, if wraps then 1 else col + 1;
            && row' * cols + col' == row * cols + col + 1
            && (row' < rows <==> row * cols + col < cols * rows)
            && row * cols + col <= cols * rows
  {
    RowProducts(row, cols, rows);
  }

  lemma RowProducts(row: nat, cols: nat, rows: nat)
    requires 1 <= cols
    ensures (row + 1) * cols == row * cols + cols && row * cols >= 0 && (row > 0 ==> row * cols > 0)
    ensures rows == 0 ==> cols * rows == 0
    ensures rows == row + 1 ==> cols * rows == row * cols + cols
    ensures rows > row + 1 ==> cols * rows >= row * cols + 2 * cols
  {
    Distributes(row, 1, cols);
    if rows > row + 1 {
      Distributes(row, rows - row, cols);
      TimesAtLeast(rows - row, 2, cols);
    }
    if row > 0 { TimesAtLeast(row, 1, cols); }
  }

  lemma Distributes(a: nat, b: nat, c: nat)
    ensures (a + b) * c == a * c + b * c && c * (a + b) == (a + b) * c
  {}

  lemma TimesAtLeast(a: nat, b: nat, c: nat)
    requires a >= b
    ensures a * c >= b * c
  {}

  // ---------- Any sequence of calls ----------

  // A caller reserves room for a sprite, or gives back the k-th rectangle it holds.
  datatype Call = Take(w: int, h: int) | Give(k: nat)

  predicate Sensible(c: Call, width: int) { c.Take? ==> 0 < c.w && 0 < c.h && FIRST_X + c.w + 2 <= width }

  // One call, with what the caller held and what was free before and after it.
  datatype Step = Step(call: Call, held: seq<Rect>, free: seq<Rect>, heldAfter: seq<Rect>, freeAfter: seq<Rect>) {
    // What the caller gains or gives back.
    predicate Moved() {
      match call
      case Take(w, h) =>
        heldAfter == held ||
        (|heldAfter| == |held| + 1 && heldAfter[..|held|] == held && heldAfter[|held|].w == w + 2 &&
         heldAfter[|held|].h == h + 2)
      case Give(k) => heldAfter == if k < |held| then SwapRemove(held, k) else held
    }

    // The call gives up a free rectangle: it finds the list full and brings one too many.
    ghost predicate Drops() {
      match call
      case Take(w, h) => Crowds(free, w + 2, h + 2)
      case Give(k) => k < |held| && |held| > 1 && |free| == 256 && !Joins(free, held[k])
    }
  }

  // The steps make the calls, from nothing held and nothing free to what is held and free now.
  ghost predicate Leads(steps: seq<Step>, calls: seq<Call>, held: seq<Rect>, free: seq<Rect>) {
    && |steps| == |calls|
    && if steps == [] then held == [] && free == []
       else
         var n := |steps| - 1;
         && steps[n].call == calls[n] && steps[n].Moved() && steps[n].heldAfter == held && steps[n].freeAfter == free
         && Leads(steps[..n], calls[..n], steps[n].held, steps[n].free)
  }

  // A free rectangle was given up since the caller last held nothing.
  ghost predicate Lost(steps: seq<Step>) {
    steps != [] &&
    var n := |steps| - 1;
    (Lost(steps[..n]) || steps[n].Drops()) && steps[n].heldAfter != []
  }

  /** Over any sequence of reserves and releases on an ordinary page: the caller holds exactly the
      live rectangles, and live and free ones cover exactly what the shelf has handed out since the
      page was last empty if and only if no free rectangle was given up since then. */
  method Exercise(page: Page, calls: seq<Call>) returns (held: seq<Rect>, ghost steps: seq<Step>)
    requires page.Valid() && page.layout == Blank(page.width, page.height)
    requires !page.sealed && !page.plannerLayout && !page.dedicated
    requires forall i :: 0 <= i < |calls| ==> Sensible(calls[i], page.width)
    modifies page
    ensures page.Valid() && Lists(held, page.layout.live) && Leads(steps, calls, held, page.freeRects)
    ensures forall px, py :: InSet(page.layout.live + page.layout.free, px, py) ==> InSet(page.layout.handed, px, py)
    ensures NoHole(page.layout) <==> !Lost(steps)
  {
    held, steps := [], [];
    NothingHeld(page.layout.live);
    NothingFree(page.freeRects, page.layout.free);
    for i := 0 to |calls|
      invariant page.Valid() && Lists(held, page.layout.live) && Leads(steps, calls[..i], held, page.freeRects)
      invariant page.layout.exact == !Lost(steps)
      invariant !page.sealed && !page.plannerLayout && !page.dedicated && page.width == old(page.width)
    {
      ghost var heldBefore, freeBefore := held, page.freeRects;
      held := Perform(page, calls[i], held);
      ghost var s := Step(calls[i], heldBefore, freeBefore, held, page.freeRects);
      OneMore(steps, calls, i, s);
      steps := steps + [s];
    }
    assert calls[..|calls|] == calls;
    SoundLayoutTiles(page.layout, 0, 0);
    forall px, py ensures
      InSet(page.layout.live + page.layout.free, px, py) ==> InSet(page.layout.handed, px, py)
    {
      SoundLayoutTiles(page.layout, px, py);
    }
  }

  lemma OneMore(steps: seq<Step>, calls: seq<Call>, i: nat, s: Step)
    requires i < |calls| && Leads(steps, calls[..i], s.held, s.free) && s.call == calls[i] && s.Moved()
    ensures Leads(steps + [s], calls[..i + 1], s.heldAfter, s.freeAfter)
    ensures Lost(steps + [s]) <==> (Lost(steps) || s.Drops()) && s.heldAfter != []
  {
    assert (steps + [s])[..|steps|] == steps && calls[..i + 1][..i] == calls[..i];
  }

  method Perform(page: Page, c: Call, held: seq<Rect>) returns (now: seq<Rect>)
    requires page.Valid() && Lists(held, page.layout.live) && Sensible(c, page.width)
    requires !page.sealed && !page.plannerLayout && !page.dedicated
    requires held == [] ==> page.layout.exact
    modifies page
    ensures page.Valid() && Lists(now, page.layout.live)
    ensures !page.sealed && !page.plannerLayout && !page.dedicated && page.width == old(page.width)
    ensures var s := Step(c, held, old(page.freeRects), now, page.freeRects);
            && s.Moved() && page.layout.exact == ((old(page.layout.exact) && !s.Drops()) || now == [])
  {
    match c
    case Take(w, h) => now := PerformTake(page, w, h, held);
    case Give(k) => now := PerformGive(page, k, held);
  }

  method PerformTake(page: Page, w: int, h: int, held: seq<Rect>) returns (now: seq<Rect>)
    requires page.Valid() && Lists(held, page.layout.live) && Sensible(Take(w, h), page.width)
    requires !page.sealed && !page.plannerLayout && !page.dedicated
    requires held == [] ==> page.layout.exact
    modifies page
    ensures page.Valid() && Lists(now, page.layout.live)
    ensures !page.sealed && !page.plannerLayout && !page.dedicated && page.width == old(page.width)
    ensures var s := Step(Take(w, h), held, old(page.freeRects), now, page.freeRects);
            && s.Moved() && page.layout.exact == ((old(page.layout.exact) && !s.Drops()) || now == [])
  {
    hide LayoutOk, Apart, Distinct, Crowds;
    now := held;
    var ok, x, y;
    ghost var dropped;
    ok, x, y, dropped := page.Reserve(w, h);
    if ok {
      var r := Rect(x - 1, y - 1, w + 2, h + 2);
      NewIsNotHeld(old(page.layout), r);
      AppendLists(held, r, old(page.layout.live));
      now := held + [r];
    }
  }

  method PerformGive(page: Page, k: nat, held: seq<Rect>) returns (now: seq<Rect>)
    requires page.Valid() && Lists(held, page.layout.live)
    requires !page.sealed && !page.plannerLayout && !page.dedicated
    requires held == [] ==> page.layout.exact
    modifies page
    ensures page.Valid() && Lists(now, page.layout.live)
    ensures !page.sealed && !page.plannerLayout && !page.dedicated && page.width == old(page.width)
    ensures var s := Step(Give(k), held, old(page.freeRects), now, page.freeRects);
            && s.Moved() && page.layout.exact == ((old(page.layout.exact) && !s.Drops()) || now == [])
  {
    hide LayoutOk, Distinct, Joins;
    now := held;
    if k < |held| {
      SwapRemoveLists(held, k, page.layout.live);
      var destroyed;
      ghost var dropped;
      destroyed, dropped := page.Release(held[k]);
      now := SwapRemove(held, k);
      HeldIsLive(now, page.layout.live);
    }
  }

  lemma HeldIsLive(held: seq<Rect>, live: set<Rect>)
    requires Lists(held, live)
    ensures held == [] <==> live == {}
  {
    if held != [] { assert held[0] in live; }
  }

  lemma NothingFree(listed: seq<Rect>, free: set<Rect>)
    requires Lists(listed, free) && free == {}
    ensures listed == []
  {
    HeldIsLive(listed, free);
  }

  lemma NothingHeld(live: set<Rect>)
    ensures live == {} ==> Lists([], live)
  {}

  lemma NewIsNotHeld(l: Layout, r: Rect)
    requires Apart(l, r)
    ensures r !in l.live
  {}

  /** The grouped-sprite path (w + 2 <= page size) is one pixel too generous: among the
      sizes it admits, a fresh page holds the sprite exactly when w + 2 < page size. */
  lemma EligibleGuardIsSafeIff(size: int, w: int, h: int)
    requires 0 < w && 0 < h && w + 2 <= size && h + 8 <= size
    ensures var page := Blank(size, size);
            Inside(page, ShelfRect(page, w + 2, h + 2)) <==> w + 2 < size
  {}

  lemma EligibleGuardOverflows()
    ensures var page := Blank(2048, 2048);
            && 2046 + 2 <= 2048 && 100 + 8 <= 2048
            && ShelfRect(page, 2046 + 2, 100 + 2) == Rect(1, 6, 2048, 102)
            && !Inside(page, Rect(1, 6, 2048, 102))
  {}
}
