/**
  The occupancy bitmap a staged atlas plan is checked with (runtime/stasis_graphics.c): one bit per
  page pixel, packed in bytes. Marking a rectangle fails when it leaves the page or meets a marked
  pixel; the lemmas and contracts say this is the geometric disjointness test.
*/
module OccupancyBitmap {
  import opened AtlasPage
  import opened Division

  // ---------- Bits ----------

  function Mask(k: nat): bv8 {
    if k == 0 then 1 else if k == 1 then 2 else if k == 2 then 4 else if k == 3 then 8
    else if k == 4 then 16 else if k == 5 then 32 else if k == 6 then 64 else 128
  }

  predicate Has(b: bv8, k: nat) { b & Mask(k) != 0 }
  function With(b: bv8, k: nat): bv8 { b | Mask(k) }

  lemma WithHas(b: bv8, j: nat, k: nat)
    requires j < 8 && k < 8
    ensures Has(With(b, j), k) <==> Has(b, k) || j == k
  {}

  predicate Bit(bits: seq<bv8>, p: nat)
    requires p < 8 * |bits|
  {
    Has(bits[p / 8], p % 8)
  }

  function Set(bits: seq<bv8>, p: nat): (r: seq<bv8>)
    requires p < 8 * |bits|
    ensures |r| == |bits|
  {
    bits[p / 8 := With(bits[p / 8], p % 8)]
  }

  lemma SetBit(bits: seq<bv8>, p: nat, q: nat)
    requires p < 8 * |bits| && q < 8 * |bits|
    ensures Bit(Set(bits, p), q) <==> Bit(bits, q) || q == p
  {
    hide Has, With;
    SamePlace(p, q);
    WithHas(bits[p / 8], p % 8, q % 8);
  }

  lemma SamePlace(p: nat, q: nat)
    ensures p / 8 == q / 8 && p % 8 == q % 8 <==> p == q
  {}

  function Pixel(width: nat, px: nat, py: nat): nat { py * width + px }

  lemma PixelIsInjective(width: nat, px: nat, py: nat, qx: nat, qy: nat)
    requires px < width && qx < width
    ensures Pixel(width, px, py) == Pixel(width, qx, qy) <==> px == qx && py == qy
  {
    Quotient(Pixel(width, px, py), width, py, px);
    Quotient(Pixel(width, qx, qy), width, qy, qx);
  }

  lemma PixelInside(width: nat, height: nat, px: nat, py: nat)
    requires px < width && py < height
    ensures Pixel(width, px, py) < width * height
  {
    assert width * height == py * width + width + (height - py - 1) * width;
    assert (height - py - 1) * width >= 0;
  }

  // ---------- Rectangles ----------

  ghost predicate Covered(rects: seq<Rect>, px: int, py: int) {
    exists i :: 0 <= i < |rects| && rects[i].Contains(px, py)
  }

  predicate Large(bits: seq<bv8>, width: nat, height: nat) { width * height <= 8 * |bits| }

  predicate BitAt(bits: seq<bv8>, width: nat, height: nat, px: nat, py: nat)
    requires Large(bits, width, height) && px < width && py < height
  {
    PixelInside(width, height, px, py);
    Bit(bits, Pixel(width, px, py))
  }

  // The marked pixels are those of the rectangles.
  ghost predicate Shows(bits: seq<bv8>, width: nat, height: nat, rects: seq<Rect>) {
    && Large(bits, width, height)
    && forall px, py :: 0 <= px < width && 0 <= py < height ==>
         (BitAt(bits, width, height, px, py) <==> Covered(rects, px, py))
  }

  predicate FitsPage(r: Rect, width: nat, height: nat) {
    r.x >= 0 && r.y >= 0 && !r.Empty() && r.x + r.w <= width && r.y + r.h <= height
  }

  ghost predicate Clear(rects: seq<Rect>, r: Rect) {
    forall i :: 0 <= i < |rects| ==> Disjoint(rects[i], r)
  }

  predicate NonEmpty(rects: seq<Rect>) { forall i :: 0 <= i < |rects| ==> !rects[i].Empty() }

  lemma ClearMeansUncovered(rects: seq<Rect>, r: Rect)
    requires NonEmpty(rects) && !r.Empty()
    ensures Clear(rects, r) <==> forall px, py :: r.Contains(px, py) ==> !Covered(rects, px, py)
  {
    if !Clear(rects, r) {
      var i :| 0 <= i < |rects| && !Disjoint(rects[i], r);
      DisjointMeansNoCommonPixel(rects[i], r);
      var px, py :| rects[i].Contains(px, py) && r.Contains(px, py);
      assert Covered(rects, px, py);
    }
  }

  // ---------- Marking ----------

  // The pixels of r the two loops have passed: whole rows, then part of a row.
  predicate Done(r: Rect, row: nat, column: nat, px: int, py: int) {
    r.Contains(px, py) && (py < r.y + row || (py == r.y + row && px < r.x + column))
  }

  ghost predicate Progress(bits: seq<bv8>, width: nat, height: nat, rects: seq<Rect>, r: Rect, row: nat, column: nat) {
    && Large(bits, width, height)
    && forall px, py :: 0 <= px < width && 0 <= py < height ==>
         && (BitAt(bits, width, height, px, py) <==> Covered(rects, px, py) || Done(r, row, column, px, py))
         && !(Covered(rects, px, py) && Done(r, row, column, px, py))
  }

  lemma MarkStep(bits: seq<bv8>, width: nat, height: nat, rects: seq<Rect>, r: Rect, row: nat, column: nat)
    requires FitsPage(r, width, height) && row < r.h && column < r.w
    requires Progress(bits, width, height, rects, r, row, column)
    ensures var p := Pixel(width, r.x + column, r.y + row);
            && p < 8 * |bits|
            && (Bit(bits, p) <==> Covered(rects, r.x + column, r.y + row))
            && (!Bit(bits, p) ==>
                  Progress(Set(bits, p), width, height, rects, r, row, column + 1))
  {
    hide Has, With, Pixel, Bit, Set;
    var x, y := r.x + column, r.y + row;
    PixelInside(width, height, x, y);
    var p := Pixel(width, x, y);
    assert BitAt(bits, width, height, x, y) <==> Bit(bits, p);
    if !Bit(bits, p) {
      var now := Set(bits, p);
      forall px, py | 0 <= px < width && 0 <= py < height
        ensures BitAt(now, width, height, px, py) <==> BitAt(bits, width, height, px, py) || (px == x && py == y)
      {
        PixelInside(width, height, px, py);
        SetBit(bits, p, Pixel(width, px, py));
        PixelIsInjective(width, px, py, x, y);
      }
      assert forall px, py :: Done(r, row, column + 1, px, py) <==>
               Done(r, row, column, px, py) || (px == x && py == y);
    }
  }

  lemma NextRow(bits: seq<bv8>, width: nat, height: nat, rects: seq<Rect>, r: Rect, row: nat)
    requires FitsPage(r, width, height) && row < r.h && Progress(bits, width, height, rects, r, row, r.w)
    ensures Progress(bits, width, height, rects, r, row + 1, 0)
  {
    assert forall px, py :: Done(r, row, r.w, px, py) <==> Done(r, row + 1, 0, px, py);
  }

  lemma MarkStart(bits: seq<bv8>, width: nat, height: nat, rects: seq<Rect>, r: Rect)
    requires Shows(bits, width, height, rects)
    ensures Progress(bits, width, height, rects, r, 0, 0)
  {
    assert forall px, py :: !Done(r, 0, 0, px, py);
  }

  lemma MarkEnd(bits: seq<bv8>, width: nat, height: nat, rects: seq<Rect>, r: Rect)
    requires FitsPage(r, width, height) && NonEmpty(rects) && Progress(bits, width, height, rects, r, r.h, 0)
    ensures Shows(bits, width, height, rects + [r]) && Clear(rects, r)
  {
    assert forall px, py :: Done(r, r.h, 0, px, py) <==> r.Contains(px, py);
    ClearMeansUncovered(rects, r);
    forall px, py ensures Covered(rects + [r], px, py) <==> Covered(rects, px, py) || r.Contains(px, py) {
      CoveredAppend(rects, r, px, py);
    }
  }

  lemma CoveredAppend(rects: seq<Rect>, r: Rect, px: int, py: int)
    ensures Covered(rects + [r], px, py) <==> Covered(rects, px, py) || r.Contains(px, py)
  {
    if Covered(rects, px, py) {
      var i :| 0 <= i < |rects| && rects[i].Contains(px, py);
      assert (rects + [r])[i].Contains(px, py);
    }
    if r.Contains(px, py) { assert (rects + [r])[|rects|].Contains(px, py); }
  }

  /** stasis_sprite_atlas_mark_occupied: it succeeds exactly when the rectangle is in the page and
      disjoint from every rectangle marked before, and then the bitmap shows it too. */
  method MarkOccupied(bits: array<bv8>, width: nat, height: nat, r: Rect, ghost rects: seq<Rect>) returns (ok: bool)
    requires r.x >= 0 && r.y >= 0 && r.w >= 0 && r.h >= 0
    requires NonEmpty(rects) && Shows(bits[..], width, height, rects)
    modifies bits
    ensures ok <==> FitsPage(r, width, height) && Clear(rects, r)
    ensures ok ==> Shows(bits[..], width, height, rects + [r])
  {
    hide Progress, Shows, Clear, Bit, Has, With, Pixel, Covered;
    if r.w == 0 || r.h == 0 || r.x > width || r.y > height || r.w > width - r.x || r.h > height - r.y { return false; }
    MarkStart(bits[..], width, height, rects, r);
    for row := 0 to r.h
      invariant Progress(bits[..], width, height, rects, r, row, 0)
    {
      for column := 0 to r.w
        invariant Progress(bits[..], width, height, rects, r, row, column)
      {
        MarkStep(bits[..], width, height, rects, r, row, column);
        var pixel := Pixel(width, r.x + column, r.y + row);
        BitIs(bits[..], pixel);
        if Has(bits[pixel / 8], pixel % 8) {
          NotClear(rects, r, r.x + column, r.y + row);
          return false;
        }
        ghost var before := bits[..];
        bits[pixel / 8] := With(bits[pixel / 8], pixel % 8);
        assert bits[..] == Set(before, pixel);
      }
      NextRow(bits[..], width, height, rects, r, row);
    }
    MarkEnd(bits[..], width, height, rects, r);
    return true;
  }

  lemma BitIs(bits: seq<bv8>, p: nat)
    requires p < 8 * |bits|
    ensures Bit(bits, p) <==> Has(bits[p / 8], p % 8)
  {}

  lemma NotClear(rects: seq<Rect>, r: Rect, px: int, py: int)
    requires NonEmpty(rects) && Covered(rects, px, py) && r.Contains(px, py)
    ensures !Clear(rects, r)
  {
    ClearMeansUncovered(rects, r);
  }
}
