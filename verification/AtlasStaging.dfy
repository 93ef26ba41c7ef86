/**
  The two calls of the atlas planner (runtime/stasis_graphics.c): staging checks a plan with flag
  arrays and occupancy bitmaps and builds its sheets, committing swaps them in. Both are proved
  against AtlasPlan.
*/
module AtlasStaging {
  import opened Options
  import opened AtlasPage
  import opened OccupancyBitmap
  import opened AtlasPlan

  // ---------- Checking the pages ----------

  ghost predicate FlagsRight(a: Atlas, flags: seq<bool>) {
    |flags| == |a.sheets| && forall i :: 0 <= i < |flags| ==> (flags[i] <==> Eligible(a, i))
  }

  // stasis_sprite_atlas_page_flags, as far as planning looks at it.
  method SheetEligible(a: Atlas, i: nat) returns (eligible: bool)
    requires i < |a.sheets|
    ensures eligible <==> Eligible(a, i)
  {
    var sheet := a.sheets[i];
    if sheet.texture == 0 { return false; }
    eligible := sheet.group != 0 && !sheet.dedicated;
    if sheet.isSealed { eligible := false; }
    if a.fallback == i { eligible := false; }
    ghost var before := eligible;
    var hasResident := false;
    for s := 0 to |a.sprites|
      invariant hasResident <==> exists r :: 0 <= r < s && Tied(a, a.sprites[r], i)
      invariant eligible <==> before && forall r :: 0 <= r < s && Tied(a, a.sprites[r], i) ==>
                  Ready(a.sprites[r], sheet.group)
    {
      var e := a.sprites[s];
      if !Tied(a, e, i) { continue; }
      hasResident := true;
      if !e.eligible || e.group == 0 || e.group != sheet.group || !e.pathHashed || e.stale { eligible := false; }
    }
    if !hasResident { eligible := false; }
  }

  method SheetFlags(a: Atlas) returns (flags: array<bool>)
    ensures fresh(flags) && FlagsRight(a, flags[..])
  {
    hide Eligible;
    flags := new bool[|a.sheets|];
    for i := 0 to |a.sheets|
      invariant forall j :: 0 <= j < i ==> (flags[j] <==> Eligible(a, j))
    {
      var eligible := SheetEligible(a, i);
      flags[i] := eligible;
    }
  }

  // What the checks say of one plan page, read off the flags.
  predicate PageFits(a: Atlas, p: PlanPage, flags: seq<bool>)
    requires |flags| == |a.sheets|
  {
    && p.source < |a.sheets| && flags[p.source] && p.markedEligible && !p.markedBlocked
    && p.width == a.sheets[p.source].width && p.height == a.sheets[p.source].height
    && p.usableX == 1 && p.usableY == 6 && p.padding == 1 && p.headerHeight == 6 && p.compatible
    && p.group != 0 && p.group == a.sheets[p.source].group
    && p.bytes == a.sheets[p.source].width * a.sheets[p.source].height * 4
  }

  lemma PageFitsIff(a: Atlas, p: PlanPage, flags: seq<bool>)
    requires FlagsRight(a, flags)
    ensures PageFits(a, p, flags) <==> PageOk(a, p)
  {
    hide Eligible;
  }

  ghost predicate ShowsRebuilt(selected: seq<bool>, pages: seq<PlanPage>) {
    forall i :: 0 <= i < |selected| ==> (selected[i] <==> Rebuilt(pages, i))
  }

  method CheckPages(a: Atlas, pages: seq<PlanPage>, flags: array<bool>) returns (ok: bool, selected: array<bool>)
    requires FlagsRight(a, flags[..])
    ensures fresh(selected) && selected.Length == |a.sheets|
    ensures ok <==> PagesOk(a, pages)
    ensures ok ==> ShowsRebuilt(selected[..], pages)
  {
    hide PageOk, FlagsRight;
    selected := new bool[|a.sheets|](i => false);
    FlagsLength(a, flags[..]);
    for k := 0 to |pages|
      invariant forall j :: 0 <= j < k ==> PageOk(a, pages[j])
      invariant DistinctSources(pages[..k]) && ShowsRebuilt(selected[..], pages[..k])
    {
      var p := pages[k];
      PageFitsIff(a, p, flags[..]);
      if !PageFits(a, p, flags[..]) { return false, selected; }
      NextSource(pages, k, selected[..]);
      if selected[p.source] { return false, selected; }
      ghost var before := selected[..];
      selected[p.source] := true;
      assert selected[..] == before[p.source := true];
    }
    assert pages[..|pages|] == pages;
    return true, selected;
  }

  lemma FlagsLength(a: Atlas, flags: seq<bool>)
    requires FlagsRight(a, flags)
    ensures |flags| == |a.sheets|
  {}

  lemma NextSource(pages: seq<PlanPage>, k: nat, selected: seq<bool>)
    requires k < |pages| && pages[k].source < |selected|
    requires DistinctSources(pages[..k]) && ShowsRebuilt(selected, pages[..k])
    ensures selected[pages[k].source] ==> !DistinctSources(pages)
    ensures !selected[pages[k].source] ==>
              DistinctSources(pages[..k + 1]) && ShowsRebuilt(selected[pages[k].source := true], pages[..k + 1])
  {
    var source := pages[k].source;
    if selected[source] {
      var j :| 0 <= j < |pages[..k]| && pages[..k][j].source == source;
      assert pages[j].source == pages[k].source;
    } else {
      assert forall j :: 0 <= j < k ==> pages[..k][j] == pages[j];
      var now := selected[source := true];
      forall i | 0 <= i < |now| ensures now[i] <==> Rebuilt(pages[..k + 1], i) {
        if Rebuilt(pages[..k], i) {
          var j :| 0 <= j < k && pages[..k][j].source == i;
          assert pages[..k + 1][j].source == i;
        }
        assert pages[..k + 1][k].source == source;
      }
    }
  }

  // ---------- Checking the placements ----------

  predicate PlacementFits(a: Atlas, pages: seq<PlanPage>, p: Placement, flags: seq<bool>)
    requires |flags| == |a.sheets|
  {
    && 0 <= p.slot < |a.sprites| && p.page < |pages|
    && var e, target := a.sprites[p.slot], pages[p.page];
    && Resident(a, e) && !e.stale && e.eligible && e.group != 0 && e.pathHashed && e.rasterHashed
    && flags[e.sheet] && e.group == target.group && p.x >= 2 && p.y >= 7
    && p.x - 1 + e.w + 2 <= target.width && p.y - 1 + e.h + 2 <= target.height
  }

  lemma PlacementFitsIff(a: Atlas, pages: seq<PlanPage>, p: Placement, flags: seq<bool>)
    requires FlagsRight(a, flags)
    ensures PlacementFits(a, pages, p, flags) <==> PlacementOk(a, pages, p)
  {
    hide Eligible;
  }

  ghost predicate ShowsPlaced(seen: seq<bool>, placements: seq<Placement>) {
    forall s :: 0 <= s < |seen| ==> (seen[s] <==> HasPlacement(placements, s))
  }

  ghost predicate ShowsTargets(used: seq<bool>, placements: seq<Placement>) {
    forall k :: 0 <= k < |used| ==> (used[k] <==> Target(placements, k))
  }

  ghost predicate ShowsSelected(a: Atlas, selected: seq<bool>, pages: seq<PlanPage>, placements: seq<Placement>) {
    forall i :: 0 <= i < |selected| ==> (selected[i] <==> Rebuilt(pages, i) || Vacated(a, placements, i))
  }

  ghost predicate Shown(a: Atlas, pages: seq<PlanPage>, placements: seq<Placement>, selected: seq<bool>,
      seen: seq<bool>, used: seq<bool>) {
    && |selected| == |a.sheets| && |seen| == |a.sprites| && |used| == |pages|
    && ShowsSelected(a, selected, pages, placements) && ShowsPlaced(seen, placements) && ShowsTargets(used, placements)
  }

  lemma ShownAtFirst(a: Atlas, pages: seq<PlanPage>, placements: seq<Placement>, selected: seq<bool>, seen: seq<bool>,
      used: seq<bool>)
    requires |selected| == |a.sheets| && |seen| == |a.sprites| && |used| == |pages|
    requires ShowsRebuilt(selected, pages) && placements == []
    requires (forall s :: 0 <= s < |seen| ==> !seen[s]) && (forall k :: 0 <= k < |used| ==> !used[k])
    ensures Shown(a, pages, placements, selected, seen, used)
  {}

  lemma NextPlacement(a: Atlas, pages: seq<PlanPage>, placements: seq<Placement>, n: nat, selected: seq<bool>,
      seen: seq<bool>, used: seq<bool>)
    requires n < |placements| && Shown(a, pages, placements[..n], selected, seen, used) &&
               DistinctSlots(placements[..n])
    requires 0 <= placements[n].slot < |a.sprites| && placements[n].page < |pages|
    requires 0 <= a.sprites[placements[n].slot].sheet < |a.sheets|
    ensures seen[placements[n].slot] ==> !DistinctSlots(placements)
    ensures !seen[placements[n].slot] ==>
              var p := placements[n];
              && DistinctSlots(placements[..n + 1])
              && Shown(a, pages, placements[..n + 1], selected[a.sprites[p.slot].sheet := true], seen[p.slot := true],
                   used[p.page := true])
  {
    var p := placements[n];
    assert forall j :: 0 <= j < n ==> placements[..n][j] == placements[j] == placements[..n + 1][j];
    if seen[p.slot] {
      var j :| 0 <= j < |placements[..n]| && placements[..n][j].slot == p.slot;
      assert placements[j].slot == placements[n].slot;
    } else {
      forall i ensures Vacated(a, placements[..n + 1], i) <==>
        Vacated(a, placements[..n], i) || a.sprites[p.slot].sheet == i {
        VacatedNext(a, placements, n, i);
      }
      forall s ensures HasPlacement(placements[..n + 1], s) <==> HasPlacement(placements[..n], s) || p.slot == s {
        PlacedNext(placements, n, s);
      }
      forall k ensures Target(placements[..n + 1], k) <==> Target(placements[..n], k) || p.page == k {
        TargetNext(placements, n, k);
      }
    }
  }

  lemma VacatedNext(a: Atlas, placements: seq<Placement>, n: nat, i: int)
    requires n < |placements| && 0 <= placements[n].slot < |a.sprites|
    ensures Vacated(a, placements[..n + 1], i) <==>
              Vacated(a, placements[..n], i) || a.sprites[placements[n].slot].sheet == i
  {
    var now, before := placements[..n + 1], placements[..n];
    assert now[n] == placements[n] && forall j :: 0 <= j < n ==> now[j] == before[j];
    if Vacated(a, before, i) {
      var k :| 0 <= k < |before| && 0 <= before[k].slot < |a.sprites| && a.sprites[before[k].slot].sheet == i;
      assert a.sprites[now[k].slot].sheet == i;
    }
  }

  lemma PlacedNext(placements: seq<Placement>, n: nat, s: int)
    requires n < |placements|
    ensures HasPlacement(placements[..n + 1], s) <==> HasPlacement(placements[..n], s) || placements[n].slot == s
  {
    var now, before := placements[..n + 1], placements[..n];
    assert now[n] == placements[n] && forall j :: 0 <= j < n ==> now[j] == before[j];
    if HasPlacement(before, s) {
      var k :| 0 <= k < |before| && before[k].slot == s;
      assert now[k].slot == s;
    }
  }

  lemma TargetNext(placements: seq<Placement>, n: nat, k: int)
    requires n < |placements|
    ensures Target(placements[..n + 1], k) <==> Target(placements[..n], k) || placements[n].page == k
  {
    var now, before := placements[..n + 1], placements[..n];
    assert now[n] == placements[n] && forall j :: 0 <= j < n ==> now[j] == before[j];
    if Target(before, k) {
      var j :| 0 <= j < |before| && before[j].page == k;
      assert now[j].page == k;
    }
  }

  method CheckPlacements(a: Atlas, plan: Plan, flags: array<bool>, selected: array<bool>)
    returns (ok: bool, seen: array<bool>, used: array<bool>)
    requires FlagsRight(a, flags[..]) && selected.Length == |a.sheets| && ShowsRebuilt(selected[..], plan.pages) &&
               flags != selected
    modifies selected
    ensures fresh(seen) && fresh(used) && seen.Length == |a.sprites| && used.Length == |plan.pages|
    ensures ok <==> PlacementsOk(a, plan)
    ensures ok ==> Shown(a, plan.pages, plan.placements, selected[..], seen[..], used[..])
  {
    hide PlacementOk, FlagsRight, Shown, DistinctSlots;
    seen := new bool[|a.sprites|](i => false);
    used := new bool[|plan.pages|](i => false);
    FlagsLength(a, flags[..]);
    assert DistinctSlots(plan.placements[..0]) by { NoSlots(plan.placements); }
    ShownAtFirst(a, plan.pages, plan.placements[..0], selected[..], seen[..], used[..]);
    for n := 0 to |plan.placements|
      invariant forall j :: 0 <= j < n ==> PlacementOk(a, plan.pages, plan.placements[j])
      invariant DistinctSlots(plan.placements[..n])
      invariant Shown(a, plan.pages, plan.placements[..n], selected[..], seen[..], used[..])
      invariant flags[..] == old(flags[..])
    {
      var p := plan.placements[n];
      PlacementFitsIff(a, plan.pages, p, flags[..]);
      if !PlacementFits(a, plan.pages, p, flags[..]) { return false, seen, used; }
      NextPlacement(a, plan.pages, plan.placements, n, selected[..], seen[..], used[..]);
      if seen[p.slot] { return false, seen, used; }
      ghost var was := (selected[..], seen[..], used[..]);
      seen[p.slot] := true;
      selected[a.sprites[p.slot].sheet] := true;
      used[p.page] := true;
      assert selected[..] == was.0[a.sprites[p.slot].sheet := true] && seen[..] == was.1[p.slot := true] &&
               used[..] == was.2[p.page := true];
    }
    assert plan.placements[..|plan.placements|] == plan.placements;
    return true, seen, used;
  }

  lemma NoSlots(placements: seq<Placement>)
    ensures DistinctSlots(placements[..0])
  {}

  // ---------- Checking that whole sheets move ----------

  method ResidentsSeen(a: Atlas, i: int, seen: array<bool>) returns (ok: bool)
    requires seen.Length == |a.sprites|
    ensures ok <==>
            && (exists s :: 0 <= s < |a.sprites| && Resident(a, a.sprites[s]) && a.sprites[s].sheet == i)
            && (forall s :: 0 <= s < |a.sprites| && Resident(a, a.sprites[s]) && a.sprites[s].sheet == i ==> seen[s])
  {
    var found := false;
    for s := 0 to |a.sprites|
      invariant found <==> exists r :: 0 <= r < s && Resident(a, a.sprites[r]) && a.sprites[r].sheet == i
      invariant forall r :: 0 <= r < s && Resident(a, a.sprites[r]) && a.sprites[r].sheet == i ==> seen[r]
    {
      if !Resident(a, a.sprites[s]) || a.sprites[s].sheet != i { continue; }
      found := true;
      if !seen[s] { return false; }
    }
    ok := found;
  }

  method CheckClosed(a: Atlas, plan: Plan, flags: array<bool>, selected: array<bool>, seen: array<bool>,
      ghost used: seq<bool>) returns (ok: bool)
    requires FlagsRight(a, flags[..]) && Shown(a, plan.pages, plan.placements, selected[..], seen[..], used)
    ensures ok <==> Closed(a, plan)
  {
    hide Eligible, Rebuilt, Vacated, HasPlacement;
    for i := 0 to |a.sheets|
      invariant forall j :: 0 <= j < i && Selected(a, plan, j) ==> SheetClosed(a, plan.placements, j)
    {
      if !selected[i] { continue; }
      assert Selected(a, plan, i) && (flags[..][i] <==> Eligible(a, i));
      if !flags[i] { return false; }
      var whole := ResidentsSeen(a, i, seen);
      if !whole { return false; }
    }
    ok := true;
  }

  // ---------- Checking that nothing overlaps ----------

  const WHITE := Rect(1, 1, 2, 2)
  const PLACEHOLDER := Rect(5, 1, 2, 2)

  predicate SlotsExist(a: Atlas, placements: seq<Placement>) {
    forall k :: 0 <= k < |placements| ==>
      0 <= placements[k].slot < |a.sprites| && a.sprites[placements[k].slot].w > 0 &&
        a.sprites[placements[k].slot].h > 0
  }

  // What page k holds after some placements.
  function RectsOn(a: Atlas, placements: seq<Placement>, k: nat): (rects: seq<Rect>)
    requires SlotsExist(a, placements)
    ensures NonEmpty(rects)
  {
    if placements == [] then [WHITE, PLACEHOLDER]
    else
      var p := placements[|placements| - 1];
      RectsOn(a, placements[..|placements| - 1], k) + if p.page == k then [Padded(a.sprites[p.slot], p)] else []
  }

  lemma {:induction false} ClearOfRects(a: Atlas, placements: seq<Placement>, k: nat, r: Rect)
    requires SlotsExist(a, placements) && r.y >= 6
    ensures Clear(RectsOn(a, placements, k), r) <==>
            forall j :: 0 <= j < |placements| && placements[j].page == k ==>
              Disjoint(Padded(a.sprites[placements[j].slot], placements[j]), r)
  {
    if placements == [] {
      assert Disjoint(WHITE, r) && Disjoint(PLACEHOLDER, r);
    } else {
      var n := |placements| - 1;
      var init, p := placements[..n], placements[n];
      ClearOfRects(a, init, k, r);
      assert forall j :: 0 <= j < n ==> init[j] == placements[j];
      ClearAppend(RectsOn(a, init, k), Padded(a.sprites[p.slot], p), r);
    }
  }

  lemma ClearAppend(rects: seq<Rect>, last: Rect, r: Rect)
    ensures Clear(rects + [last], r) <==> Clear(rects, r) && Disjoint(last, r)
    ensures rects + [] == rects
  {
    var all := rects + [last];
    assert forall i :: 0 <= i < |rects| ==> all[i] == rects[i];
    assert all[|rects|] == last;
  }

  lemma ApartNext(a: Atlas, placements: seq<Placement>, n: nat)
    requires SlotsExist(a, placements) && n < |placements|
    ensures var p := placements[n];
            NoOverlap(a, placements[..n + 1]) <==>
            NoOverlap(a, placements[..n]) && forall j :: 0 <= j < n && placements[..n][j].page == p.page ==>
              Disjoint(Padded(a.sprites[placements[..n][j].slot], placements[..n][j]), Padded(a.sprites[p.slot], p))
  {
    var now, before := placements[..n + 1], placements[..n];
    assert now[n] == placements[n] && forall j :: 0 <= j < n ==> now[j] == before[j];
  }

  lemma ApartPrefix(a: Atlas, placements: seq<Placement>, n: nat)
    requires SlotsExist(a, placements) && n <= |placements| && NoOverlap(a, placements)
    ensures NoOverlap(a, placements[..n])
  {
    var before := placements[..n];
    assert forall j :: 0 <= j < n ==> placements[j] == before[j];
  }

  lemma NoBits(bits: seq<bv8>, width: nat, height: nat)
    requires Large(bits, width, height) && forall i :: 0 <= i < |bits| ==> bits[i] == 0
    ensures Shows(bits, width, height, [])
  {
    forall px, py | 0 <= px < width && 0 <= py < height ensures !BitAt(bits, width, height, px, py) {
      PixelInside(width, height, px, py);
      assert bits[Pixel(width, px, py) / 8] == 0;
    }
  }

  // A new bitmap with the two reserved squares of a sheet marked.
  method NewBitmap(width: nat, height: nat) returns (ok: bool, bits: array<bv8>)
    ensures fresh(bits) && (ok <==> width >= 7 && height >= 3)
    ensures ok ==> Shows(bits[..], width, height, [WHITE, PLACEHOLDER])
  {
    hide Shows, Clear;
    bits := new bv8[(width * height + 7) / 8](i => 0);
    NoBits(bits[..], width, height);
    NothingInTheWay(WHITE);
    NothingInTheWay(PLACEHOLDER);
    ok := MarkOccupied(bits, width, height, WHITE, []);
    if ok {
      assert [] + [WHITE] == [WHITE] && [WHITE] + [PLACEHOLDER] == [WHITE, PLACEHOLDER];
      ok := MarkOccupied(bits, width, height, PLACEHOLDER, [WHITE]);
    }
  }

  lemma NothingInTheWay(r: Rect)
    ensures Clear([], r) && Clear([WHITE], PLACEHOLDER)
  {}

  ghost predicate Maps(a: Atlas, plan: Plan, occupied: seq<array?<bv8>>, n: nat)
    requires n <= |plan.placements| && SlotsExist(a, plan.placements)
    reads occupied
  {
    && |occupied| == |plan.pages|
    && (forall k :: 0 <= k < |occupied| && Target(plan.placements, k) ==> MapOf(a, plan, occupied[k], k, n))
  }

  ghost predicate MapOf(a: Atlas, plan: Plan, bits: array?<bv8>, k: nat, n: nat)
    requires n <= |plan.placements| && k < |plan.pages| && SlotsExist(a, plan.placements)
    reads bits
  {
    bits != null && Shows(bits[..], plan.pages[k].width, plan.pages[k].height, RectsOn(a, plan.placements[..n], k))
  }

  ghost predicate Separate(occupied: seq<array?<bv8>>) {
    forall j, k :: 0 <= j < k < |occupied| && occupied[j] != null ==> occupied[j] != occupied[k]
  }

  lemma TargetIsTall(a: Atlas, plan: Plan, k: nat)
    requires PlacementsOk(a, plan) && k < |plan.pages| && Target(plan.placements, k)
    ensures plan.pages[k].height >= 3
  {
    var j :| 0 <= j < |plan.placements| && plan.placements[j].page == k;
    assert PlacementOk(a, plan.pages, plan.placements[j]);
  }

  lemma PlacementsExist(a: Atlas, plan: Plan)
    requires PlacementsOk(a, plan)
    ensures SlotsExist(a, plan.placements)
  {
    hide Eligible;
    forall k | 0 <= k < |plan.placements|
      ensures 0 <= plan.placements[k].slot < |a.sprites| && a.sprites[plan.placements[k].slot].w > 0 &&
                a.sprites[plan.placements[k].slot].h > 0
    {
      assert PlacementOk(a, plan.pages, plan.placements[k]);
    }
  }

  method NewBitmaps(a: Atlas, plan: Plan, used: array<bool>) returns (ok: bool, occupied: seq<array?<bv8>>)
    requires PlacementsOk(a, plan) && SlotsExist(a, plan.placements)
    requires used.Length == |plan.pages| && ShowsTargets(used[..], plan.placements)
    ensures ok <==> WideEnough(plan)
    ensures ok ==> Maps(a, plan, occupied, 0) && Separate(occupied)
    ensures forall k :: 0 <= k < |occupied| && occupied[k] != null ==> fresh(occupied[k])
  {
    hide PlacementsOk, Shows, Target;
    occupied := [];
    for k := 0 to |plan.pages|
      invariant |occupied| == k && Separate(occupied)
      invariant forall j :: 0 <= j < k && occupied[j] != null ==> fresh(occupied[j])
      invariant forall j :: 0 <= j < k && Target(plan.placements, j) ==>
                  plan.pages[j].width >= 7 && MapOf(a, plan, occupied[j], j, 0)
    {
      if !used[k] {
        occupied := occupied + [null];
        continue;
      }
      TargetIsTall(a, plan, k);
      var fits, bits := NewBitmap(plan.pages[k].width, plan.pages[k].height);
      if !fits { return false, occupied; }
      occupied := occupied + [bits];
    }
    ok := true;
  }

  method MarkPlacements(a: Atlas, plan: Plan, occupied: seq<array?<bv8>>) returns (ok: bool)
    requires PlacementsOk(a, plan) && SlotsExist(a, plan.placements)
    requires Maps(a, plan, occupied, 0) && Separate(occupied)
    modifies occupied
    ensures ok <==> NoOverlap(a, plan.placements)
  {
    hide PlacementOk, Shows, Target, NoOverlap, Clear, RectsOn, Padded;
    NoneApart(a, plan.placements);
    for n := 0 to |plan.placements|
      invariant Maps(a, plan, occupied, n) && NoOverlap(a, plan.placements[..n])
    {
      var p := plan.placements[n];
      var r := Padded(a.sprites[p.slot], p);
      PlacedOnPage(a, plan, n);
      PrefixesExist(a, plan.placements, n);
      NextRect(a, plan.placements, n);
      ghost var rects := RectsOn(a, plan.placements[..n], p.page);
      var fits := MarkOccupied(occupied[p.page], plan.pages[p.page].width, plan.pages[p.page].height, r, rects);
      if !fits { return false; }
    }
    assert plan.placements[..|plan.placements|] == plan.placements;
    ok := true;
  }

  lemma NoneApart(a: Atlas, placements: seq<Placement>)
    requires SlotsExist(a, placements)
    ensures NoOverlap(a, placements[..0])
  {}

  // Placement n is on a page with a bitmap and fits it.
  lemma PlacedOnPage(a: Atlas, plan: Plan, n: nat)
    requires PlacementsOk(a, plan) && n < |plan.placements|
    ensures var p := plan.placements[n];
            && 0 <= p.slot < |a.sprites| && p.page < |plan.pages| && Target(plan.placements, p.page) && p.y >= 7
            && var r := Padded(a.sprites[p.slot], p);
            && r.w >= 0 && r.h >= 0 && FitsPage(r, plan.pages[p.page].width, plan.pages[p.page].height)
  {
    var p := plan.placements[n];
    assert PlacementOk(a, plan.pages, p) && Target(plan.placements, p.page);
  }

  lemma PrefixesExist(a: Atlas, placements: seq<Placement>, n: nat)
    requires SlotsExist(a, placements) && n < |placements|
    ensures SlotsExist(a, placements[..n]) && SlotsExist(a, placements[..n + 1])
  {}

  // Placement n is checked against what came before, and then its page holds it too.
  lemma NextRect(a: Atlas, placements: seq<Placement>, n: nat)
    requires SlotsExist(a, placements) && n < |placements| && placements[n].y >= 7
    requires SlotsExist(a, placements[..n]) && SlotsExist(a, placements[..n + 1])
    ensures var p := placements[n];
            var r, rects := Padded(a.sprites[p.slot], p), RectsOn(a, placements[..n], p.page);
            NoOverlap(a, placements[..n]) ==> (Clear(rects, r) <==> NoOverlap(a, placements[..n + 1]))
    ensures !NoOverlap(a, placements[..n + 1]) ==> !NoOverlap(a, placements)
    ensures var p := placements[n];
            forall k: nat :: RectsOn(a, placements[..n + 1], k) ==
                             if k == p.page then RectsOn(a, placements[..n], k) + [Padded(a.sprites[p.slot], p)]
                               else RectsOn(a, placements[..n], k)
  {
    hide NoOverlap, Clear;
    var p := placements[n];
    ClearOfRects(a, placements[..n], p.page, Padded(a.sprites[p.slot], p));
    ApartNext(a, placements, n);
    if NoOverlap(a, placements) { ApartPrefix(a, placements, n + 1); }
    assert placements[..n + 1][..n] == placements[..n];
    forall k: nat ensures RectsOn(a, placements[..n], k) + [] == RectsOn(a, placements[..n], k) {}
  }

  method CheckApart(a: Atlas, plan: Plan, used: array<bool>) returns (ok: bool)
    requires PlacementsOk(a, plan) && used.Length == |plan.pages| && ShowsTargets(used[..], plan.placements)
    ensures ok <==> WideEnough(plan) && SlotsExist(a, plan.placements) && NoOverlap(a, plan.placements)
  {
    PlacementsExist(a, plan);
    hide PlacementsOk, WideEnough, NoOverlap, Maps;
    var occupied;
    ok, occupied := NewBitmaps(a, plan, used);
    if ok { ok := MarkPlacements(a, plan, occupied); }
  }

  /** All the checks of staging together: they pass exactly for a plan that is sound for the atlas. */
  method CheckPlan(a: Atlas, plan: Plan) returns (ok: bool, selected: seq<bool>, used: seq<bool>)
    ensures ok <==> PlanOk(a, plan)
    ensures ok ==> |selected| == |a.sheets| && forall i :: 0 <= i < |selected| ==>
              (selected[i] <==> Selected(a, plan, i))
    ensures ok ==> |used| == |plan.pages| && ShowsTargets(used, plan.placements)
  {
    hide PagesOk, PlacementsOk, Closed, WideEnough, NoOverlap, Rebuilt, Vacated, FlagsRight, ShowsRebuilt, ShowsTargets;
    selected, used := [], [];
    var flags := SheetFlags(a);
    var selectedMap;
    ok, selectedMap := CheckPages(a, plan.pages, flags);
    if !ok { return; }
    var seen, usedMap;
    ok, seen, usedMap := CheckPlacements(a, plan, flags, selectedMap);
    if !ok { return; }
    ok := CheckClosed(a, plan, flags, selectedMap, seen, usedMap[..]);
    if !ok { return; }
    PlacementsExist(a, plan);
    ok := CheckApart(a, plan, usedMap);
    selected, used := selectedMap[..], usedMap[..];
  }

  // ---------- Building the new sheets ----------

  // The sheet for page k, made with the given texture, after n uploads.
  ghost predicate Building(plan: Plan, k: nat, n: nat, sheet: Sheet, texture: nat)
    requires k < |plan.pages| && n <= |plan.placements|
  {
    var p := plan.pages[k];
    if Target(plan.placements, k) then
      && sheet.texture == texture && sheet.live == CountOn(plan.placements[..n], k)
      && sheet.(texture := 0, live := 0) == Sheet(0, p.width, p.height, p.group, false, false, 0)
    else sheet == NO_SHEET
  }

  ghost predicate BuildingAll(plan: Plan, n: nat, sheets: seq<Sheet>, textures: seq<nat>)
    requires n <= |plan.placements| && |textures| == |plan.pages|
  {
    && (forall k :: 0 <= k < |plan.pages| ==>
          && plan.pages[k].source < |sheets| && Building(plan, k, n, sheets[plan.pages[k].source], textures[k]))
    && (forall i :: 0 <= i < |sheets| && !Rebuilt(plan.pages, i) ==> sheets[i] == NO_SHEET)
  }

  method NewSheets(plan: Plan, count: nat, used: seq<bool>, textures: seq<nat>) returns (sheets: seq<Sheet>)
    requires DistinctSources(plan.pages) && forall k :: 0 <= k < |plan.pages| ==> plan.pages[k].source < count
    requires |used| == |plan.pages| && ShowsTargets(used, plan.placements)
    requires |textures| == |plan.pages| && forall k :: 0 <= k < |textures| ==> textures[k] != 0
    ensures |sheets| == count && BuildingAll(plan, 0, sheets, textures)
  {
    hide Target;
    sheets := seq(count, i => NO_SHEET);
    for k := 0 to |plan.pages|
      invariant |sheets| == count
      invariant forall j :: 0 <= j < k ==> Building(plan, j, 0, sheets[plan.pages[j].source], textures[j])
      invariant forall j :: k <= j < |plan.pages| ==> sheets[plan.pages[j].source] == NO_SHEET
      invariant forall i :: 0 <= i < count && !Rebuilt(plan.pages, i) ==> sheets[i] == NO_SHEET
    {
      if !used[k] { continue; }
      var p := plan.pages[k];
      sheets := sheets[p.source := Sheet(textures[k], p.width, p.height, p.group, false, false, 0)];
    }
  }

  method UploadAll(plan: Plan, built: seq<Sheet>, ghost textures: seq<nat>) returns (sheets: seq<Sheet>)
    requires |textures| == |plan.pages| && DistinctSources(plan.pages) && BuildingAll(plan, 0, built, textures)
    requires forall j :: 0 <= j < |plan.placements| ==> plan.placements[j].page < |plan.pages|
    ensures |sheets| == |built| && BuildingAll(plan, |plan.placements|, sheets, textures)
  {
    hide BuildingAll;
    sheets := built;
    for n := 0 to |plan.placements|
      invariant |sheets| == |built| && BuildingAll(plan, n, sheets, textures)
    {
      UploadOne(plan, n, sheets, textures);
      var source := plan.pages[plan.placements[n].page].source;
      sheets := sheets[source := sheets[source].(live := sheets[source].live + 1)];
    }
  }

  lemma UploadOne(plan: Plan, n: nat, sheets: seq<Sheet>, textures: seq<nat>)
    requires DistinctSources(plan.pages) && n < |plan.placements| && plan.placements[n].page < |plan.pages|
    requires |textures| == |plan.pages| && BuildingAll(plan, n, sheets, textures)
    ensures var source := plan.pages[plan.placements[n].page].source;
            source < |sheets| &&
            BuildingAll(plan, n + 1, sheets[source := sheets[source].(live := sheets[source].live + 1)], textures)
  {
    var page := plan.placements[n].page;
    var source := plan.pages[page].source;
    assert Target(plan.placements, page);
    hide Target;
    var now := sheets[source := sheets[source].(live := sheets[source].live + 1)];
    assert plan.placements[..n + 1][..n] == plan.placements[..n];
    forall k | 0 <= k < |plan.pages| ensures Building(plan, k, n + 1, now[plan.pages[k].source], textures[k]) {
      assert Building(plan, k, n, sheets[plan.pages[k].source], textures[k]);
      if k != page { assert plan.pages[k].source != source; }
    }
    assert Rebuilt(plan.pages, source);
  }

  // ---------- The planner ----------

  // The textures the host made are carried by no sprite.
  predicate NewTextures(sprites: seq<Sprite>, textures: seq<nat>) {
    forall e, x :: e in sprites && x in textures ==> e.texture != x
  }

  // The sheet built for a page with sprites carries the texture made for that page.
  ghost predicate OwnTextures(s: Staged, textures: seq<nat>)
    requires |textures| == |s.plan.pages|
  {
    forall k :: 0 <= k < |s.plan.pages| && Target(s.plan.placements, k) ==>
      s.plan.pages[k].source < |s.sheets| && s.sheets[s.plan.pages[k].source].texture == textures[k]
  }

  class Planner {
    var sheets: seq<Sheet>
    var sprites: seq<Sprite>
    var fallback: int
    var staged: Option<Staged>

    ghost predicate Valid()
      reads this`staged
    {
      staged.Some? ==> StagedOk(staged.value)
    }

    function Snapshot(): Atlas
      reads this`sheets, this`sprites, this`fallback
    {
      Atlas(sheets, sprites, fallback)
    }

    constructor (atlas: Atlas)
      ensures Valid() && Snapshot() == atlas && staged == None
    {
      sheets, sprites, fallback, staged := atlas.sheets, atlas.sprites, atlas.fallback, None;
    }

    /** stasis_gfx_sprite_atlas_stage_plan_v1. */
    method Stage(token: Atlas, plan: Plan, hostOk: bool, textures: seq<nat>) returns (ok: bool)
      requires |textures| == |plan.pages| && forall k :: 0 <= k < |textures| ==> textures[k] != 0
      modifies this`staged
      ensures Valid()
      ensures ok <==>
              && token == Snapshot() && sprites != [] && 0 < |plan.pages| <= 256
              && |plan.placements| <= 65536 && PlanOk(token, plan) && hostOk
      ensures ok ==> staged.Some? && staged.value.token == token && staged.value.plan == plan
      ensures ok ==> OwnTextures(staged.value, textures)
      ensures ok && NewTextures(sprites, textures) ==> FreshTextures(staged.value)
      ensures !ok ==> staged == None
    {
      hide PlanOk, Selected, ShowsTargets, StagedOk, BuildingAll, OwnTextures;
      staged := None;
      if token != Snapshot() || sprites == [] || plan.pages == [] || |plan.pages| > MAX_PAGES ||
        |plan.placements| > MAX_SPRITES {
        return false;
      }
      var selected, used;
      ok, selected, used := CheckPlan(token, plan);
      if !ok { return; }
      PlanShape(token, plan);
      var built := NewSheets(plan, |sheets|, used, textures);
      built := UploadAll(plan, built, textures);
      if !hostOk { return false; }
      StagedIsOk(token, plan, selected, built, textures);
      staged := Some(Staged(token, plan, selected, built));
      return true;
    }

    /** stasis_gfx_sprite_atlas_commit_plan_v1: it happens exactly when the atlas is still the one the
        plan was staged for, and otherwise changes nothing. */
    method Commit(token: Atlas) returns (ok: bool)
      requires Valid()
      modifies this`sheets, this`sprites, this`staged
      ensures Valid() && staged == None
      ensures ok <==> old(staged.Some? && token == staged.value.token && token == Snapshot())
      ensures ok ==> Snapshot() == old(Committed(staged.value))
      ensures ok ==> KeepsResidents(old(Snapshot()), Snapshot())
      ensures ok && old(FreshTextures(staged.value)) ==> RebuiltSound(Snapshot(), old(staged.value.plan))
      ensures !ok ==> Snapshot() == old(Snapshot())
    {
      hide StagedOk, Trimmed, KeepsResidents, RebuiltSound, FreshTextures;
      if staged.None? || token != staged.value.token || token != Snapshot() {
        staged := None;
        return false;
      }
      ghost var s := staged.value;
      StagedShape(s);
      PlanIsMovable(s);
      CommitIsSound(s);
      var plan := staged.value.plan;
      SwapSheets();
      MoveSprites();
      while |sheets| > 0 && sheets[|sheets| - 1].texture == 0
        invariant Trimmed(sheets) == Trimmed(Swapped(s)) && sprites == Moved(s, Swapped(s), |plan.placements|)
        decreases |sheets|
      {
        TrimOne(sheets);
        sheets := sheets[..|sheets| - 1];
      }
      TrimOne(sheets);
      staged := None;
      return true;
    }

    // Retires the selected sheets and puts the new ones in their place.
    method SwapSheets()
      requires staged.Some? && StagedOk(staged.value) && sheets == staged.value.token.sheets
      modifies this`sheets
      ensures sheets == Swapped(staged.value)
    {
      ghost var s := staged.value;
      StagedShape(s);
      hide StagedOk;
      for i := 0 to |sheets|
        invariant |sheets| == |s.sheets|
        invariant forall j :: 0 <= j < |sheets| ==>
                    sheets[j] == if j < i && s.selected[j] then NO_SHEET else s.token.sheets[j]
      {
        if !staged.value.selected[i] { continue; }
        sheets := sheets[i := NO_SHEET];
      }
      ghost var retired := sheets;
      var pages := staged.value.plan.pages;
      for k := 0 to |pages|
        invariant |sheets| == |s.sheets|
        invariant forall j :: 0 <= j < |sheets| ==>
                    sheets[j] == if Rebuilt(pages[..k], j) && s.sheets[j].texture != 0 then s.sheets[j] else retired[j]
      {
        var source := pages[k].source;
        RebuiltNext(pages, k);
        if staged.value.sheets[source].texture == 0 { continue; }
        sheets := sheets[source := staged.value.sheets[source]];
      }
      assert pages[..|pages|] == pages;
      assert forall j :: 0 <= j < |sheets| ==> sheets[j] == SwappedSheet(s, j);
    }

    method MoveSprites()
      requires staged.Some? && StagedOk(staged.value) && sheets == Swapped(staged.value) &&
                 sprites == staged.value.token.sprites
      modifies this`sprites
      ensures sprites == Moved(staged.value, Swapped(staged.value), |staged.value.plan.placements|)
    {
      hide StagedOk, Moved, Swapped, Movable;
      ghost var s := staged.value;
      StagedShape(s);
      PlanIsMovable(s);
      ghost var swapped := Swapped(s);
      MovedNone(s, swapped);
      var plan := staged.value.plan;
      for n := 0 to |plan.placements|
        invariant sprites == Moved(s, swapped, n)
      {
        var p := plan.placements[n];
        MovedNext(s, swapped, n);
        var source := plan.pages[p.page].source;
        var e := sprites[p.slot];
        sprites := sprites[p.slot := e.(sheet := source, x := p.x, y := p.y,
          alloc := Rect(p.x - 1, p.y - 1, e.w + 2, e.h + 2), texture := sheets[source].texture)];
      }
    }
  }

  lemma MovedNone(s: Staged, sheets: seq<Sheet>)
    requires Movable(s, sheets)
    ensures forall n :: 0 <= n < |s.plan.placements| ==>
              0 <= s.plan.placements[n].slot < |s.token.sprites| && s.plan.placements[n].page < |s.plan.pages|
    ensures forall k :: 0 <= k < |s.plan.pages| ==> s.plan.pages[k].source < |sheets|
    ensures Moved(s, sheets, 0) == s.token.sprites
  {}

  lemma MovedNext(s: Staged, sheets: seq<Sheet>, n: nat)
    requires Movable(s, sheets) && n < |s.plan.placements|
    ensures var before, p := Moved(s, sheets, n), s.plan.placements[n];
            var source := s.plan.pages[p.page].source;
            Moved(s, sheets, n + 1) == before[p.slot := Move(before[p.slot], p, source, sheets[source].texture)]
  {}

  lemma TrimOne(sheets: seq<Sheet>)
    ensures sheets != [] && sheets[|sheets| - 1].texture == 0 ==> Trimmed(sheets) == Trimmed(sheets[..|sheets| - 1])
    ensures sheets == [] || sheets[|sheets| - 1].texture != 0 ==> Trimmed(sheets) == sheets
  {}

  lemma RebuiltNext(pages: seq<PlanPage>, k: nat)
    requires k < |pages|
    ensures forall i :: Rebuilt(pages[..k + 1], i) <==> Rebuilt(pages[..k], i) || pages[k].source == i
  {
    var now, before := pages[..k + 1], pages[..k];
    assert now[k] == pages[k] && forall j :: 0 <= j < k ==> now[j] == before[j];
    forall i | Rebuilt(before, i) ensures Rebuilt(now, i) {
      var j :| 0 <= j < |before| && before[j].source == i;
      assert now[j].source == i;
    }
  }

  // What committing needs to know of a staged plan.
  lemma StagedShape(s: Staged)
    requires StagedOk(s)
    ensures |s.selected| == |s.sheets| == |s.token.sheets|
    ensures forall k :: 0 <= k < |s.plan.pages| ==>
              s.plan.pages[k].source < |s.sheets| && s.selected[s.plan.pages[k].source]
    ensures forall i :: 0 <= i < |s.sheets| && !Rebuilt(s.plan.pages, i) ==> s.sheets[i] == NO_SHEET
    ensures forall i :: 0 <= i < |s.sheets| && s.sheets[i].texture == 0 ==> s.sheets[i] == NO_SHEET
  {
    hide Eligible, Closed, NoOverlap, WideEnough;
    forall k | 0 <= k < |s.plan.pages|
      ensures s.plan.pages[k].source < |s.sheets| && s.selected[s.plan.pages[k].source] {
      assert PageOk(s.token, s.plan.pages[k]) && Rebuilt(s.plan.pages, s.plan.pages[k].source);
    }
    forall i | 0 <= i < |s.sheets| && s.sheets[i].texture == 0 ensures s.sheets[i] == NO_SHEET {
      if Rebuilt(s.plan.pages, i) {
        var k :| 0 <= k < |s.plan.pages| && s.plan.pages[k].source == i;
        assert NewSheet(s.plan, k, s.sheets[s.plan.pages[k].source]);
      }
    }
  }

  lemma PlanShape(a: Atlas, plan: Plan)
    requires PlanOk(a, plan)
    ensures DistinctSources(plan.pages) && forall k :: 0 <= k < |plan.pages| ==> plan.pages[k].source < |a.sheets|
    ensures forall j :: 0 <= j < |plan.placements| ==> plan.placements[j].page < |plan.pages|
  {
    hide Eligible, Closed, NoOverlap, WideEnough;
    assert forall k :: 0 <= k < |plan.pages| ==> PageOk(a, plan.pages[k]);
    assert forall j :: 0 <= j < |plan.placements| ==> PlacementOk(a, plan.pages, plan.placements[j]);
  }

  lemma StagedIsOk(a: Atlas, plan: Plan, selected: seq<bool>, built: seq<Sheet>, textures: seq<nat>)
    requires PlanOk(a, plan) && plan.pages != [] && |selected| == |a.sheets| == |built|
    requires forall i :: 0 <= i < |selected| ==> (selected[i] <==> Selected(a, plan, i))
    requires |textures| == |plan.pages| && forall k :: 0 <= k < |textures| ==> textures[k] != 0
    requires BuildingAll(plan, |plan.placements|, built, textures)
    ensures StagedOk(Staged(a, plan, selected, built))
    ensures NewTextures(a.sprites, textures) ==> FreshTextures(Staged(a, plan, selected, built))
    ensures OwnTextures(Staged(a, plan, selected, built), textures)
  {
    hide PlanOk, Selected, Target;
    assert plan.placements[..|plan.placements|] == plan.placements;
    PlanShape(a, plan);
    forall k | 0 <= k < |plan.pages|
      ensures NewSheet(plan, k, built[plan.pages[k].source])
      ensures Target(plan.placements, k) ==> built[plan.pages[k].source].texture == textures[k]
    {
      assert Building(plan, k, |plan.placements|, built[plan.pages[k].source], textures[k]);
    }
    forall i | 0 <= i < |built| && built[i].texture != 0 ensures built[i].texture in textures {
      assert Rebuilt(plan.pages, i);
      var k :| 0 <= k < |plan.pages| && plan.pages[k].source == i;
      assert Building(plan, k, |plan.placements|, built[plan.pages[k].source], textures[k]);
    }
  }
}
