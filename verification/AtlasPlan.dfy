/**
  Two-phase re-layout of the sprite atlas (runtime/stasis_graphics.c): a plan names pages to rebuild
  and where every sprite goes; staging checks it and builds the new pages beside the old ones, and
  committing swaps them in, or leaves everything alone if anything changed in between.

  The snapshot token is taken as exact identity of the atlas. Texture creation, uploads, memory
  limits and source files changing on disk are one host answer, given as a flag.
*/
module AtlasPlan {
  import opened AtlasPage
  import opened OccupancyBitmap

  const MAX_PAGES: nat := 256
  const MAX_SPRITES: nat := 65536

  // ---------- The atlas ----------

  datatype Sheet = Sheet(texture: nat, width: nat, height: nat, group: nat, dedicated: bool, isSealed: bool, live: nat)
  const NO_SHEET := Sheet(0, 0, 0, 0, false, false, 0)

  datatype Sprite = Sprite(
    used: bool, current: bool, texture: nat, w: int, h: int, sheet: int, x: int, y: int, alloc: Rect,
    group: nat, eligible: bool, pathHashed: bool, rasterHashed: bool, stale: bool)

  // `fallback` is the sheet the fallback sprite lives on, or -1.
  datatype Atlas = Atlas(sheets: seq<Sheet>, sprites: seq<Sprite>, fallback: int)

  predicate Tied(a: Atlas, e: Sprite, i: int)
    requires 0 <= i < |a.sheets|
  {
    e.used && e.current && e.sheet == i && e.texture == a.sheets[i].texture
  }

  predicate Resident(a: Atlas, e: Sprite) {
    0 <= e.sheet < |a.sheets| && Tied(a, e, e.sheet) && e.texture != 0 && e.w > 0 && e.h > 0
  }

  predicate Ready(e: Sprite, group: nat) {
    e.eligible && e.group != 0 && e.group == group && e.pathHashed && !e.stale
  }

  // A sheet that planning may touch.
  ghost predicate Eligible(a: Atlas, i: int)
    requires 0 <= i < |a.sheets|
  {
    var sheet := a.sheets[i];
    && sheet.texture != 0 && sheet.group != 0 && !sheet.dedicated && !sheet.isSealed && a.fallback != i
    && (exists s :: 0 <= s < |a.sprites| && Tied(a, a.sprites[s], i))
    && (forall s :: 0 <= s < |a.sprites| && Tied(a, a.sprites[s], i) ==> Ready(a.sprites[s], sheet.group))
  }

  // ---------- Plans ----------

  datatype PlanPage = PlanPage(
    source: nat, width: nat, height: nat, group: nat, markedEligible: bool, markedBlocked: bool, compatible: bool,
    usableX: nat, usableY: nat, padding: nat, headerHeight: nat, bytes: nat)

  // `slot` is -1 when the handle names no live sprite.
  datatype Placement = Placement(slot: int, page: nat, x: nat, y: nat)

  datatype Plan = Plan(pages: seq<PlanPage>, placements: seq<Placement>)

  ghost predicate PageOk(a: Atlas, p: PlanPage) {
    && p.source < |a.sheets| && Eligible(a, p.source)
    && p.markedEligible && !p.markedBlocked && p.compatible
    && p.width == a.sheets[p.source].width && p.height == a.sheets[p.source].height
    && p.usableX == 1 && p.usableY == 6 && p.padding == 1 && p.headerHeight == 6
    && p.group != 0 && p.group == a.sheets[p.source].group
    && p.bytes == a.sheets[p.source].width * a.sheets[p.source].height * 4
  }

  // The sprite with one texel of padding on every side.
  function Padded(e: Sprite, p: Placement): Rect { Rect(p.x - 1, p.y - 1, e.w + 2, e.h + 2) }

  ghost predicate PlacementOk(a: Atlas, pages: seq<PlanPage>, p: Placement) {
    && 0 <= p.slot < |a.sprites| && p.page < |pages|
    && var e, target := a.sprites[p.slot], pages[p.page];
    && Resident(a, e) && e.rasterHashed && Ready(e, target.group) && Eligible(a, e.sheet)
    && p.x >= 2 && p.y >= 7 && FitsPage(Padded(e, p), target.width, target.height)
  }

  ghost predicate DistinctSources(pages: seq<PlanPage>) {
    forall j, k :: 0 <= j < k < |pages| ==> pages[j].source != pages[k].source
  }

  ghost predicate DistinctSlots(placements: seq<Placement>) {
    forall j, k :: 0 <= j < k < |placements| ==> placements[j].slot != placements[k].slot
  }

  ghost predicate HasPlacement(placements: seq<Placement>, s: int) {
    exists k :: 0 <= k < |placements| && placements[k].slot == s
  }

  ghost predicate Target(placements: seq<Placement>, k: int) {
    exists j :: 0 <= j < |placements| && placements[j].page == k
  }

  ghost predicate Rebuilt(pages: seq<PlanPage>, i: int) {
    exists k :: 0 <= k < |pages| && pages[k].source == i
  }

  ghost predicate Vacated(a: Atlas, placements: seq<Placement>, i: int) {
    exists k :: 0 <= k < |placements| && 0 <= placements[k].slot < |a.sprites| &&
      a.sprites[placements[k].slot].sheet == i
  }

  // The sheets a plan replaces: those it names and those it takes sprites from.
  ghost predicate Selected(a: Atlas, plan: Plan, i: int) {
    Rebuilt(plan.pages, i) || Vacated(a, plan.placements, i)
  }

  ghost predicate SheetClosed(a: Atlas, placements: seq<Placement>, i: int)
    requires 0 <= i < |a.sheets|
  {
    && Eligible(a, i)
    && (exists s :: 0 <= s < |a.sprites| && Resident(a, a.sprites[s]) && a.sprites[s].sheet == i)
    && (forall s :: 0 <= s < |a.sprites| && Resident(a, a.sprites[s]) && a.sprites[s].sheet == i ==>
         HasPlacement(placements, s))
  }

  ghost predicate Closed(a: Atlas, plan: Plan) {
    forall i :: 0 <= i < |a.sheets| && Selected(a, plan, i) ==> SheetClosed(a, plan.placements, i)
  }

  ghost predicate NoOverlap(a: Atlas, placements: seq<Placement>)
    requires forall k :: 0 <= k < |placements| ==> 0 <= placements[k].slot < |a.sprites|
  {
    forall j, k :: 0 <= j < k < |placements| && placements[j].page == placements[k].page ==>
      Disjoint(Padded(a.sprites[placements[j].slot], placements[j]),
        Padded(a.sprites[placements[k].slot], placements[k]))
  }

  ghost predicate PagesOk(a: Atlas, pages: seq<PlanPage>) {
    (forall k :: 0 <= k < |pages| ==> PageOk(a, pages[k])) && DistinctSources(pages)
  }

  ghost predicate PlacementsOk(a: Atlas, plan: Plan) {
    && (forall k :: 0 <= k < |plan.placements| ==> PlacementOk(a, plan.pages, plan.placements[k]))
    && DistinctSlots(plan.placements)
  }

  // The white and placeholder squares of a rebuilt sheet need seven columns.
  ghost predicate WideEnough(plan: Plan) {
    forall k :: 0 <= k < |plan.pages| && Target(plan.placements, k) ==> plan.pages[k].width >= 7
  }

  ghost predicate PlanOk(a: Atlas, plan: Plan) {
    PagesOk(a, plan.pages) && PlacementsOk(a, plan) && Closed(a, plan) && WideEnough(plan) &&
      NoOverlap(a, plan.placements)
  }

  // ---------- What a commit makes of an atlas ----------

  function CountOn(placements: seq<Placement>, k: nat): nat {
    if placements == [] then 0
    else CountOn(placements[..|placements| - 1], k) + if placements[|placements| - 1].page == k then 1 else 0
  }

  // A checked plan with the sheets built for it, by the index of the sheet they replace.
  datatype Staged = Staged(token: Atlas, plan: Plan, selected: seq<bool>, sheets: seq<Sheet>)

  ghost predicate NewSheet(plan: Plan, k: int, sheet: Sheet)
    requires 0 <= k < |plan.pages|
  {
    var p := plan.pages[k];
    if Target(plan.placements, k) then
      && sheet.texture != 0 && sheet.live == CountOn(plan.placements, k)
      && sheet.(texture := 0, live := 0) == Sheet(0, p.width, p.height, p.group, false, false, 0)
    else sheet == NO_SHEET
  }

  ghost predicate StagedOk(s: Staged) {
    && PlanOk(s.token, s.plan) && s.plan.pages != []
    && |s.selected| == |s.sheets| == |s.token.sheets|
    && (forall i :: 0 <= i < |s.selected| ==> (s.selected[i] <==> Selected(s.token, s.plan, i)))
    && (forall k :: 0 <= k < |s.plan.pages| ==> NewSheet(s.plan, k, s.sheets[s.plan.pages[k].source]))
    && (forall i :: 0 <= i < |s.sheets| && !Rebuilt(s.plan.pages, i) ==> s.sheets[i] == NO_SHEET)
  }

  function SwappedSheet(s: Staged, i: nat): Sheet
    requires |s.selected| == |s.sheets| == |s.token.sheets| && i < |s.sheets|
  {
    if s.selected[i] then s.sheets[i] else s.token.sheets[i]
  }

  function Swapped(s: Staged): (sheets: seq<Sheet>)
    requires |s.selected| == |s.sheets| == |s.token.sheets|
    ensures |sheets| == |s.sheets|
  {
    seq(|s.sheets|, i requires 0 <= i < |s.sheets| => SwappedSheet(s, i))
  }

  function Move(e: Sprite, p: Placement, source: nat, texture: nat): Sprite {
    e.(sheet := source, x := p.x, y := p.y, alloc := Padded(e, p), texture := texture)
  }

  // The sprites after the first n placements.
  function Moved(s: Staged, sheets: seq<Sheet>, n: nat): (sprites: seq<Sprite>)
    requires n <= |s.plan.placements|
    requires forall k :: 0 <= k < n ==>
               0 <= s.plan.placements[k].slot < |s.token.sprites| && s.plan.placements[k].page < |s.plan.pages|
    requires forall k :: 0 <= k < |s.plan.pages| ==> s.plan.pages[k].source < |sheets|
    ensures |sprites| == |s.token.sprites|
  {
    if n == 0 then s.token.sprites
    else
      var before, p := Moved(s, sheets, n - 1), s.plan.placements[n - 1];
      var source := s.plan.pages[p.page].source;
      before[p.slot := Move(before[p.slot], p, source, sheets[source].texture)]
  }

  function Trimmed(sheets: seq<Sheet>): seq<Sheet> {
    if sheets != [] && sheets[|sheets| - 1].texture == 0 then Trimmed(sheets[..|sheets| - 1]) else sheets
  }

  ghost function Committed(s: Staged): Atlas
    requires StagedOk(s)
  {
    Atlas(Trimmed(Swapped(s)), Moved(s, Swapped(s), |s.plan.placements|), s.token.fallback)
  }

  lemma {:induction false} TrimmedKeeps(sheets: seq<Sheet>, i: nat)
    requires i < |sheets| && sheets[i].texture != 0
    ensures i < |Trimmed(sheets)| && Trimmed(sheets)[i] == sheets[i]
    decreases |sheets|
  {
    if sheets[|sheets| - 1].texture == 0 { TrimmedKeeps(sheets[..|sheets| - 1], i); }
  }

  /** Trimming drops the sheets without a texture at the end, all of them and no other. */
  lemma {:induction false} TrimmedIs(sheets: seq<Sheet>)
    ensures var t := Trimmed(sheets);
            && t <= sheets && (forall i :: |t| <= i < |sheets| ==> sheets[i].texture == 0)
            && (t != [] ==> t[|t| - 1].texture != 0)
  {
    if sheets != [] && sheets[|sheets| - 1].texture == 0 { TrimmedIs(sheets[..|sheets| - 1]); }
  }

  ghost predicate Movable(s: Staged, sheets: seq<Sheet>) {
    && (forall k :: 0 <= k < |s.plan.placements| ==>
          0 <= s.plan.placements[k].slot < |s.token.sprites| && s.plan.placements[k].page < |s.plan.pages|)
    && (forall k :: 0 <= k < |s.plan.pages| ==> s.plan.pages[k].source < |sheets|)
    && DistinctSlots(s.plan.placements)
  }

  lemma {:induction false} MovedSprite(s: Staged, sheets: seq<Sheet>, n: nat, k: nat)
    requires Movable(s, sheets) && k < n <= |s.plan.placements|
    ensures var p := s.plan.placements[k];
            var source := s.plan.pages[p.page].source;
            Moved(s, sheets, n)[p.slot] == Move(s.token.sprites[p.slot], p, source, sheets[source].texture)
  {
    if k < n - 1 {
      MovedSprite(s, sheets, n - 1, k);
    } else {
      UnmovedSprite(s, sheets, n - 1, s.plan.placements[k].slot);
    }
  }

  lemma {:induction false} UnmovedSprite(s: Staged, sheets: seq<Sheet>, n: nat, slot: nat)
    requires Movable(s, sheets) && n <= |s.plan.placements| && slot < |s.token.sprites|
    requires forall k :: 0 <= k < n ==> s.plan.placements[k].slot != slot
    ensures Moved(s, sheets, n)[slot] == s.token.sprites[slot]
  {
    if n > 0 { UnmovedSprite(s, sheets, n - 1, slot); }
  }

  lemma PlanIsMovable(s: Staged)
    requires StagedOk(s)
    ensures Movable(s, Swapped(s))
  {}

  // Where placement k puts its sprite.
  lemma PlacedSprite(s: Staged, k: nat)
    requires StagedOk(s) && k < |s.plan.placements|
    ensures var p, a := s.plan.placements[k], Committed(s);
            var source := s.plan.pages[p.page].source;
            && a.sprites[p.slot] == Move(s.token.sprites[p.slot], p, source, s.sheets[source].texture)
            && source < |a.sheets| && a.sheets[source] == s.sheets[source] && a.sheets[source].texture != 0
            && NewSheet(s.plan, p.page, s.sheets[source]) && Target(s.plan.placements, p.page)
            && Resident(a, a.sprites[p.slot])
  {
    hide Eligible, Closed, NoOverlap, WideEnough;
    var p := s.plan.placements[k];
    var source := s.plan.pages[p.page].source;
    PlanIsMovable(s);
    assert PlacementOk(s.token, s.plan.pages, p) && PageOk(s.token, s.plan.pages[p.page]);
    assert Target(s.plan.placements, p.page) && Rebuilt(s.plan.pages, source);
    assert Swapped(s)[source] == SwappedSheet(s, source) == s.sheets[source];
    TrimmedKeeps(Swapped(s), source);
    MovedSprite(s, Swapped(s), |s.plan.placements|, k);
  }

  lemma SelectedIsEligible(s: Staged, i: nat)
    requires StagedOk(s) && i < |s.token.sheets|
    ensures Selected(s.token, s.plan, i) ==> Eligible(s.token, i)
  {}

  lemma SelectedResidentIsPlaced(s: Staged, slot: nat)
    requires StagedOk(s) && slot < |s.token.sprites| && Resident(s.token, s.token.sprites[slot])
    ensures Selected(s.token, s.plan, s.token.sprites[slot].sheet) ==> HasPlacement(s.plan.placements, slot)
  {
    hide Eligible, NoOverlap, WideEnough;
  }

  /** Every sprite resident before the commit is resident after it. */
  lemma CommitKeepsResidents(s: Staged, slot: nat)
    requires StagedOk(s) && slot < |s.token.sprites| && Resident(s.token, s.token.sprites[slot])
    ensures Resident(Committed(s), Committed(s).sprites[slot])
  {
    hide Eligible, NoOverlap, WideEnough;
    if HasPlacement(s.plan.placements, slot) {
      var k :| 0 <= k < |s.plan.placements| && s.plan.placements[k].slot == slot;
      PlacedSprite(s, k);
    } else {
      var i := s.token.sprites[slot].sheet;
      SelectedResidentIsPlaced(s, slot);
      PlanIsMovable(s);
      UnmovedSprite(s, Swapped(s), |s.plan.placements|, slot);
      assert Swapped(s)[i] == SwappedSheet(s, i) == s.token.sheets[i];
      TrimmedKeeps(Swapped(s), i);
    }
  }

  /** A moved sprite is on a live sheet of its own group, at the place the plan gave it and with one
      texel of padding on every side; nothing else of it changes. */
  lemma MovedToOwnGroup(s: Staged, k: nat)
    requires StagedOk(s) && k < |s.plan.placements|
    ensures var p, a := s.plan.placements[k], Committed(s);
            var was, e := s.token.sprites[p.slot], a.sprites[p.slot];
            && Resident(a, e) && e.sheet == s.plan.pages[p.page].source && a.sheets[e.sheet].group == e.group
            && e == was.(sheet := e.sheet, x := p.x, y := p.y, texture := e.texture,
                         alloc := Rect(p.x - 1, p.y - 1, was.w + 2, was.h + 2))
            && Inside(PageArea(a.sheets[e.sheet]), e.alloc)
  {
    hide Eligible, Closed, NoOverlap, WideEnough;
    PlacedSprite(s, k);
    assert PlacementOk(s.token, s.plan.pages, s.plan.placements[k]);
  }

  // The usable area of a sheet as a layout with nothing in it.
  function PageArea(sheet: Sheet): Layout { Layout(sheet.width, sheet.height, FIRST_X, FIRST_Y, 0, {}, {}, {}, true) }

  /** Two sprites moved to one sheet have disjoint padded rectangles. */
  lemma MovedApart(s: Staged, j: nat, k: nat)
    requires StagedOk(s) && j < |s.plan.placements| && k < |s.plan.placements| && j != k
    ensures var a := Committed(s);
            var d, e := a.sprites[s.plan.placements[j].slot], a.sprites[s.plan.placements[k].slot];
            d.sheet == e.sheet ==> Disjoint(d.alloc, e.alloc)
  {
    hide Eligible, Closed, WideEnough;
    PlacedSprite(s, j);
    PlacedSprite(s, k);
    var p, q := s.plan.placements[j], s.plan.placements[k];
    assert PlacementOk(s.token, s.plan.pages, p) && PlacementOk(s.token, s.plan.pages, q);
    if p.page != q.page { assert s.plan.pages[p.page].source != s.plan.pages[q.page].source; }
  }

  // ---------- Counting ----------

  function SlotsOn(placements: seq<Placement>, k: nat): set<int> {
    set j | 0 <= j < |placements| && placements[j].page == k :: placements[j].slot
  }

  lemma SlotsAppend(placements: seq<Placement>, k: nat)
    requires placements != []
    ensures var n := |placements| - 1;
            SlotsOn(placements, k) ==
            SlotsOn(placements[..n], k) + if placements[n].page == k then {placements[n].slot} else {}
  {
    var n := |placements| - 1;
    var init := placements[..n];
    forall s ensures s in SlotsOn(placements, k) <==>
      s in SlotsOn(init, k) || (placements[n].page == k && placements[n].slot == s) {
      if s in SlotsOn(init, k) {
        var j :| 0 <= j < |init| && init[j].page == k && init[j].slot == s;
        assert placements[j].page == k && placements[j].slot == s;
      }
    }
  }

  lemma {:induction false} SlotsAreCounted(placements: seq<Placement>, k: nat)
    requires DistinctSlots(placements)
    ensures |SlotsOn(placements, k)| == CountOn(placements, k)
  {
    if placements != [] {
      var init, last := placements[..|placements| - 1], placements[|placements| - 1];
      SlotsAreCounted(init, k);
      SlotsAppend(placements, k);
      LastIsNew(placements, k);
    }
  }

  lemma LastIsNew(placements: seq<Placement>, k: nat)
    requires DistinctSlots(placements) && placements != []
    ensures placements[|placements| - 1].slot !in SlotsOn(placements[..|placements| - 1], k)
  {}

  function ResidentsOn(a: Atlas, i: int): set<int> {
    set s | 0 <= s < |a.sprites| && Resident(a, a.sprites[s]) && a.sprites[s].sheet == i
  }

  // A sprite that the new sheet k would adopt: it claims the sheet's place and carries its texture.
  predicate Adopted(s: Staged, k: nat, e: Sprite)
    requires k < |s.plan.pages| && s.plan.pages[k].source < |s.sheets|
  {
    var i := s.plan.pages[k].source;
    e.used && e.current && e.w > 0 && e.h > 0 && e.sheet == i && e.texture == s.sheets[i].texture
  }

  // No sprite outside the plan is adopted by sheet k.
  ghost predicate NoStrangers(s: Staged, k: nat)
    requires k < |s.plan.pages| && s.plan.pages[k].source < |s.sheets|
  {
    forall slot :: 0 <= slot < |s.token.sprites| && Adopted(s, k, s.token.sprites[slot]) ==>
      HasPlacement(s.plan.placements, slot)
  }

  // The plan's sprites are resident on their sheet, and any other one only if it is adopted.
  lemma ResidentOnRebuilt(s: Staged, k: nat, slot: int)
    requires StagedOk(s) && k < |s.plan.pages| && Target(s.plan.placements, k) && 0 <= slot < |s.token.sprites|
    ensures s.plan.pages[k].source < |s.sheets|
    ensures slot in ResidentsOn(Committed(s), s.plan.pages[k].source) <==>
            || slot in SlotsOn(s.plan.placements, k)
            || (!HasPlacement(s.plan.placements, slot) && Adopted(s, k, s.token.sprites[slot]))
  {
    hide Eligible, NoOverlap, WideEnough, Committed;
    var j :| 0 <= j < |s.plan.placements| && s.plan.placements[j].page == k;
    PlacedSprite(s, j);
    if HasPlacement(s.plan.placements, slot) {
      var i :| 0 <= i < |s.plan.placements| && s.plan.placements[i].slot == slot;
      PlacedSprite(s, i);
      PlacedSlot(s, i);
      SourceNamesPage(s, s.plan.placements[i].page, k);
      OnePage(s, i, k);
    } else {
      StaysPut(s, k, slot);
    }
  }

  lemma OnePage(s: Staged, i: nat, k: nat)
    requires StagedOk(s) && i < |s.plan.placements|
    ensures s.plan.placements[i].slot in SlotsOn(s.plan.placements, k) <==> s.plan.placements[i].page == k
  {
    hide Eligible, Closed, NoOverlap, WideEnough;
  }

  lemma StaysPut(s: Staged, k: nat, slot: nat)
    requires StagedOk(s) && k < |s.plan.pages| && Target(s.plan.placements, k) && slot < |s.token.sprites|
    requires !HasPlacement(s.plan.placements, slot)
    ensures s.plan.pages[k].source < |s.sheets|
    ensures slot in ResidentsOn(Committed(s), s.plan.pages[k].source) <==> Adopted(s, k, s.token.sprites[slot])
  {
    hide Eligible, NoOverlap, WideEnough, Closed, Committed;
    CommittedUnmoved(s, slot);
    SameCount(s);
    var j :| 0 <= j < |s.plan.placements| && s.plan.placements[j].page == k;
    PlacedSprite(s, j);
  }

  lemma CommittedUnmoved(s: Staged, slot: nat)
    requires StagedOk(s) && slot < |s.token.sprites| && !HasPlacement(s.plan.placements, slot)
    ensures slot < |Committed(s).sprites| && Committed(s).sprites[slot] == s.token.sprites[slot]
  {
    hide Eligible, NoOverlap, WideEnough, Closed;
    PlanIsMovable(s);
    UnmovedSprite(s, Swapped(s), |s.plan.placements|, slot);
  }

  /** A rebuilt sheet holds exactly the sprites planned for it if and only if it adopts no other. */
  lemma RebuiltResidentsIff(s: Staged, k: nat)
    requires StagedOk(s) && k < |s.plan.pages| && Target(s.plan.placements, k)
    ensures s.plan.pages[k].source < |s.sheets|
    ensures SlotsOn(s.plan.placements, k) <= ResidentsOn(Committed(s), s.plan.pages[k].source)
    ensures ResidentsOn(Committed(s), s.plan.pages[k].source) == SlotsOn(s.plan.placements, k) <==> NoStrangers(s, k)
  {
    hide Eligible, Closed, NoOverlap, WideEnough, Committed, StagedOk, Resident;
    StagedSources(s, k);
    SameCount(s);
    PlacedSlots(s);
    var residents, planned := ResidentsOn(Committed(s), s.plan.pages[k].source), SlotsOn(s.plan.placements, k);
    forall slot | 0 <= slot < |s.token.sprites|
      ensures slot in residents <==>
              slot in planned || (!HasPlacement(s.plan.placements, slot) && Adopted(s, k, s.token.sprites[slot]))
    {
      ResidentOnRebuilt(s, k, slot);
    }
    assert forall slot :: slot in planned ==> HasPlacement(s.plan.placements, slot);
  }

  lemma StagedSources(s: Staged, k: nat)
    requires StagedOk(s) && k < |s.plan.pages|
    ensures s.plan.pages[k].source < |s.sheets|
  {
    hide Eligible, Closed, NoOverlap, WideEnough;
    assert PageOk(s.token, s.plan.pages[k]);
  }

  lemma PlacedSlots(s: Staged)
    requires StagedOk(s)
    ensures forall j :: 0 <= j < |s.plan.placements| ==> 0 <= s.plan.placements[j].slot < |s.token.sprites|
  {
    hide Eligible, Closed, NoOverlap, WideEnough;
    forall j | 0 <= j < |s.plan.placements| ensures 0 <= s.plan.placements[j].slot < |s.token.sprites| {
      PlacedSlot(s, j);
    }
  }

  lemma SameCount(s: Staged)
    requires StagedOk(s)
    ensures |Committed(s).sprites| == |s.token.sprites|
  {}

  lemma PlacedSlot(s: Staged, j: nat)
    requires StagedOk(s) && j < |s.plan.placements|
    ensures 0 <= s.plan.placements[j].slot < |s.token.sprites| && |Committed(s).sprites| == |s.token.sprites|
    ensures s.plan.placements[j].page < |s.plan.pages|
  {
    hide Eligible, Closed, NoOverlap, WideEnough;
    assert PlacementOk(s.token, s.plan.pages, s.plan.placements[j]);
  }

  lemma SourceNamesPage(s: Staged, j: nat, k: nat)
    requires StagedOk(s) && j < |s.plan.pages| && k < |s.plan.pages|
    ensures s.plan.pages[j].source == s.plan.pages[k].source <==> j == k
  {
    hide Eligible, Closed, NoOverlap, WideEnough;
  }

  /** The live count of a rebuilt sheet is the number of sprites resident on it if and only if it
      adopts no sprite from outside the plan. */
  lemma LiveCountsResidentsIff(s: Staged, k: nat)
    requires StagedOk(s) && k < |s.plan.pages| && Target(s.plan.placements, k)
    ensures var i := s.plan.pages[k].source;
            && i < |s.sheets| && i < |Committed(s).sheets|
            && (Committed(s).sheets[i].live == |ResidentsOn(Committed(s), i)| <==> NoStrangers(s, k))
  {
    hide Eligible, Closed, NoOverlap, WideEnough, Committed;
    RebuiltResidentsIff(s, k);
    SlotsAreCounted(s.plan.placements, k);
    var j :| 0 <= j < |s.plan.placements| && s.plan.placements[j].page == k;
    PlacedSprite(s, j);
    EqualBySize(SlotsOn(s.plan.placements, k), ResidentsOn(Committed(s), s.plan.pages[k].source));
  }

  lemma EqualBySize(a: set<int>, b: set<int>)
    requires a <= b
    ensures |a| == |b| <==> a == b
  {
    assert b == a + (b - a);
  }

  /** Residents of one rebuilt sheet are pairwise disjoint. */
  lemma RebuiltSheetIsDisjoint(s: Staged, k: nat, d: int, e: int)
    requires StagedOk(s) && k < |s.plan.pages| && Target(s.plan.placements, k)
    requires s.plan.pages[k].source < |s.sheets| && NoStrangers(s, k) && d != e
    requires d in ResidentsOn(Committed(s), s.plan.pages[k].source)
    requires e in ResidentsOn(Committed(s), s.plan.pages[k].source)
    ensures Disjoint(Committed(s).sprites[d].alloc, Committed(s).sprites[e].alloc)
  {
    hide Eligible, Closed, NoOverlap, WideEnough, Committed;
    RebuiltResidentsIff(s, k);
    var i :| 0 <= i < |s.plan.placements| && s.plan.placements[i].page == k && s.plan.placements[i].slot == d;
    var j :| 0 <= j < |s.plan.placements| && s.plan.placements[j].page == k && s.plan.placements[j].slot == e;
    MovedApart(s, i, j);
  }

  // ---------- A commit as a whole ----------

  ghost predicate KeepsResidents(before: Atlas, after: Atlas) {
    && |after.sprites| == |before.sprites|
    && forall slot :: 0 <= slot < |before.sprites| && Resident(before, before.sprites[slot]) ==>
         Resident(after, after.sprites[slot])
  }

  // A sheet whose live count and neighbours are right.
  ghost predicate SheetSound(a: Atlas, i: int) {
    && 0 <= i < |a.sheets| && a.sheets[i].live == |ResidentsOn(a, i)|
    && forall d, e :: d in ResidentsOn(a, i) && e in ResidentsOn(a, i) && d != e ==>
         Disjoint(a.sprites[d].alloc, a.sprites[e].alloc)
  }

  ghost predicate RebuiltSound(a: Atlas, plan: Plan) {
    forall k :: 0 <= k < |plan.pages| && Target(plan.placements, k) ==> SheetSound(a, plan.pages[k].source)
  }

  // No sprite already carries a texture made for the plan.
  predicate FreshTextures(s: Staged) {
    forall i, e :: 0 <= i < |s.sheets| && s.sheets[i].texture != 0 && e in s.token.sprites ==>
      e.texture != s.sheets[i].texture
  }

  /** A commit keeps every resident, and with fresh textures every rebuilt sheet is sound. */
  lemma CommitIsSound(s: Staged)
    requires StagedOk(s)
    ensures KeepsResidents(s.token, Committed(s))
    ensures FreshTextures(s) ==> RebuiltSound(Committed(s), s.plan)
  {
    hide StagedOk, Committed, Resident, Target;
    SameCount(s);
    forall slot | 0 <= slot < |s.token.sprites| && Resident(s.token, s.token.sprites[slot])
      ensures Resident(Committed(s), Committed(s).sprites[slot])
    {
      CommitKeepsResidents(s, slot);
    }
    forall k | 0 <= k < |s.plan.pages| && Target(s.plan.placements, k) && FreshTextures(s)
      ensures SheetSound(Committed(s), s.plan.pages[k].source)
    {
      SheetIsSound(s, k);
    }
  }

  lemma SheetIsSound(s: Staged, k: nat)
    requires StagedOk(s) && FreshTextures(s) && k < |s.plan.pages| && Target(s.plan.placements, k)
    ensures SheetSound(Committed(s), s.plan.pages[k].source)
  {
    hide StagedOk, Committed, Target, Resident;
    StagedSources(s, k);
    FreshMeansNoStrangers(s, k);
    LiveCountsResidentsIff(s, k);
    var a, i := Committed(s), s.plan.pages[k].source;
    forall d, e | d in ResidentsOn(a, i) && e in ResidentsOn(a, i) && d != e
      ensures Disjoint(a.sprites[d].alloc, a.sprites[e].alloc)
    {
      RebuiltSheetIsDisjoint(s, k, d, e);
    }
  }

  lemma FreshMeansNoStrangers(s: Staged, k: nat)
    requires StagedOk(s) && FreshTextures(s) && k < |s.plan.pages| && Target(s.plan.placements, k)
    ensures s.plan.pages[k].source < |s.sheets| && NoStrangers(s, k)
  {
    hide Eligible, Closed, NoOverlap, WideEnough, PlanOk;
    StagedSources(s, k);
    assert NewSheet(s.plan, k, s.sheets[s.plan.pages[k].source]);
  }

  /** The sheets after a commit, one by one: the sheet built for a page, none in place of a sheet that
      only lost its sprites, and every other one as it was; the list ends with its last texture. */
  lemma CommittedSheets(s: Staged)
    requires StagedOk(s)
    ensures var a := Committed(s);
            && |a.sheets| <= |s.token.sheets| && a.fallback == s.token.fallback
            && (a.sheets != [] ==> a.sheets[|a.sheets| - 1].texture != 0)
            && forall i :: 0 <= i < |s.token.sheets| ==>
                 (if i < |a.sheets| then a.sheets[i] == NextSheet(s, i) else NextSheet(s, i).texture == 0)
  {
    hide PlanOk, Selected, NewSheet;
    TrimmedIs(Swapped(s));
    forall i | 0 <= i < |s.token.sheets| ensures Swapped(s)[i] == NextSheet(s, i) {
      assert Rebuilt(s.plan.pages, i) ==> Selected(s.token, s.plan, i) by { RebuiltIsSelected(s, i); }
    }
  }

  lemma RebuiltIsSelected(s: Staged, i: nat)
    ensures Rebuilt(s.plan.pages, i) ==> Selected(s.token, s.plan, i)
  {}

  ghost function NextSheet(s: Staged, i: nat): Sheet
    requires i < |s.token.sheets| == |s.sheets|
  {
    if Rebuilt(s.plan.pages, i) then s.sheets[i]
    else if Selected(s.token, s.plan, i) then Sheet(0, 0, 0, 0, false, false, 0)
    else s.token.sheets[i]
  }

  /** A sheet the plan does not select is untouched. */
  lemma UnselectedSheetIsKept(s: Staged, i: nat)
    requires StagedOk(s) && i < |s.token.sheets| && !Selected(s.token, s.plan, i) && s.token.sheets[i].texture != 0
    ensures i < |Committed(s).sheets| && Committed(s).sheets[i] == s.token.sheets[i]
  {
    assert Swapped(s)[i] == SwappedSheet(s, i);
    TrimmedKeeps(Swapped(s), i);
  }

  // A sheet that no plan may touch: sealed, dedicated, of no group, the fallback's, or with a sprite on it
  // that is of another group, not eligible, stale, or without a hashed path.
  ghost predicate Protected(a: Atlas, i: nat)
    requires i < |a.sheets|
  {
    || a.sheets[i].isSealed || a.sheets[i].dedicated || a.sheets[i].group == 0 || a.fallback == i
    || exists e :: e in a.sprites && Tied(a, e, i) &&
         (!e.eligible || e.group != a.sheets[i].group || !e.pathHashed || e.stale)
  }

  /** A protected sheet with a texture, and every sprite resident on it, survives any commit as it is. */
  lemma ProtectedIsKept(s: Staged, i: nat, slot: nat)
    requires StagedOk(s) && i < |s.token.sheets| && Protected(s.token, i) && s.token.sheets[i].texture != 0
    requires slot < |s.token.sprites|
    ensures i < |Committed(s).sheets| && Committed(s).sheets[i] == s.token.sheets[i]
    ensures s.token.sprites[slot].sheet == i ==>
              slot < |Committed(s).sprites| && Committed(s).sprites[slot] == s.token.sprites[slot]
  {
    hide Closed, NoOverlap, WideEnough, Committed;
    SelectedIsEligible(s, i);
    NotEligible(s.token, i);
    UnselectedSheetIsKept(s, i);
    PlacedVacates(s.token, s.plan, slot);
    if s.token.sprites[slot].sheet == i { CommittedUnmoved(s, slot); }
  }

  lemma PlacedVacates(a: Atlas, plan: Plan, slot: nat)
    requires slot < |a.sprites|
    ensures HasPlacement(plan.placements, slot) ==> Selected(a, plan, a.sprites[slot].sheet)
  {}

  lemma NotEligible(a: Atlas, i: nat)
    requires i < |a.sheets| && Protected(a, i)
    ensures !Eligible(a, i)
  {
    if e :| e in a.sprites && Tied(a, e, i) && !Ready(e, a.sheets[i].group) {
      var s :| 0 <= s < |a.sprites| && a.sprites[s] == e;
    }
  }

  /** The fallback sprite's sheet is never selected, so it survives every commit. */
  lemma FallbackSheetIsKept(s: Staged)
    requires StagedOk(s) && 0 <= s.token.fallback < |s.token.sheets| && s.token.sheets[s.token.fallback].texture != 0
    ensures var a := Committed(s);
            a.fallback == s.token.fallback && a.fallback < |a.sheets| &&
              a.sheets[a.fallback] == s.token.sheets[a.fallback]
  {
    SelectedIsEligible(s, s.token.fallback);
    UnselectedSheetIsKept(s, s.token.fallback);
  }
}
