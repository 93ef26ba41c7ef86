/**
  The text cache in place (runtime/stasis_graphics.c), proved against TextRuns. Glyph quads, fonts and
  UTF-8 validation are outside this model: whether they succeed is a parameter.

  `dead` (the handles whose lifetime has ended) is a history variable; it is never forgotten, so what
  it says holds across resets and shutdowns.
*/
module TextCaching {
  import opened ByteText
  import opened CInts
  import opened Handles
  import opened TextRuns

  class TextCache {
    const hash: Bytes -> nat
    const bytes: array<Byte>
    var used: nat
    var runs: seq<Run>
    var dynamicTexts: seq<Bytes>
    ghost var dead: set<int>

    ghost predicate Valid()
      reads this, bytes
    {
      && bytes.Length == MAX_BYTES && |runs| == MAX_RUNS && CacheOk(hash, bytes[..], used, runs)
      && HandlesOk(runs, dead) && DynamicOk(dynamicTexts, runs)
    }

    ghost function Live(): set<int>
      reads this`runs
    {
      LiveOf(runs)
    }

    constructor (hash: Bytes -> nat)
      ensures Valid() && fresh(bytes) && used == 0 && Live() == {} && dead == {}
      ensures |runs| == 1024 && bytes.Length == 262144 && |dynamicTexts| == 16
    {
      this.hash := hash;
      bytes := new Byte[MAX_BYTES];
      used := 0;
      runs := seq(MAX_RUNS, i => Blank(0, false));
      dynamicTexts := seq(MAX_DYNAMIC_RUNS, i => []);
      dead := {};
    }

    predicate Matches(r: Run, font: int, text: Bytes)
      reads bytes
    {
      Stored(r) && r.font == font && TextOf(bytes[..], r) == text
    }

    // Some immutable run has this font and text.
    predicate IsCached(font: int, text: Bytes)
      reads this`runs, bytes
    {
      exists i :: 0 <= i < |runs| && Matches(runs[i], font, text)
    }

    ghost predicate HasFree()
      reads this`runs
    {
      exists i :: 0 <= i < |runs| && !runs[i].active && !runs[i].retired
    }

    ghost predicate IsFirstFree(slot: nat)
      requires slot < |runs|
      reads this`runs
    {
      !runs[slot].active && !runs[slot].retired && forall j :: 0 <= j < slot ==> runs[j].active || runs[j].retired
    }

    ghost predicate HasFreeStorage()
      reads this`runs
    {
      exists d :: 0 <= d < MAX_DYNAMIC_RUNS && !IsTaken(runs, d)
    }

    /** stasis_text_run_get: it finds exactly the live handles. */
    method Lookup(handle: int) returns (slot: int)
      requires Valid() && handle <= INT_MAX
      ensures slot != -1 <==> handle in Live()
      ensures slot != -1 ==> 0 <= slot < |runs| && runs[slot].active && handle == HandleAt(runs, slot)
    {
      hide CacheOk, HandlesOk, DynamicOk;
      RunCount(runs, dead);
      if handle <= 0 {
        OnlyPositive(runs, dead, handle);
        return -1;
      }
      LiveIff(runs, dead, handle);
      UnpackingRoundTrips(RADIX, handle);
      var index, generation := handle % RADIX - 1, handle / RADIX % GENERATIONS;
      if index < 0 || index >= MAX_RUNS { return -1; }
      NotBoth(runs, dead, index);
      if !runs[index].active || runs[index].retired || runs[index].generation != generation { return -1; }
      return index;
    }

    /** stasis_find_or_alloc_text_run_slot: the run with this font and text if there is one, else the
        first free slot. */
    method FindOrAlloc(font: int, text: Bytes) returns (slot: int)
      requires Valid() && font > 0 && text != []
      ensures IsCached(font, text) ==> 0 <= slot < |runs| && Matches(runs[slot], font, text)
      ensures !IsCached(font, text) ==>
                if slot == -1 then !HasFree()
                else 0 <= slot < |runs| && IsFirstFree(slot)
    {
      hide CacheOk, HandlesOk, DynamicOk;
      var wanted := hash(text);
      var free := -1;
      for i := 0 to |runs|
        invariant free == -1 ==> forall j :: 0 <= j < i ==> runs[j].active || runs[j].retired
        invariant free != -1 ==> 0 <= free < i && IsFirstFree(free)
        invariant forall j :: 0 <= j < i ==> !Matches(runs[j], font, text)
      {
        var r := runs[i];
        RunIsOk(hash, bytes[..], used, runs, i);
        if !r.active && !r.retired {
          if free < 0 { free := i; }
          continue;
        }
        if r.dynamic || r.font != font || r.hash != wanted || r.len != |text| { continue; }
        if r.off < 0 || r.off + |text| >= MAX_BYTES { continue; }
        if bytes[r.off..r.off + |text|] == text { return i; }
      }
      return free;
    }

    // Every stored run of the old state still stands, with its text.
    twostate predicate TextsKept()
      reads this`runs, bytes
    {
      forall i :: 0 <= i < old(|runs|) && Stored(old(runs[i])) ==>
        i < |runs| && runs[i] == old(runs[i]) && TextOf(bytes[..], runs[i]) == old(TextOf(bytes[..], runs[i]))
    }

    /** stasis_gfx_cache_text, from a ready font: the handle of a run with the font and text, which was
        live already or never issued before, or 0. `valid` is whether the text is UTF-8, `built` whether
        its quads can be built. It is 0 exactly when the text is refused or there is no room for it. */
    method CacheText(font: int, text: Bytes, valid: bool, built: bool) returns (handle: nat)
      requires Valid() && font > 0
      modifies this`used, this`runs, bytes
      ensures Valid() && TextsKept()
      ensures handle == 0 ==> runs == old(runs) && used == old(used)
      ensures handle != 0 ==>
                var slot := SlotOf(RADIX, handle);
                && 0 < handle <= INT_MAX && 0 <= slot < |runs| && handle == HandleAt(runs, slot)
                && Matches(runs[slot], font, text) && Live() == old(Live()) + {handle}
                && forall i :: 0 <= i < |runs| && i != slot ==> runs[i] == old(runs[i])
      ensures handle != 0 ==>
                if old(IsCached(font, text)) then runs == old(runs) && used == old(used)
                else && handle !in old(Live()) && handle !in dead && used == old(used) + |text| + 1
                     && 0 <= SlotOf(2048, handle) < old(|runs|) && old(IsFirstFree(SlotOf(2048, handle)))
      ensures handle != 0 <==>
              && 0 < |text| <= 8192 && valid
              && (old(IsCached(font, text)) || (built && old(HasFree()) && old(used) + |text| + 1 <= 262144))
    {
      hide CacheOk, HandlesOk, DynamicOk, LiveOf;
      if |text| == 0 || |text| > MAX_LENGTH || !valid { return 0; }
      var slot := FindOrAlloc(font, text);
      if slot < 0 { return 0; }
      RunCount(runs, dead);
      HandleParts(runs, slot);
      if runs[slot].active {
        ActiveIsLive(runs, slot);
        return HandleAt(runs, slot);
      }
      AtMost(hash, bytes[..], used, runs);
      var needed := |text| + 1;
      if used + needed > MAX_BYTES { return 0; }
      ghost var before := bytes[..];
      WriteAt(bytes, used, text + [0]);
      KeptTexts(hash, before, used, runs, bytes[..]);
      if !built {
        KeptCache(hash, before, used, runs, bytes[..]);
        return 0;
      }
      AddingKeepsCache(hash, before, used, runs, slot, font, text, bytes[..]);
      FreeHandleIsNew(runs, dead, slot);
      var r := Cached(runs[slot].generation, font, hash(text), used, |text|);
      FillingKeepsHandles(runs, dead, slot, r);
      FewerKeepsDynamic(dynamicTexts, runs, runs[slot := r]);
      handle := HandleAt(runs, slot);
      runs := runs[slot := r];
      used := used + needed;
    }

    // The first storage of no replaceable run, or -1.
    method FindFreeDynamic() returns (free: int)
      requires Valid()
      ensures free == -1 || 0 <= free < MAX_DYNAMIC_RUNS
      ensures free != -1 ==> !IsTaken(runs, free) && forall d :: 0 <= d < free ==> IsTaken(runs, d)
      ensures free == -1 ==> !HasFreeStorage()
    {
      hide CacheOk, HandlesOk;
      var taken := new bool[MAX_DYNAMIC_RUNS](d => false);
      for i := 0 to |runs|
        invariant forall d :: 0 <= d < MAX_DYNAMIC_RUNS ==> (taken[d] <==> IsTaken(runs[..i], d))
      {
        TakenNext(runs, i);
        if !runs[i].active || !runs[i].dynamic { continue; }
        assert DynamicRunOk(dynamicTexts, runs[i]);
        taken[runs[i].dynamicSlot] := true;
      }
      assert runs[..|runs|] == runs;
      for d := 0 to MAX_DYNAMIC_RUNS
        invariant forall e :: 0 <= e < d ==> taken[e]
      {
        if !taken[d] { return d; }
      }
      return -1;
    }

    method FindFree() returns (slot: int)
      ensures slot == -1 <==> !HasFree()
      ensures slot != -1 ==> 0 <= slot < |runs| && IsFirstFree(slot)
    {
      for i := 0 to |runs|
        invariant forall j :: 0 <= j < i ==> runs[j].active || runs[j].retired
      {
        if !runs[i].active && !runs[i].retired { return i; }
      }
      return -1;
    }

    // The handle names a replaceable run.
    ghost predicate Replaces(handle: int)
      reads this`runs
    {
      exists i :: 0 <= i < |runs| && Replaceable(runs[i]) && handle == HandleAt(runs, i)
    }

    /** stasis_gfx_replace_text, from a ready font: a live replaceable run keeps its handle and gets the
        text; otherwise a run starts under a handle never issued before. No other run changes, and no
        other replaceable run's text does. */
    method ReplaceText(previous: int, font: int, text: Bytes, valid: bool, built: bool) returns (handle: nat)
      requires Valid() && font > 0 && previous <= INT_MAX
      modifies this`runs, this`dynamicTexts
      ensures Valid()
      ensures handle == 0 ==> runs == old(runs) && dynamicTexts == old(dynamicTexts)
      ensures handle != 0 ==>
                var slot := SlotOf(RADIX, handle);
                && 0 < handle <= INT_MAX && 0 <= slot < |runs| && handle == HandleAt(runs, slot)
                && Replaceable(runs[slot]) && runs[slot].font == font && DynamicText(runs[slot]) == text
                && Live() == old(Live()) + {handle}
                && forall i :: 0 <= i < |runs| && i != slot ==>
                     runs[i] == old(runs[i]) &&
                       (Replaceable(runs[i]) ==> DynamicText(runs[i]) == old(DynamicText(runs[i])))
      ensures handle != 0 ==>
                if old(Replaces(previous)) then handle == previous
                else && handle !in old(Live()) && handle !in dead
                     && 0 <= SlotOf(2048, handle) < old(|runs|) && old(IsFirstFree(SlotOf(2048, handle)))
      ensures handle != 0 <==>
              && 0 < |text| < 1024 && valid && built
              && (old(Replaces(previous)) || (old(HasFree()) && old(HasFreeStorage())))
    {
      hide CacheOk, HandlesOk, LiveOf;
      if |text| == 0 || |text| >= MAX_DYNAMIC_BYTES || !valid { return 0; }
      RunCount(runs, dead);
      var slot := Lookup(previous);
      var dynamicSlot := -1;
      if slot != -1 && runs[slot].dynamic {
        dynamicSlot := runs[slot].dynamicSlot;
        assert DynamicRunOk(dynamicTexts, runs[slot]);
        ActiveIsLive(runs, slot);
      } else {
        NotReplaced(runs, dead, previous, slot);
        slot := FindFree();
        if slot < 0 { return 0; }
        dynamicSlot := FindFreeDynamic();
        if dynamicSlot < 0 { return 0; }
        FreeHandleIsNew(runs, dead, slot);
      }
      if !built { return 0; }
      NotBoth(runs, dead, slot);
      HandleParts(runs, slot);
      var r := Run(true, false, runs[slot].generation, font, hash(text), 0, |text|, true, dynamicSlot);
      ReplacingKeepsCache(hash, bytes[..], used, runs, slot, r);
      ReplacingKeepsDynamic(dynamicTexts, runs, slot, r, text);
      FillingKeepsHandles(runs, dead, slot, r);
      handle := HandleAt(runs, slot);
      dynamicTexts := dynamicTexts[dynamicSlot := text];
      runs := runs[slot := r];
    }

    function DynamicText(r: Run): Bytes
      reads this`dynamicTexts
    {
      if 0 <= r.dynamicSlot < |dynamicTexts| then dynamicTexts[r.dynamicSlot] else []
    }

    // Invalidates the runs of a font.
    method EndRuns(font: int)
      requires Valid()
      modifies this`runs, this`dead
      ensures Valid() && forall i :: 0 <= i < |runs| ==> runs[i] == Released(old(runs[i]), font)
      ensures Live() == old(Live()) - old(OfFont(runs, font)) && dead == old(dead) + old(OfFont(runs, font))
    {
      hide CacheOk, HandlesOk, DynamicOk, LiveOf, OfFont;
      for i := 0 to |runs|
        invariant |runs| == old(|runs|) && dead == old(dead)
        invariant forall j :: 0 <= j < |runs| ==>
                    runs[j] == if j < i then Released(old(runs[j]), font) else old(runs[j])
      {
        if !runs[i].active || runs[i].font != font { continue; }
        var next := (runs[i].generation + 1) % GENERATIONS;
        runs := runs[i := Blank(next, next == 0)];
      }
      DroppingKeepsCache(hash, bytes[..], used, old(runs), runs);
      EndingMovesHandles(old(runs), dead, runs);
      ReleasedAreOfFont(old(runs), runs, font);
      FewerKeepsDynamic(dynamicTexts, old(runs), runs);
      dead := dead + EndedOf(old(runs), runs);
    }

    // Each stored text stands where packing puts it.
    predicate IsPacked()
      reads this`runs, this`used
    {
      used == Packed(runs, |runs|) && forall i :: 0 <= i < |runs| && Stored(runs[i]) ==> runs[i].off == Packed(runs, i)
    }

    // Every stored run that is left has the text it had.
    twostate predicate TextsMoved()
      reads this`runs, bytes
    {
      forall i :: 0 <= i < |runs| && i < old(|runs|) && Stored(runs[i]) ==>
        TextOf(bytes[..], runs[i]) == old(TextOf(bytes[..], runs[i]))
    }

    /** stasis_release_text_runs_for_font: `memory` and `rebuilt` are the answers of the allocator and of
        rebuilding the quads. */
    method ReleaseForFont(font: int, memory: bool, rebuilt: bool) returns (ok: bool)
      requires Valid()
      modifies this`runs, this`used, this`dead, bytes
      ensures Valid() && (ok <==> memory && rebuilt)
      ensures forall i :: 0 <= i < |runs| ==>
                var r := Released(old(runs[i]), font);
                runs[i] == if Stored(r) then r.(off := runs[i].off) else r
      ensures TextsMoved() && (memory ==> IsPacked())
      ensures Live() == old(Live()) - old(OfFont(runs, font)) && dead == old(dead) + old(OfFont(runs, font))
    {
      hide CacheOk, HandlesOk, DynamicOk, LiveOf, OfFont, TextOf, Packed;
      EndRuns(font);
      if !memory { return false; }
      Compact();
      return rebuilt;
    }

    // Moves the stored texts to the front of the buffer in slot order, through a second buffer. The
    // range checks of the source are the assertion: they never fail.
    method Compact()
      requires Valid()
      modifies this`runs, this`used, bytes
      ensures Valid() && TextsMoved() && IsPacked() && Live() == old(Live())
      ensures forall i :: 0 <= i < |runs| ==>
                runs[i] == if Stored(old(runs[i])) then old(runs[i]).(off := runs[i].off) else old(runs[i])
    {
      hide CacheOk, HandlesOk, DynamicOk, LiveOf, TextOf, Packed, Pieces;
      ghost var from, base := bytes[..], runs;
      AtMost(hash, from, used, base);
      var compacted := new Byte[MAX_BYTES];
      var next := 0;
      PackedStart(from, base);
      for i := 0 to |runs|
        invariant next == Packed(base, i) && 0 <= next <= used && |runs| == |base| && used == old(used)
        invariant bytes[..] == from && compacted[..next] == Pieces(from, base, i)
        invariant forall j :: 0 <= j < |runs| ==> runs[j] == if j < i then Compacted(base, j) else base[j]
      {
        PackNext(hash, from, used, base, i);
        if !runs[i].active || runs[i].dynamic { continue; }
        var size := runs[i].len + 1;
        assert !(runs[i].off < 0 || size <= 1 || runs[i].off > used - size || next > MAX_BYTES - size);
        WriteAt(compacted, next, bytes[runs[i].off..runs[i].off + size]);
        runs := runs[i := runs[i].(off := next)];
        next := next + size;
      }
      WriteAt(bytes, 0, compacted[..next]);
      PackedTogether(hash, from, used, base, bytes[..], runs);
      SameHandles(base, dead, runs);
      FewerKeepsDynamic(dynamicTexts, base, runs);
      used := next;
    }

    /** stasis_reset_text_cache: every active run ends, and none of their handles comes back. */
    method Reset()
      requires Valid()
      modifies this`runs, this`used, this`dead
      ensures Valid() && used == 0 && Live() == {} && dead == old(dead) + old(Live())
      ensures forall i :: 0 <= i < |runs| ==>
                runs[i] == if old(runs[i]).active then EndedRun(old(runs[i])) else old(runs[i])
    {
      hide CacheOk, HandlesOk, DynamicOk, LiveOf;
      for i := 0 to |runs|
        invariant |runs| == old(|runs|) && used == old(used) && dead == old(dead)
        invariant forall j :: 0 <= j < |runs| ==>
                    runs[j] == if j < i && old(runs[j]).active then EndedRun(old(runs[j])) else old(runs[j])
      {
        RunIsOk(hash, bytes[..], used, old(runs), i);
        var generation, retired := runs[i].generation, runs[i].retired;
        if runs[i].active && !retired {
          generation := (generation + 1) % GENERATIONS;
          retired := generation == 0;
        }
        runs := runs[i := Blank(generation, retired)];
      }
      DroppingKeepsCache(hash, bytes[..], used, old(runs), runs);
      EmptyCache(hash, bytes[..], used, runs);
      EndingMovesHandles(old(runs), dead, runs);
      AllAreEnded(old(runs), runs);
      FewerKeepsDynamic(dynamicTexts, old(runs), runs);
      dead := dead + EndedOf(old(runs), runs);
      used := 0;
    }

    /** The text half of stasis_gfx_release_font. When compaction and rebuilding succeed, exactly the
        font's runs end and every other run keeps its handle and its text; otherwise all runs end. */
    method ReleaseFont(font: int, memory: bool, rebuilt: bool)
      requires Valid()
      modifies this`runs, this`used, this`dead, bytes
      ensures Valid()
      ensures memory && rebuilt ==> TextsMoved() && IsPacked() && Live() == old(Live()) - old(OfFont(runs, font))
      ensures memory && rebuilt ==>
                forall i :: 0 <= i < |runs| ==>
                  runs[i] == if old(runs[i]).active && old(runs[i]).font == font then EndedRun(old(runs[i]))
                             else old(runs[i]).(off := runs[i].off)
      ensures !(memory && rebuilt) ==> Live() == {}
      ensures dead == old(dead) + (old(Live()) - Live())
    {
      hide CacheOk, HandlesOk, DynamicOk, LiveOf, OfFont, TextOf, Packed;
      FontIsLive(runs, font);
      var ok := ReleaseForFont(font, memory, rebuilt);
      if !ok { Reset(); }
    }
  }

  // Some replaceable run has the storage d.
  predicate IsTaken(runs: seq<Run>, d: int) {
    exists i :: 0 <= i < |runs| && Replaceable(runs[i]) && runs[i].dynamicSlot == d
  }

  lemma TakenNext(runs: seq<Run>, n: nat)
    requires n < |runs|
    ensures forall d ::
              IsTaken(runs[..n + 1], d) <==> IsTaken(runs[..n], d) || (Replaceable(runs[n]) && runs[n].dynamicSlot == d)
  {
    var now, before := runs[..n + 1], runs[..n];
    assert now[n] == runs[n] && forall i :: 0 <= i < n ==> now[i] == before[i];
    forall d | IsTaken(before, d) ensures IsTaken(now, d) {
      var i :| 0 <= i < |before| && Replaceable(before[i]) && before[i].dynamicSlot == d;
      assert Replaceable(now[i]) && now[i].dynamicSlot == d;
    }
  }

  lemma RunCount(runs: seq<Run>, dead: set<int>)
    requires HandlesOk(runs, dead)
    ensures |runs| == MAX_RUNS && forall i :: 0 <= i < |runs| ==> runs[i].generation < GENERATIONS
  {}

  lemma NotBoth(runs: seq<Run>, dead: set<int>, i: nat)
    requires HandlesOk(runs, dead) && i < |runs|
    ensures !(runs[i].active && runs[i].retired)
  {}

  lemma ActiveIsLive(runs: seq<Run>, i: nat)
    requires i < |runs| && runs[i].active
    ensures HandleAt(runs, i) in LiveOf(runs) && LiveOf(runs) + {HandleAt(runs, i)} == LiveOf(runs)
  {}

  lemma OnlyPositive(runs: seq<Run>, dead: set<int>, h: int)
    requires HandlesOk(runs, dead) && h <= 0
    ensures h !in LiveOf(runs)
  {}

  lemma FontIsLive(runs: seq<Run>, font: int)
    ensures OfFont(runs, font) <= LiveOf(runs)
  {}

  lemma ReleasedAreOfFont(runs: seq<Run>, now: seq<Run>, font: int)
    requires |now| == |runs| && forall i :: 0 <= i < |runs| ==> now[i] == Released(runs[i], font)
    ensures EndedOf(runs, now) == OfFont(runs, font)
  {
    assert forall i :: 0 <= i < |runs| ==>
             (runs[i].active && !now[i].active <==> runs[i].active && runs[i].font == font);
  }

  lemma AllAreEnded(runs: seq<Run>, now: seq<Run>)
    requires |now| == |runs| && forall i :: 0 <= i < |runs| ==> !now[i].active
    ensures EndedOf(runs, now) == LiveOf(runs) && LiveOf(now) == {}
  {}

  // A handle that finds no replaceable run names none.
  lemma NotReplaced(runs: seq<Run>, dead: set<int>, h: int, slot: int)
    requires HandlesOk(runs, dead) && (slot != -1 <==> h in LiveOf(runs))
    requires slot != -1 ==> 0 <= slot < |runs| && h == HandleAt(runs, slot) && !runs[slot].dynamic
    ensures forall i :: 0 <= i < |runs| && Replaceable(runs[i]) ==> h != HandleAt(runs, i)
  {
    forall i | 0 <= i < |runs| && Replaceable(runs[i]) ensures h != HandleAt(runs, i) {
      HandleParts(runs, i);
      if slot != -1 { HandleParts(runs, slot); }
      assert HandleAt(runs, i) in LiveOf(runs);
    }
  }
}
