/**
  Generational handles for sprites, fonts and text runs (runtime/stasis_graphics.c): a handle packs a
  slot index and the slot's generation, a slot's generation moves on when its lifetime ends, and a
  slot whose generation wraps is retired for good.

  `live` (outstanding references per live handle) and `dead` (handles whose lifetime has ended) are
  history variables; the contracts are stated over them.
*/
module Handles {
  import opened CInts
  import opened Division
  import opened Options

  const INITIAL_CAPACITY: nat := 256

  // ---------- Packing ----------

  function Encode(radix: nat, slot: nat, generation: nat): nat { generation * radix + (slot + 1) }

  function SlotOf(radix: nat, handle: nat): int
    requires radix > 0
  {
    handle % radix - 1
  }

  function GenerationOf(radix: nat, handle: nat): nat
    requires radix > 0
  {
    handle / radix
  }

  lemma PackingRoundTrips(radix: nat, slot: nat, generation: nat)
    requires slot + 1 < radix
    ensures SlotOf(radix, Encode(radix, slot, generation)) == slot
    ensures GenerationOf(radix, Encode(radix, slot, generation)) == generation
  {
    Quotient(Encode(radix, slot, generation), radix, generation, slot + 1);
  }

  lemma UnpackingRoundTrips(radix: nat, handle: nat)
    requires radix > 0
    ensures SlotOf(radix, handle) >= 0 ==> Encode(radix, SlotOf(radix, handle), GenerationOf(radix, handle)) == handle
  {}

  // A handle of an unwrapped generation is a positive C int.
  lemma PackingFits(radix: nat, generations: nat, slot: nat, generation: nat)
    requires slot + 1 < radix && generation < generations && radix * generations == INT_MAX + 1
    ensures 0 < Encode(radix, slot, generation) <= INT_MAX
  {
    assert radix * generations == generation * radix + radix + (generations - generation - 1) * radix;
    assert (generations - generation - 1) * radix >= 0;
    assert generation * radix >= 0;
  }

  // ---------- Tables as values ----------

  datatype Slot<+K> = Slot(used: bool, retired: bool, generation: nat, refs: nat, key: Option<K>)

  datatype Table<+K> = Table(radix: nat, generations: nat, slots: seq<Slot<K>>, live: map<int, nat>, dead: set<int>)

  predicate Shape<K>(t: Table<K>) {
    t.radix * t.generations == INT_MAX + 1 && t.radix > 0 && t.generations > 0 && |t.slots| < t.radix
  }

  // A slot with nothing in it.
  function Vacant<K>(generation: nat, retired: bool): Slot<K> { Slot(false, retired, generation, 0, None) }

  // The slot holds the live resource with this key.
  predicate Owns<K(==)>(s: Slot<K>, key: K) { s.used && s.key == Some(key) }

  predicate SlotOk<K>(t: Table<K>, i: nat)
    requires i < |t.slots|
  {
    var s := t.slots[i];
    && s.generation < t.generations
    && (s.retired ==> !s.used && s.generation == 0)
    && (s.used ==> s.refs >= 1 && Encode(t.radix, i, s.generation) in t.live)
    && (s.used ==> t.live[Encode(t.radix, i, s.generation)] == s.refs)
  }

  predicate LiveOk<K>(t: Table<K>, h: int)
    requires Shape(t)
  {
    && h > 0 && 0 <= SlotOf(t.radix, h) < |t.slots|
    && t.slots[SlotOf(t.radix, h)].used && t.slots[SlotOf(t.radix, h)].generation == GenerationOf(t.radix, h)
  }

  // A dead handle's generation lies behind its slot's, or the slot is retired.
  predicate DeadOk<K>(t: Table<K>, h: int)
    requires Shape(t)
  {
    && h > 0 && 0 <= SlotOf(t.radix, h) < |t.slots|
    && (t.slots[SlotOf(t.radix, h)].retired || GenerationOf(t.radix, h) < t.slots[SlotOf(t.radix, h)].generation)
  }

  ghost predicate TableOk<K>(t: Table<K>) {
    && Shape(t)
    && (forall i :: 0 <= i < |t.slots| ==> SlotOk(t, i))
    && (forall h :: h in t.live ==> LiveOk(t, h))
    && (forall h :: h in t.dead ==> DeadOk(t, h))
  }

  /** Live and dead handles never share a value. */
  lemma LiveIsNotDead<K>(t: Table<K>)
    requires TableOk(t)
    ensures forall h :: h in t.live ==> h !in t.dead
  {
    forall h | h in t.live ensures h !in t.dead {
      assert LiveOk(t, h) && SlotOk(t, SlotOf(t.radix, h));
      assert h in t.dead ==> DeadOk(t, h);
    }
  }

  // What lookup tests.
  predicate Finds<K>(t: Table<K>, h: int)
    requires Shape(t)
  {
    && h > 0 && 0 <= SlotOf(t.radix, h) < |t.slots|
    && t.slots[SlotOf(t.radix, h)].used && !t.slots[SlotOf(t.radix, h)].retired
    && t.slots[SlotOf(t.radix, h)].generation == GenerationOf(t.radix, h) % t.generations
  }

  lemma QuotientBelow(radix: nat, generations: nat, h: nat)
    requires radix > 0 && h < radix * generations
    ensures h / radix < generations
  {
    var q := h / radix;
    assert h == q * radix + h % radix;
    assert q >= generations ==>
             (q - generations) * radix >= 0 && q * radix == generations * radix + (q - generations) * radix;
  }

  /** A lookup succeeds exactly while the handle's lifetime is live. */
  lemma FindsIffLive<K>(t: Table<K>, h: int)
    requires TableOk(t) && h <= INT_MAX
    ensures Finds(t, h) <==> h in t.live
  {
    hide SlotOf, GenerationOf, Encode;
    if h > 0 { GenerationIsUnmasked(t.radix, t.generations, h); }
    if h in t.live {
      assert LiveOk(t, h) && SlotOk(t, SlotOf(t.radix, h));
    }
    if Finds(t, h) {
      UnpackingRoundTrips(t.radix, h);
      assert SlotOk(t, SlotOf(t.radix, h));
    }
  }

  lemma GenerationIsUnmasked(radix: nat, generations: nat, h: nat)
    requires radix > 0 && generations > 0 && radix * generations == INT_MAX + 1 && h <= INT_MAX
    ensures GenerationOf(radix, h) % generations == GenerationOf(radix, h)
  {
    QuotientBelow(radix, generations, h);
    Quotient(GenerationOf(radix, h), generations, 0, GenerationOf(radix, h));
  }

  // ---------- Steps on values ----------

  function Claimed<K>(t: Table<K>, i: nat, key: K): Table<K>
    requires i < |t.slots|
  {
    var g := t.slots[i].generation;
    t.(slots := t.slots[i := Slot(true, false, g, 1, Some(key))], live := t.live[Encode(t.radix, i, g) := 1])
  }

  /** A free slot's next handle was never issued, and claiming it keeps the table sound. */
  lemma ClaimIsNew<K>(t: Table<K>, i: nat, key: K)
    requires TableOk(t) && i < |t.slots| && !t.slots[i].used && !t.slots[i].retired
    ensures var h := Encode(t.radix, i, t.slots[i].generation);
            h !in t.live && h !in t.dead && 0 < h <= INT_MAX && TableOk(Claimed(t, i, key))
  {
    var g := t.slots[i].generation;
    var h, now := Encode(t.radix, i, g), Claimed(t, i, key);
    PackingRoundTrips(t.radix, i, g);
    assert SlotOk(t, i);
    PackingFits(t.radix, t.generations, i, g);
    assert h in t.live ==> LiveOk(t, h);
    assert h in t.dead ==> DeadOk(t, h);
    forall j | 0 <= j < |now.slots| ensures SlotOk(now, j) {
      assert SlotOk(t, j);
      if j != i { DifferentSlots(t.radix, i, g, j, t.slots[j].generation); }
    }
    forall x | x in now.live ensures LiveOk(now, x) { assert x == h || LiveOk(t, x); }
    forall x | x in now.dead ensures DeadOk(now, x) { assert DeadOk(t, x); }
  }

  lemma DifferentSlots(radix: nat, i: nat, g: nat, j: nat, f: nat)
    requires i + 1 < radix && j + 1 < radix && i != j
    ensures Encode(radix, i, g) != Encode(radix, j, f)
  {
    PackingRoundTrips(radix, i, g);
    PackingRoundTrips(radix, j, f);
  }

  function Recounted<K>(t: Table<K>, i: nat, refs: nat): Table<K>
    requires i < |t.slots|
  {
    t.(slots := t.slots[i := t.slots[i].(refs := refs)],
      live := t.live[Encode(t.radix, i, t.slots[i].generation) := refs])
  }

  lemma RecountKeepsTable<K>(t: Table<K>, i: nat, refs: nat)
    requires TableOk(t) && i < |t.slots| && t.slots[i].used && refs >= 1
    ensures TableOk(Recounted(t, i, refs))
  {
    var g, now := t.slots[i].generation, Recounted(t, i, refs);
    var h := Encode(t.radix, i, g);
    assert SlotOk(t, i);
    forall j | 0 <= j < |now.slots| ensures SlotOk(now, j) {
      assert SlotOk(t, j);
      if j != i { DifferentSlots(t.radix, i, g, j, t.slots[j].generation); }
    }
    forall x | x in now.live ensures LiveOk(now, x) { assert LiveOk(t, x); }
    forall x | x in now.dead ensures DeadOk(now, x) { assert DeadOk(t, x); }
  }

  // What a lifetime leaves behind: the slot goes on to the next generation, and after its last one to none.
  function Successor<K>(generation: nat, generations: nat): Slot<K> {
    if generation + 1 < generations then Slot(false, false, generation + 1, 0, None) else Slot(false, true, 0, 0, None)
  }

  // A slot after its first n lifetimes.
  function After<K>(n: nat, generations: nat): Slot<K> {
    if n == 0 then Vacant(0, false) else Successor(After<K>(n - 1, generations).generation, generations)
  }

  /** A slot serves one lifetime per generation, all under different handles, and then no more. */
  lemma {:induction false} SlotLifetimes<K>(n: nat, generations: nat)
    requires n <= generations
    ensures After<K>(n, generations) == if n < generations || n == 0 then Vacant(n, false) else Vacant(0, true)
  {
    if n > 0 { SlotLifetimes<K>(n - 1, generations); }
  }

  // The lifetime of slot i ends: the generation moves on, and a wrapped one retires the slot.
  function Ended<K>(t: Table<K>, i: nat): Table<K>
    requires i < |t.slots| && t.generations > 0
  {
    var g := t.slots[i].generation;
    var h, next := Encode(t.radix, i, g), (g + 1) % t.generations;
    t.(slots := t.slots[i := Vacant(next, next == 0)], live := t.live - {h}, dead := t.dead + {h})
  }

  lemma EndKeepsTable<K>(t: Table<K>, i: nat)
    requires TableOk(t) && i < |t.slots| && t.slots[i].used
    ensures TableOk(Ended(t, i))
  {
    var g, now := t.slots[i].generation, Ended(t, i);
    var h := Encode(t.radix, i, g);
    assert SlotOk(t, i);
    PackingRoundTrips(t.radix, i, g);
    PackingFits(t.radix, t.generations, i, g);
    NextGeneration(g, t.generations);
    forall j | 0 <= j < |now.slots| ensures SlotOk(now, j) {
      assert SlotOk(t, j);
      if j != i { DifferentSlots(t.radix, i, g, j, t.slots[j].generation); }
    }
    forall x | x in now.live ensures LiveOk(now, x) {
      assert LiveOk(t, x);
      UnpackingRoundTrips(t.radix, x);
    }
    forall x | x in now.dead ensures DeadOk(now, x) {
      assert x == h || DeadOk(t, x);
    }
  }

  lemma NextGeneration(g: nat, generations: nat)
    requires g < generations
    ensures (g + 1) % generations == if g + 1 == generations then 0 else g + 1
  {}

  function Extended<K>(t: Table<K>, count: nat): Table<K> { t.(slots := t.slots + seq(count, i => Vacant(0, false))) }

  lemma ExtendKeepsTable<K>(t: Table<K>, count: nat)
    requires TableOk(t) && |t.slots| + count < t.radix
    ensures TableOk(Extended(t, count))
  {
    var now := Extended(t, count);
    forall j | 0 <= j < |now.slots| ensures SlotOk(now, j) { assert j < |t.slots| ==> SlotOk(t, j); }
    forall x | x in now.live ensures LiveOk(now, x) { assert LiveOk(t, x); }
    forall x | x in now.dead ensures DeadOk(now, x) { assert DeadOk(t, x); }
  }

  // ---------- The table in place ----------

  class Registry<K(==)> {
    const radix: nat
    const generations: nat
    const limit: nat
    var slots: seq<Slot<K>>
    ghost var t: Table<K>

    ghost predicate Valid()
      reads this
    {
      TableOk(t) && t.slots == slots && t.radix == radix && t.generations == generations && |slots| <= limit < radix
    }

    // Sprites start with no slots; fonts and text runs with all of theirs.
    constructor (radix: nat, generations: nat, limit: nat, initial: nat)
      requires radix * generations == INT_MAX + 1 && initial <= limit < radix
      ensures Valid() && fresh(this) && t.live == map[] && t.dead == {}
      ensures this.radix == radix && this.generations == generations && this.limit == limit && |slots| == initial
    {
      this.radix, this.generations, this.limit := radix, generations, limit;
      slots := seq(initial, i => Vacant(0, false));
      t := Table(radix, generations, seq(initial, i => Vacant(0, false)), map[], {});
    }

    /** sprite_get, stasis_font_get, stasis_text_run_get. */
    method Lookup(handle: int) returns (found: bool, slot: int)
      requires Valid() && handle <= INT_MAX
      ensures found <==> handle in t.live
      ensures found ==> 0 <= slot < |slots| && slots[slot].used && t.live[handle] == slots[slot].refs
      ensures found ==> handle == Encode(radix, slot, slots[slot].generation) && slot == SlotOf(radix, handle)
    {
      hide TableOk, Encode;
      FindsIffLive(t, handle);
      found, slot := false, -1;
      if handle <= 0 { return; }
      TableShape(t);
      UnpackingRoundTrips(radix, handle);
      GenerationIsUnmasked(radix, generations, handle);
      var index, generation := handle % radix - 1, handle / radix % generations;
      if index < 0 || index >= |slots| { return; }
      if !slots[index].used || slots[index].retired { return; }
      if slots[index].generation != generation { return; }
      LiveSlot(t, index);
      found, slot := true, index;
    }

    /** ensure_sprite_table_capacity; `memory` is whether the allocation succeeds. */
    method EnsureCapacity(minimum: nat, memory: bool) returns (ok: bool)
      requires Valid()
      modifies this`slots, this`t
      ensures Valid() && t.live == old(t.live) && t.dead == old(t.dead)
      ensures ok <==> minimum <= old(|slots|) || (minimum <= limit && memory)
      ensures old(slots) <= slots && (ok ==> |slots| >= minimum) && (!ok ==> slots == old(slots))
      ensures forall i :: old(|slots|) <= i < |slots| ==> slots[i] == Vacant(0, false)
    {
      if minimum <= |slots| { return true; }
      if minimum > limit { return false; }
      var capacity := if |slots| > 0 then |slots| else if limit < INITIAL_CAPACITY then limit else INITIAL_CAPACITY;
      while capacity < minimum
        invariant 0 < capacity <= limit
      {
        if capacity > limit / 2 { capacity := limit; } else { capacity := capacity * 2; }
      }
      if !memory { return false; }
      ExtendKeepsTable(t, capacity - |slots|);
      t := Extended(t, capacity - |slots|);
      slots := slots + seq(capacity - |slots|, i => Vacant(0, false));
      return true;
    }

    // A live resource has this key; one has, and its count is at its limit; some slot is free.
    ghost predicate IsLoaded(key: K)
      reads this`slots
    {
      exists i :: 0 <= i < |slots| && Owns(slots[i], key)
    }

    ghost predicate IsFull(key: K)
      reads this`slots
    {
      exists i :: 0 <= i < |slots| && Owns(slots[i], key) && slots[i].refs >= INT_MAX &&
        forall j :: 0 <= j < i ==> !Owns(slots[j], key)
    }

    ghost predicate HasFree()
      reads this`slots
    {
      exists i :: 0 <= i < |slots| && !slots[i].used && !slots[i].retired
    }

    // Every slot but one is as it was, and slots added since are vacant.
    twostate predicate OthersKept(slot: int)
      reads this`slots
    {
      && |old(slots)| <= |slots|
      && forall i :: 0 <= i < |slots| && i != slot ==>
           slots[i] == if i < |old(slots)| then old(slots)[i] else Vacant(0, false)
    }

    // The first used slot with the key.
    method FindKey(key: K) returns (slot: int)
      ensures slot == -1 <==> !IsLoaded(key)
      ensures slot != -1 ==> 0 <= slot < |slots| && Owns(slots[slot], key)
      ensures slot != -1 ==> forall j :: 0 <= j < slot ==> !Owns(slots[j], key)
    {
      for i := 0 to |slots|
        invariant forall j :: 0 <= j < i ==> !Owns(slots[j], key)
      {
        if Owns(slots[i], key) { return i; }
      }
      return -1;
    }

    // The first free slot.
    method FindFree() returns (slot: int)
      ensures slot == -1 <==> !HasFree()
      ensures slot != -1 ==> 0 <= slot < |slots| && !slots[slot].used && !slots[slot].retired
      ensures slot != -1 ==> forall j :: 0 <= j < slot ==> slots[j].used || slots[j].retired
    {
      for i := 0 to |slots|
        invariant forall j :: 0 <= j < i ==> slots[j].used || slots[j].retired
      {
        if !slots[i].used && !slots[i].retired { return i; }
      }
      return -1;
    }

    /** stasis_gfx_load_sprite and stasis_load_font: share the live resource with this key, or start a
        new lifetime under a handle that was never issued before. `built` and `memory` say whether the
        rasterising and the allocation the call needs succeed. */
    method Load(key: K, built: bool, memory: bool) returns (handle: int)
      requires Valid()
      modifies this`slots, this`t
      ensures Valid() && t.dead == old(t.dead)
      ensures handle == 0 ==> t.live == old(t.live)
      ensures handle != 0 ==> 0 < handle <= INT_MAX && Holds(handle, key)
      ensures handle != 0 <==>
              && built
              && if old(IsLoaded(key)) then !old(IsFull(key)) else old(HasFree()) || (|old(slots)| < limit && memory)
      ensures handle != 0 ==> (handle in old(t.live) <==> old(IsLoaded(key)))
      ensures OthersKept(if handle == 0 then -1 else SlotOf(radix, handle))
      ensures handle != 0 && handle in old(t.live) ==>
                var i := SlotOf(radix, handle);
                0 <= i < |old(slots)| && slots[i] == old(slots)[i].(refs := old(slots)[i].refs + 1)
      ensures handle != 0 && handle in old(t.live) ==> t.live == old(t.live)[handle := old(t.live)[handle] + 1]
      ensures handle != 0 && handle !in old(t.live) ==> handle !in old(t.dead) && t.live == old(t.live)[handle := 1]
      ensures handle != 0 && handle !in old(t.live) ==>
                forall j :: 0 <= j < SlotOf(radix, handle) && j < |old(slots)| ==>
                  old(slots)[j].used || old(slots)[j].retired
    {
      hide TableOk, Encode;
      var slot := FindKey(key);
      if slot != -1 {
        LiveSlot(t, slot);
        if !built || slots[slot].refs >= INT_MAX { return 0; }
        TableShape(t);
        PackingRoundTrips(radix, slot, slots[slot].generation);
        Recount(slot, slots[slot].refs + 1);
        return Encode(radix, slot, slots[slot].generation);
      }
      slot := FindFree();
      while slot == -1
        invariant Valid() && t.live == old(t.live) && t.dead == old(t.dead) && OthersKept(-1)
        invariant slot != -1 ==> 0 <= slot < |slots| && !slots[slot].used && !slots[slot].retired
        invariant slot != -1 ==>
          forall j :: 0 <= j < slot && j < |old(slots)| ==> old(slots)[j].used || old(slots)[j].retired
        invariant slot == -1 ==> !HasFree() && slots == old(slots)
        invariant slots == old(slots) || (!old(HasFree()) && |old(slots)| < limit && memory)
        decreases limit - |slots|, slot == -1
      {
        var grown := EnsureCapacity(|slots| + 1, memory);
        if !grown { return 0; }
        assert slots[|old(slots)|] == Vacant(0, false);
        slot := FindFree();
      }
      if !built { return 0; }
      ClaimIsNew(t, slot, key);
      TableShape(t);
      PackingRoundTrips(radix, slot, slots[slot].generation);
      handle := Encode(radix, slot, slots[slot].generation);
      t := Claimed(t, slot, key);
      slots := slots[slot := Slot(true, false, slots[slot].generation, 1, Some(key))];
    }

    predicate Holds(handle: int, key: K)
      requires handle > 0 && radix > 0
      reads this`slots
    {
      var i := SlotOf(radix, handle);
      0 <= i < |slots| && Owns(slots[i], key)
    }

    method Recount(slot: nat, refs: nat)
      requires Valid() && slot < |slots| && slots[slot].used && refs >= 1
      modifies this`slots, this`t
      ensures Valid() && t.dead == old(t.dead)
      ensures t.live == old(t.live)[Encode(radix, slot, old(slots[slot]).generation) := refs]
      ensures slots == old(slots)[slot := old(slots[slot]).(refs := refs)]
    {
      hide TableOk, Encode;
      RecountKeepsTable(t, slot, refs);
      t := Recounted(t, slot, refs);
      slots := slots[slot := slots[slot].(refs := refs)];
    }

    method End(slot: nat)
      requires Valid() && slot < |slots| && slots[slot].used
      modifies this`slots, this`t
      ensures Valid() && slots == old(slots)[slot := Successor(old(slots[slot]).generation, generations)]
      ensures var h := Encode(radix, slot, old(slots[slot]).generation);
              h in old(t.live) && t.live == old(t.live) - {h} && t.dead == old(t.dead) + {h}
    {
      hide TableOk, Encode;
      TableShape(t);
      LiveSlot(t, slot);
      EndKeepsTable(t, slot);
      GenerationBound(t, slot);
      NextGeneration(slots[slot].generation, generations);
      t := Ended(t, slot);
      var next := (slots[slot].generation + 1) % generations;
      slots := slots[slot := Vacant(next, next == 0)];
    }

    /** stasis_gfx_release_sprite and stasis_gfx_release_font: live counts are acquisitions minus
        releases, the last release ends the lifetime, and any other handle is ignored. */
    method Release(handle: int)
      requires Valid() && handle <= INT_MAX
      modifies this`slots, this`t
      ensures Valid()
      ensures handle !in old(t.live) ==> t.live == old(t.live) && t.dead == old(t.dead)
      ensures handle in old(t.live) && old(t.live)[handle] > 1 ==>
                t.live == old(t.live)[handle := old(t.live)[handle] - 1] && t.dead == old(t.dead)
      ensures handle in old(t.live) && old(t.live)[handle] <= 1 ==>
                t.live == old(t.live) - {handle} && t.dead == old(t.dead) + {handle}
      ensures OthersKept(if handle in old(t.live) then SlotOf(radix, handle) else -1) && |slots| == |old(slots)|
      ensures handle in old(t.live) && old(t.live)[handle] > 1 ==>
                var i := SlotOf(radix, handle);
                && 0 <= i < |slots| && old(slots)[i].refs > 1
                && slots[i] == old(slots)[i].(refs := old(slots)[i].refs - 1)
      ensures handle in old(t.live) && old(t.live)[handle] <= 1 ==>
                var i := SlotOf(radix, handle);
                0 <= i < |slots| && slots[i] == Successor(old(slots)[i].generation, generations)
    {
      hide TableOk, Encode;
      TableShape(t);
      var found, slot := Lookup(handle);
      if !found { return; }
      if slots[slot].refs > 1 { Recount(slot, slots[slot].refs - 1); } else { End(slot); }
    }

    /** Shutdown of the font table: every live lifetime ends, and no handle of one comes back. */
    method EndAll()
      requires Valid()
      modifies this`slots, this`t
      ensures Valid() && t.live == map[] && t.dead == old(t.dead) + old(t.live).Keys && |slots| == old(|slots|)
      ensures forall i :: 0 <= i < |slots| ==>
                slots[i] ==
                  if old(slots[i]).used then Successor(old(slots[i]).generation, generations) else old(slots[i])
    {
      hide Encode;
      for i := 0 to |slots|
        invariant Valid() && |slots| == old(|slots|)
        invariant forall j :: 0 <= j < i ==>
                    slots[j] ==
                      if old(slots[j]).used then Successor(old(slots[j]).generation, generations) else old(slots[j])
        invariant forall j :: i <= j < |slots| ==> slots[j] == old(slots[j])
        invariant t.dead + t.live.Keys == old(t.dead) + old(t.live).Keys
      {
        if slots[i].used { End(i); }
      }
      NoneLive(t);
    }
  }

  lemma NoneLive<K>(t: Table<K>)
    requires TableOk(t) && forall i :: 0 <= i < |t.slots| ==> !t.slots[i].used
    ensures t.live == map[]
  {
    forall h ensures h !in t.live { assert h in t.live ==> LiveOk(t, h); }
  }

  lemma TableShape<K>(t: Table<K>)
    requires TableOk(t)
    ensures Shape(t)
  {}

  lemma GenerationBound<K>(t: Table<K>, i: nat)
    requires TableOk(t) && i < |t.slots|
    ensures t.slots[i].generation < t.generations
  {
    assert SlotOk(t, i);
  }

  lemma LiveSlot<K>(t: Table<K>, i: nat)
    requires TableOk(t) && i < |t.slots| && t.slots[i].used
    ensures var h := Encode(t.radix, i, t.slots[i].generation);
            h in t.live && t.live[h] == t.slots[i].refs && 0 < h <= INT_MAX && t.slots[i].refs >= 1 &&
              !t.slots[i].retired
  {
    assert SlotOk(t, i);
    PackingFits(t.radix, t.generations, i, t.slots[i].generation);
  }
}
