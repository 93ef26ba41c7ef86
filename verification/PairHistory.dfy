/**
  The history of adjacent sprite draws (runtime/stasis_graphics.c, the pair table).

  A fixed open-addressing table keeps, for each ordered pair of sprite handles, how often
  the pair was drawn back to back in each of the last 64 frames. Entries age lazily: an
  entry is brought up to date only when its pair is seen again, and an entry whose counts
  have all expired may be overwritten in place. The reference is a plain list of the pairs
  observed in every frame since the last reset, counted naively over the window.
*/
module PairHistory {
  import opened Division

  const WINDOW: nat := 64
  const CAPACITY: nat := 16384
  const UINT16_MAX: nat := 65535
  const UINT64: nat := 0x1_0000_0000_0000_0000
  const UINT64_MAX: nat := UINT64 - 1

  datatype Pair = Pair(from: int, to: int) {
    predicate Observable() { from > 0 && to > 0 && from != to }
  }

  // weights[f % 64] is the count of frame f, for the 64 frames up to `last`.
  datatype Entry = Entry(pair: Pair, last: nat, weights: seq<nat>, weight: nat) {
    predicate Live() { pair.from > 0 }
  }

  function Zeros(): seq<nat> { seq(WINDOW, i => 0) }

  const EMPTY := Entry(Pair(0, 0), 0, Zeros(), 0)

  // weight >= expired ? weight - expired : 0
  function Without(weight: nat, expired: nat): nat {
    if weight >= expired then weight - expired else 0
  }

  // ---------- One entry ----------

  // What the entry records about frame f.
  function StoredAt(e: Entry, f: int): nat
    requires |e.weights| == WINDOW
  {
    if e.last - WINDOW < f <= e.last then e.weights[f % WINDOW] else 0
  }

  // The entry's total over frames (lo, hi].
  function SumStored(e: Entry, lo: int, hi: int): nat
    requires |e.weights| == WINDOW
    decreases hi - lo
  {
    if hi <= lo then 0 else SumStored(e, lo, hi - 1) + StoredAt(e, hi)
  }

  ghost predicate Shaped(e: Entry) {
    && |e.weights| == WINDOW
    && (forall i :: 0 <= i < WINDOW ==> e.weights[i] <= UINT16_MAX)
    && e.weight == SumStored(e, e.last - WINDOW, e.last)
  }

  // The entry's total over the window that ends at `now`.
  ghost function InWindow(e: Entry, now: nat): nat
    requires |e.weights| == WINDOW
  {
    SumStored(e, now - WINDOW, now)
  }

  lemma {:induction false} SumOldestFirst(e: Entry, lo: int, hi: int)
    requires |e.weights| == WINDOW && lo < hi
    ensures SumStored(e, lo, hi) == StoredAt(e, lo + 1) + SumStored(e, lo + 1, hi)
    decreases hi - lo
  {
    if lo + 1 < hi { SumOldestFirst(e, lo, hi - 1); }
  }

  lemma {:induction false} SumIgnoresFuture(e: Entry, lo: int, hi: int)
    requires |e.weights| == WINDOW && e.last <= hi
    ensures SumStored(e, lo, hi) == SumStored(e, lo, e.last)
    decreases hi - e.last
  {
    if e.last < hi { SumIgnoresFuture(e, lo, hi - 1); }
  }

  lemma {:induction false} SumPointwise(e: Entry, e': Entry, lo: int, hi: int)
    requires |e.weights| == |e'.weights| == WINDOW
    requires forall f :: lo < f <= hi ==> StoredAt(e, f) == StoredAt(e', f)
    ensures SumStored(e, lo, hi) == SumStored(e', lo, hi)
    decreases hi - lo
  {
    if lo < hi { SumPointwise(e, e', lo, hi - 1); }
  }

  lemma {:induction false} SumBounded(e: Entry, lo: int, hi: int)
    requires Shaped(e) && lo <= hi
    ensures SumStored(e, lo, hi) <= (hi - lo) * UINT16_MAX
    ensures forall f :: lo < f <= hi ==> StoredAt(e, f) <= SumStored(e, lo, hi)
    decreases hi - lo
  {
    if lo < hi { SumBounded(e, lo, hi - 1); }
  }

  // Frame last+step reuses the slot of the oldest frame still counted.
  lemma OldestFrameExpires(e: Entry, step: nat)
    requires |e.weights| == WINDOW && 1 <= step <= WINDOW
    ensures var lo := e.last - WINDOW + step - 1;
            SumStored(e, lo, e.last) == e.weights[(e.last + step) % WINDOW] + SumStored(e, lo + 1, e.last)
  {
    var f := e.last - WINDOW + step;
    assert f % WINDOW == (e.last + step) % WINDOW;
    SumOldestFirst(e, f - 1, e.last);
  }

  // Subtracting the expired frames one at a time gives the total over the moved window.
  method EffectiveWeight(e: Entry, now: nat) returns (weight: nat)
    requires Shaped(e)
    ensures weight == if e.pair.from <= 0 || e.pair.to <= 0 || now < e.last then 0 else InWindow(e, now)
  {
    if e.pair.from <= 0 || e.pair.to <= 0 || now < e.last { return 0; }
    SumIgnoresFuture(e, now - WINDOW, now);
    var age := now - e.last;
    if age >= WINDOW { return 0; }
    weight := e.weight;
    for step := 1 to age + 1
      invariant weight == SumStored(e, e.last - WINDOW + step - 1, e.last)
    {
      var expired := e.weights[(e.last + step) % WINDOW];
      OldestFrameExpires(e, step);
      weight := Without(weight, expired);
    }
  }

  ghost predicate Aged(e: Entry, e': Entry, now: nat) {
    && |e.weights| == WINDOW && Shaped(e')
    && e'.pair == e.pair && e'.last == now
    && forall f :: now - WINDOW < f <= now ==> StoredAt(e', f) == StoredAt(e, f)
  }

  // One frame later: the slot of the frame that fell out is cleared for the new one.
  function NextFrame(e: Entry): Entry
    requires |e.weights| == WINDOW
  {
    var slot := (e.last + 1) % WINDOW;
    Entry(e.pair, e.last + 1, e.weights[slot := 0], Without(e.weight, e.weights[slot]))
  }

  lemma NextFrameAged(e: Entry)
    requires Shaped(e)
    ensures Aged(e, NextFrame(e), e.last + 1)
  {
    var e', now := NextFrame(e), e.last + 1;
    assert now % WINDOW == (now - WINDOW) % WINDOW;
    SumOldestFirst(e, e.last - WINDOW, e.last);
    forall f | now - WINDOW < f <= now ensures StoredAt(e', f) == StoredAt(e, f) {}
    SumPointwise(e, e', now - WINDOW, e.last);
  }

  // The catch-up loop: clears the frames that fell out and keeps the rest.
  method ClearExpired(e: Entry, now: nat) returns (e': Entry)
    requires Shaped(e) && e.last <= now < e.last + WINDOW
    ensures Aged(e, e', now)
  {
    e' := e;
    for step := 1 to now - e.last + 1
      invariant Aged(e, e', e.last + step - 1)
    {
      NextFrameAged(e');
      e' := NextFrame(e');
    }
  }

  method AgeEntry(e: Entry, now: nat) returns (e': Entry)
    requires Shaped(e) && e.Live() && e.last <= now
    ensures Aged(e, e', now)
  {
    if now <= e.last { return e; }
    if now - e.last >= WINDOW {
      e' := Entry(e.pair, now, Zeros(), 0);
      NothingStored(e', now - WINDOW, now);
    } else {
      e' := ClearExpired(e, now);
    }
  }

  lemma {:induction false} NothingStored(e: Entry, lo: int, hi: int)
    requires |e.weights| == WINDOW && forall i :: 0 <= i < WINDOW ==> e.weights[i] == 0
    ensures SumStored(e, lo, hi) == 0
    decreases hi - lo
  {
    if lo < hi { NothingStored(e, lo, hi - 1); }
  }

  // ---------- The reference ----------

  function Occurrences(frame: seq<Pair>, pair: Pair): nat {
    if frame == [] then 0
    else Occurrences(frame[..|frame| - 1], pair) + (if frame[|frame| - 1] == pair then 1 else 0)
  }

  // How often the pair was observed in frame f (frames are numbered from 1).
  function Seen(frames: seq<seq<Pair>>, f: int, pair: Pair): nat {
    if 1 <= f <= |frames| then Occurrences(frames[f - 1], pair) else 0
  }

  function SumSeen(frames: seq<seq<Pair>>, pair: Pair, lo: int, hi: int): nat
    decreases hi - lo
  {
    if hi <= lo then 0 else SumSeen(frames, pair, lo, hi - 1) + Seen(frames, hi, pair)
  }

  /** The naive count: observations of the pair in the last 64 frames. */
  function NaiveCount(frames: seq<seq<Pair>>, pair: Pair): nat {
    SumSeen(frames, pair, |frames| - 64, |frames|)
  }

  // Whether some observation of frame f was dropped.
  predicate Lossy(drops: seq<bool>, f: int) {
    1 <= f <= |drops| && drops[f - 1]
  }

  // ---------- The table ----------

  type Table = t: seq<Entry> | |t| == CAPACITY witness seq(CAPACITY, i => EMPTY)

  function Probe(home: nat, p: nat): nat { (home + p) % CAPACITY }

  // How many probes from `home` reach `slot`.
  function Reach(home: nat, slot: nat): nat
    requires home < CAPACITY && slot < CAPACITY
    ensures Reach(home, slot) < CAPACITY && Probe(home, Reach(home, slot)) == slot
  {
    if slot >= home then slot - home else slot + CAPACITY - home
  }

  ghost predicate EntriesOk(t: Table, now: nat) {
    forall s {:trigger t[s]} :: 0 <= s < CAPACITY ==>
      Shaped(t[s]) && (t[s].Live() ==> t[s].pair.Observable() && t[s].last <= now)
  }

  ghost predicate UniqueKeys(t: Table) {
    forall s, r :: 0 <= s < r < CAPACITY && t[s].Live() ==> t[s].pair != t[r].pair
  }

  function Home(hash: Pair -> nat, pair: Pair): nat { hash(pair) % CAPACITY }

  // No probe sequence meets an empty slot before its key.
  ghost predicate Unbroken(t: Table, hash: Pair -> nat) {
    forall s, p {:trigger t[s], Probe(Home(hash, t[s].pair), p)} ::
      0 <= s < CAPACITY && t[s].Live() && 0 <= p < Reach(Home(hash, t[s].pair), s) ==>
        t[Probe(Home(hash, t[s].pair), p)].pair.from != 0
  }

  ghost predicate TableOk(t: Table, hash: Pair -> nat, now: nat) {
    EntriesOk(t, now) && UniqueKeys(t) && Unbroken(t, hash)
  }

  ghost predicate Absent(t: Table, pair: Pair) {
    forall s :: 0 <= s < CAPACITY ==> t[s].pair != pair
  }

  // Counts never exceed the reference, and are exact on frames where nothing was dropped.
  ghost predicate EntryExact(e: Entry, frames: seq<seq<Pair>>, drops: seq<bool>, f: int)
    requires |e.weights| == WINDOW
  {
    && StoredAt(e, f) <= Seen(frames, f, e.pair)
    && (!Lossy(drops, f) ==> StoredAt(e, f) == Seen(frames, f, e.pair))
  }

  ghost predicate Exact(t: Table, frames: seq<seq<Pair>>, drops: seq<bool>)
    requires forall s :: 0 <= s < CAPACITY ==> |t[s].weights| == WINDOW
  {
    && |frames| == |drops|
    && (forall s, f {:trigger EntryExact(t[s], frames, drops, f)} ::
          0 <= s < CAPACITY && t[s].Live() && |frames| - WINDOW < f <= |frames| ==>
            EntryExact(t[s], frames, drops, f))
    && (forall pair: Pair, f: int {:trigger Seen(frames, f, pair)} ::
          pair.from > 0 && Absent(t, pair) && |frames| - WINDOW < f <= |frames| && !Lossy(drops, f) ==>
            Seen(frames, f, pair) == 0)
  }

  // ---------- The overflow window ----------

  // The drop flags as a binary number, newest frame in bit 0.
  function Bits(drops: seq<bool>): nat {
    if drops == [] then 0
    else 2 * Bits(drops[..|drops| - 1]) + (if drops[|drops| - 1] then 1 else 0)
  }

  function Pow2(n: nat): nat
    ensures Pow2(n) > 0
  {
    if n == 0 then 1 else 2 * Pow2(n - 1)
  }

  lemma Pow64()
    ensures Pow2(WINDOW) == UINT64
  {
    assert Pow2(0) == 1;
    Pow2Byte(0); Pow2Byte(8); Pow2Byte(16); Pow2Byte(24);
    Pow2Byte(32); Pow2Byte(40); Pow2Byte(48); Pow2Byte(56);
  }

  lemma Pow2Byte(n: nat)
    ensures Pow2(n + 8) == 256 * Pow2(n)
  {
    assert Pow2(n + 2) == 4 * Pow2(n);
    assert Pow2(n + 4) == 4 * Pow2(n + 2);
    assert Pow2(n + 6) == 4 * Pow2(n + 4);
  }

  lemma ShiftMod(x: nat, bit: nat, m: nat)
    requires m > 0 && bit <= 1
    ensures (2 * x + bit) % (2 * m) == 2 * (x % m) + bit
  {
    assert x == m * (x / m) + x % m;
    assert 2 * x + bit == (2 * m) * (x / m) + (2 * (x % m) + bit);
    Quotient(2 * x + bit, 2 * m, x / m, 2 * (x % m) + bit);
  }

  /** The low n bits are zero exactly when the newest n frames dropped nothing. */
  lemma {:induction false} LowBitsZero(drops: seq<bool>, n: nat)
    ensures Bits(drops) % Pow2(n) == 0 <==>
            forall f :: |drops| - n < f <= |drops| ==> !Lossy(drops, f)
    decreases n
  {
    if n > 0 && drops != [] {
      var rest, bit := drops[..|drops| - 1], drops[|drops| - 1];
      ShiftMod(Bits(rest), if bit then 1 else 0, Pow2(n - 1));
      LowBitsZero(rest, n - 1);
      assert forall f :: f <= |rest| ==> Lossy(drops, f) == Lossy(rest, f);
      assert Lossy(drops, |drops|) == bit;
      assert (forall f :: |drops| - n < f <= |drops| ==> !Lossy(drops, f)) <==>
             (!Lossy(drops, |drops|) && forall f :: |rest| - (n - 1) < f <= |rest| ==> !Lossy(rest, f));
    }
  }

  // ---------- Searching and updating the table ----------

  lemma ReachOfProbe(home: nat, p: nat)
    requires home < CAPACITY && p < CAPACITY
    ensures Probe(home, p) < CAPACITY && Reach(home, Probe(home, p)) == p
  {}

  // A key not met before the end of its probe sequence is nowhere in the table.
  lemma MissedMeansAbsent(t: Table, hash: Pair -> nat, pair: Pair, end: nat)
    requires Unbroken(t, hash) && pair.from > 0 && end <= CAPACITY
    requires forall p :: 0 <= p < end ==> t[Probe(Home(hash, pair), p)].pair != pair
    requires end < CAPACITY ==> t[Probe(Home(hash, pair), end)].pair.from == 0
    ensures Absent(t, pair)
  {
    forall s | 0 <= s < CAPACITY ensures t[s].pair != pair {
      var home := Home(hash, t[s].pair);
      assert t[s].Live() && end < Reach(home, s) ==> t[Probe(home, end)].pair.from != 0;
    }
  }

  ghost predicate Reusable(e: Entry, now: nat)
    requires |e.weights| == WINDOW
  {
    e.Live() ==> InWindow(e, now) == 0
  }

  // Where an absent pair may go: its probe sequence reaches the slot without a gap.
  ghost predicate Insertable(t: Table, hash: Pair -> nat, now: nat, pair: Pair, slot: nat)
    requires EntriesOk(t, now)
  {
    && slot < CAPACITY && Absent(t, pair) && Reusable(t[slot], now)
    && forall p :: 0 <= p < Reach(Home(hash, pair), slot) ==> t[Probe(Home(hash, pair), p)].pair.from != 0
  }

  lemma PutKeepsTable(t: Table, hash: Pair -> nat, now: nat, slot: nat, e: Entry)
    requires TableOk(t, hash, now) && slot < CAPACITY
    requires Shaped(e) && e.pair.Observable() && e.last <= now
    requires t[slot].pair == e.pair || Insertable(t, hash, now, e.pair, slot)
    ensures TableOk(t[slot := e], hash, now)
  {
    var t': Table := t[slot := e];
    assert EntriesOk(t', now);
    forall s, p | 0 <= s < CAPACITY && t'[s].Live() && 0 <= p < Reach(Home(hash, t'[s].pair), s)
      ensures t'[Probe(Home(hash, t'[s].pair), p)].pair.from != 0
    {
      var q := Probe(Home(hash, t'[s].pair), p);
      if s != slot || t[slot].pair == e.pair {
        assert t[s].pair == t'[s].pair;
        assert t[q].pair.from != 0;
      }
    }
  }

  lemma ExpiredCountsAreZero(e: Entry, now: nat)
    requires Shaped(e) && InWindow(e, now) == 0
    ensures forall f :: now - WINDOW < f <= now ==> StoredAt(e, f) == 0
  {
    SumBounded(e, now - WINDOW, now);
  }

  // Bringing an entry up to date changes no count of the window: lazy ageing is eager ageing.
  lemma AgedKeepsExact(t: Table, hash: Pair -> nat, slot: nat, e: Entry, frames: seq<seq<Pair>>, drops: seq<bool>)
    requires TableOk(t, hash, |frames|) && Exact(t, frames, drops)
    requires slot < CAPACITY && t[slot].Live() && Aged(t[slot], e, |frames|)
    ensures Exact(t[slot := e], frames, drops)
  {
    var t': Table := t[slot := e];
    forall s, f | 0 <= s < CAPACITY && t'[s].Live() && |frames| - WINDOW < f <= |frames|
      ensures EntryExact(t'[s], frames, drops, f)
    {
      assert EntryExact(t[s], frames, drops, f);
    }
    forall pair: Pair | Absent(t', pair) ensures Absent(t, pair) {
      assert t'[slot].pair != pair;
      forall s | 0 <= s < CAPACITY ensures t[s].pair != pair { assert t'[s].pair != pair; }
    }
  }

  // Overwriting an expired entry forgets only zero counts.
  lemma FreshKeepsExact(t: Table, hash: Pair -> nat, slot: nat, e: Entry, frames: seq<seq<Pair>>, drops: seq<bool>)
    requires TableOk(t, hash, |frames|) && Exact(t, frames, drops)
    requires e.pair.from > 0 && e.last == |frames| && e.weights == Zeros()
    requires Insertable(t, hash, |frames|, e.pair, slot)
    ensures Exact(t[slot := e], frames, drops)
  {
    var t': Table, old' := t[slot := e], t[slot];
    forall s, f | 0 <= s < CAPACITY && t'[s].Live() && |frames| - WINDOW < f <= |frames|
      ensures EntryExact(t'[s], frames, drops, f)
    {
      if s != slot { assert EntryExact(t[s], frames, drops, f); }
    }
    if old'.Live() { ExpiredCountsAreZero(old', |frames|); }
    forall pair: Pair, f: int | pair.from > 0 && Absent(t', pair) && |frames| - WINDOW < f <= |frames| &&
      !Lossy(drops, f)
      ensures Seen(frames, f, pair) == 0
    {
      if pair == old'.pair {
        assert EntryExact(t[slot], frames, drops, f);
      } else {
        forall s | 0 <= s < CAPACITY ensures t[s].pair != pair {
          if s != slot { assert t'[s].pair != pair; }
        }
      }
    }
  }

  function Bumped(e: Entry, now: nat): Entry
    requires |e.weights| == WINDOW
  {
    var slot := now % WINDOW;
    e.(weights := e.weights[slot := e.weights[slot] + 1], weight := SaturatingAdd(e.weight, 1))
  }

  function SaturatingAdd(a: nat, b: nat): nat {
    if a > UINT64_MAX - Min(b, UINT64_MAX) then UINT64_MAX else a + b
  }

  function Min(a: nat, b: nat): nat { if a < b then a else b }

  lemma BumpedStores(e: Entry, now: nat)
    requires Shaped(e) && e.last == now && e.weights[now % WINDOW] < UINT16_MAX
    ensures Shaped(Bumped(e, now))
    ensures forall f :: now - WINDOW < f <= now ==>
              StoredAt(Bumped(e, now), f) == StoredAt(e, f) + (if f == now then 1 else 0)
  {
    var e' := Bumped(e, now);
    SumBounded(e, now - WINDOW, now);
    SumPointwise(e, e', now - WINDOW, now - 1);
  }

  // The reference with one more observation in the current frame.
  function Noted(frames: seq<seq<Pair>>, pair: Pair): seq<seq<Pair>>
    requires frames != []
  {
    frames[|frames| - 1 := frames[|frames| - 1] + [pair]]
  }

  lemma NotedSeen(frames: seq<seq<Pair>>, pair: Pair, f: int, q: Pair)
    requires frames != []
    ensures Seen(Noted(frames, pair), f, q) == Seen(frames, f, q) + (if f == |frames| && q == pair then 1 else 0)
  {
    var frame := frames[|frames| - 1];
    assert (frame + [pair])[..|frame|] == frame;
  }

  lemma BumpKeepsExact(t: Table, hash: Pair -> nat, slot: nat, frames: seq<seq<Pair>>, drops: seq<bool>)
    requires frames != [] && TableOk(t, hash, |frames|) && Exact(t, frames, drops)
    requires slot < CAPACITY && t[slot].Live() && t[slot].last == |frames|
    requires t[slot].weights[|frames| % WINDOW] < UINT16_MAX
    ensures TableOk(t[slot := Bumped(t[slot], |frames|)], hash, |frames|)
    ensures Exact(t[slot := Bumped(t[slot], |frames|)], Noted(frames, t[slot].pair), drops)
  {
    var e, now := t[slot], |frames|;
    var e' := Bumped(e, now);
    BumpedStores(e, now);
    PutKeepsTable(t, hash, now, slot, e');
    var t': Table, frames' := t[slot := e'], Noted(frames, e.pair);
    forall s, f | 0 <= s < CAPACITY && t'[s].Live() && now - WINDOW < f <= now
      ensures EntryExact(t'[s], frames', drops, f)
    {
      assert EntryExact(t[s], frames, drops, f);
      NotedSeen(frames, e.pair, f, t[s].pair);
      assert s < slot ==> t[s].pair != e.pair;
    }
    forall pair: Pair, f: int | pair.from > 0 && Absent(t', pair) && now - WINDOW < f <= now && !Lossy(drops, f)
      ensures Seen(frames', f, pair) == 0
    {
      NotedSeen(frames, e.pair, f, pair);
      forall s | 0 <= s < CAPACITY ensures t[s].pair != pair { assert t'[s].pair == t[s].pair; }
    }
  }

  // Dropping an observation marks the frame and leaves the counts below the reference.
  lemma DropKeepsExact(t: Table, hash: Pair -> nat, pair: Pair, frames: seq<seq<Pair>>, drops: seq<bool>)
    requires frames != [] && TableOk(t, hash, |frames|) && Exact(t, frames, drops)
    ensures Exact(t, Noted(frames, pair), drops[|drops| - 1 := true])
  {
    var drops', frames', now := drops[|drops| - 1 := true], Noted(frames, pair), |frames|;
    forall s, f | 0 <= s < CAPACITY && t[s].Live() && now - WINDOW < f <= now
      ensures EntryExact(t[s], frames', drops', f)
    {
      assert EntryExact(t[s], frames, drops, f);
      NotedSeen(frames, pair, f, t[s].pair);
    }
    forall q: Pair, f: int | q.from > 0 && Absent(t, q) && now - WINDOW < f <= now && !Lossy(drops', f)
      ensures Seen(frames', f, q) == 0
    {
      NotedSeen(frames, pair, f, q);
    }
  }

  lemma FrameKeepsExact(t: Table, hash: Pair -> nat, frames: seq<seq<Pair>>, drops: seq<bool>)
    requires TableOk(t, hash, |frames|) && Exact(t, frames, drops)
    ensures TableOk(t, hash, |frames| + 1) && Exact(t, frames + [[]], drops + [false])
  {
    var frames', drops' := frames + [[]], drops + [false];
    forall s, f | 0 <= s < CAPACITY && t[s].Live() && |frames'| - WINDOW < f <= |frames'|
      ensures EntryExact(t[s], frames', drops', f)
    {
      if f <= |frames| { assert EntryExact(t[s], frames, drops, f); }
    }
    forall q: Pair, f: int | q.from > 0 && Absent(t, q) && |frames'| - WINDOW < f <= |frames'| && !Lossy(drops', f)
      ensures Seen(frames', f, q) == 0
    {
      assert Seen(frames', f, q) == Seen(frames, f, q);
    }
  }

  // A new frame shifts the drop flags by one.
  lemma NextBits(drops: seq<bool>)
    ensures 2 * (Bits(drops) % UINT64) % UINT64 == Bits(drops + [false]) % UINT64
  {
    assert (drops + [false])[..|drops|] == drops;
    ShiftedRemainder(Bits(drops), UINT64);
  }

  lemma ShiftedRemainder(x: nat, n: nat)
    requires n > 0
    ensures 2 * (x % n) % n == 2 * x % n
  {
    var q, r := x / n, x % n;
    assert x == q * n + r;
    if 2 * r < n {
      Quotient(2 * r, n, 0, 2 * r);
      Quotient(2 * x, n, 2 * q, 2 * r);
    } else {
      assert (2 * q + 1) * n == 2 * (q * n) + n;
      Quotient(2 * r, n, 1, 2 * r - n);
      Quotient(2 * x, n, 2 * q + 1, 2 * r - n);
    }
  }

  lemma EmptyTable(t: Table, hash: Pair -> nat)
    requires forall s :: 0 <= s < CAPACITY ==> t[s] == EMPTY
    ensures TableOk(t, hash, 0) && Exact(t, [], [])
  {
    var e := t[0];
    NothingStored(e, e.last - WINDOW, e.last);
  }

  // ---------- Main result on values ----------

  lemma {:induction false} StoredSumsMatch(e: Entry, frames: seq<seq<Pair>>, lo: int, hi: int)
    requires |e.weights| == WINDOW
    requires forall f :: lo < f <= hi ==> StoredAt(e, f) == Seen(frames, f, e.pair)
    ensures SumStored(e, lo, hi) == SumSeen(frames, e.pair, lo, hi)
    decreases hi - lo
  {
    if lo < hi { StoredSumsMatch(e, frames, lo, hi - 1); }
  }

  lemma {:induction false} StoredSumsBelow(e: Entry, frames: seq<seq<Pair>>, lo: int, hi: int)
    requires |e.weights| == WINDOW
    requires forall f :: lo < f <= hi ==> StoredAt(e, f) <= Seen(frames, f, e.pair)
    ensures SumStored(e, lo, hi) <= SumSeen(frames, e.pair, lo, hi)
    decreases hi - lo
  {
    if lo < hi { StoredSumsBelow(e, frames, lo, hi - 1); }
  }

  lemma {:induction false} UnseenSum(frames: seq<seq<Pair>>, pair: Pair, lo: int, hi: int)
    requires forall f :: lo < f <= hi ==> Seen(frames, f, pair) == 0
    ensures SumSeen(frames, pair, lo, hi) == 0
    decreases hi - lo
  {
    if lo < hi { UnseenSum(frames, pair, lo, hi - 1); }
  }

  // What the table answers for a pair.
  ghost predicate Reports(t: Table, now: nat, pair: Pair, count: nat)
    requires EntriesOk(t, now)
  {
    && (forall s :: 0 <= s < CAPACITY && t[s].pair == pair ==> InWindow(t[s], now) == count)
    && (Absent(t, pair) ==> count == 0)
  }

  /** With no drop in the window, every pair's reported weight is its naive count. */
  lemma CleanWindowIsExact(t: Table, hash: Pair -> nat, frames: seq<seq<Pair>>, drops: seq<bool>, pair: Pair)
    requires TableOk(t, hash, |frames|) && Exact(t, frames, drops) && pair.from > 0
    requires Bits(drops) % UINT64 == 0
    ensures Reports(t, |frames|, pair, NaiveCount(frames, pair))
  {
    var now := |frames|;
    Pow64();
    LowBitsZero(drops, WINDOW);
    forall s | 0 <= s < CAPACITY && t[s].pair == pair
      ensures InWindow(t[s], now) == NaiveCount(frames, pair)
    {
      forall f | now - WINDOW < f <= now ensures StoredAt(t[s], f) == Seen(frames, f, pair) {
        assert EntryExact(t[s], frames, drops, f);
      }
      StoredSumsMatch(t[s], frames, now - WINDOW, now);
    }
    if Absent(t, pair) { UnseenSum(frames, pair, now - WINDOW, now); }
  }

  /** Drops or not, no pair is ever reported more often than it was observed. */
  lemma NeverOverReports(t: Table, hash: Pair -> nat, frames: seq<seq<Pair>>, drops: seq<bool>, s: nat)
    requires TableOk(t, hash, |frames|) && Exact(t, frames, drops)
    requires s < CAPACITY && t[s].Live()
    ensures InWindow(t[s], |frames|) <= NaiveCount(frames, t[s].pair)
  {
    var now := |frames|;
    forall f | now - WINDOW < f <= now ensures StoredAt(t[s], f) <= Seen(frames, f, t[s].pair) {
      assert EntryExact(t[s], frames, drops, f);
    }
    StoredSumsBelow(t[s], frames, now - WINDOW, now);
  }

  // ---------- The table in place ----------

  class History {
    const hash: Pair -> nat
    const table: array<Entry>
    var frame: nat
    var overflow: nat
    var framesSeen: nat
    ghost var frames: seq<seq<Pair>>  // observations per frame since the last reset
    ghost var drops: seq<bool>        // frames in which an observation was dropped

    ghost predicate Valid()
      reads this, table
    {
      && table.Length == CAPACITY
      && frame == |frames| <= UINT64_MAX
      && framesSeen == Min(frame, WINDOW)
      && TableOk(table[..], hash, frame)
      && Exact(table[..], frames, drops)
      && overflow == Bits(drops) % UINT64
    }

    constructor (hash: Pair -> nat)
      ensures Valid() && frames == [] && drops == [] && fresh(table) && table.Length == 16384
    {
      this.hash := hash;
      table := new Entry[CAPACITY](i => EMPTY);
      frame, overflow, framesSeen := 0, 0, 0;
      frames, drops := [], [];
      new;
      EmptyTable(table[..], hash);
    }

    method Reset()
      requires table.Length == CAPACITY
      modifies this, table
      ensures Valid() && frames == [] && drops == []
    {
      forall i | 0 <= i < table.Length { table[i] := EMPTY; }
      frame, overflow, framesSeen := 0, 0, 0;
      frames, drops := [], [];
      EmptyTable(table[..], hash);
    }

    method BeginFrame()
      requires Valid()
      modifies this, table
      ensures Valid()
      ensures frames == (if old(frame) == 0xFFFF_FFFF_FFFF_FFFF then [] else old(frames)) + [[]]
      ensures drops == (if old(frame) == 0xFFFF_FFFF_FFFF_FFFF then [] else old(drops)) + [false]
    {
      hide TableOk, Exact, Bits;
      if frame == UINT64_MAX { Reset(); }
      FrameKeepsExact(table[..], hash, frames, drops);
      NextBits(drops);
      frame := frame + 1;
      overflow := 2 * overflow % UINT64;
      if framesSeen < WINDOW { framesSeen := framesSeen + 1; }
      frames, drops := frames + [[]], drops + [false];
    }

    // Probes for the pair: its own slot, else the first empty or expired slot on the way.
    method FindSlot(pair: Pair) returns (found: int)
      requires Valid() && pair.Observable()
      ensures -1 <= found < CAPACITY
      ensures found >= 0 ==> table[found].pair == pair || Insertable(table[..], hash, frame, pair, found)
      ensures found < 0 ==> Absent(table[..], pair)
      ensures found < 0 ==> forall s :: 0 <= s < CAPACITY ==> table[s].Live() && InWindow(table[s], frame) > 0
    {
      hide Exact, UniqueKeys, Unbroken, SumStored, Bits;
      var home, candidate := hash(pair) % CAPACITY, -1;
      ghost var t: Table := table[..];
      for probe := 0 to CAPACITY
        invariant forall p :: 0 <= p < probe ==> t[Probe(home, p)].pair != pair && t[Probe(home, p)].pair.from != 0
        invariant -1 <= candidate < CAPACITY
        invariant candidate >= 0 ==> Reach(home, candidate) < probe && Reusable(t[candidate], frame)
        invariant candidate < 0 ==> forall p :: 0 <= p < probe ==>
                    t[Probe(home, p)].Live() && InWindow(t[Probe(home, p)], frame) > 0
      {
        var slot := (home + probe) % CAPACITY;
        ReachOfProbe(home, probe);
        var entry := table[slot];
        if entry.pair.from == 0 {
          MissedMeansAbsent(t, hash, pair, probe);
          return if candidate < 0 then slot else candidate;
        }
        if entry.pair.from < 0 {
          if candidate < 0 { candidate := slot; }
        } else if entry.pair == pair {
          return slot;
        } else if candidate < 0 {
          var weight := EffectiveWeight(entry, frame);
          if weight == 0 { candidate := slot; }
        }
      }
      MissedMeansAbsent(t, hash, pair, CAPACITY);
      if candidate < 0 {
        forall s | 0 <= s < CAPACITY ensures table[s].Live() && InWindow(table[s], frame) > 0 {
          var p := Reach(home, s);
          assert t[Probe(home, p)] == table[s];
        }
      }
      return candidate;
    }

    // Finds or claims the pair's entry and brings it up to the current frame.
    method Locate(pair: Pair) returns (found: int)
      requires Valid() && pair.Observable()
      modifies table
      ensures Valid() && -1 <= found < CAPACITY
      ensures found >= 0 ==> table[found].pair == pair && table[found].last == frame
      ensures found < 0 ==> forall s :: 0 <= s < CAPACITY ==>
                old(table[s]).Live() && InWindow(old(table[s]), frame) > 0
    {
      found := FindSlot(pair);
      if found < 0 { return; }
      ghost var t: Table := table[..];
      var e := table[found];
      if e.pair != pair {
        e := Entry(pair, frame, Zeros(), 0);
        NothingStored(e, frame - WINDOW, frame);
        FreshKeepsExact(t, hash, found, e, frames, drops);
      } else {
        e := AgeEntry(e, frame);
        AgedKeepsExact(t, hash, found, e, frames, drops);
      }
      PutKeepsTable(t, hash, frame, found, e);
      table[found] := e;
      assert table[..] == t[found := e];
    }

    // Marks the current frame: an observation in it was dropped.
    method NoteDrop(pair: Pair)
      requires Valid() && frame > 0
      modifies this
      ensures Valid() && frames == Noted(old(frames), pair) && drops == old(drops)[frame - 1 := true]
      ensures unchanged(table) && frame == old(frame)
    {
      DropKeepsExact(table[..], hash, pair, frames, drops);
      SetLowBit(drops);
      overflow := if overflow % 2 == 0 then overflow + 1 else overflow;
      frames, drops := Noted(frames, pair), drops[frame - 1 := true];
    }

    /** One adjacent draw. The reference gains it; the table counts it, or drops it and
        flags the frame: only when every slot holds a pair seen within the window, or when
        the pair's 16-bit count for this frame is full. */
    method Observe(pair: Pair) returns (ghost dropped: bool)
      requires Valid() && frame > 0
      modifies this, table
      ensures Valid() && frame == old(frame)
      ensures frames == if pair.Observable() then Noted(old(frames), pair) else old(frames)
      ensures drops == if dropped then old(drops)[frame - 1 := true] else old(drops)
      ensures dropped ==> pair.Observable()
      ensures dropped ==>
        || (forall s :: 0 <= s < 16384 ==> old(table[s]).Live() && InWindow(old(table[s]), frame) > 0)
        || Seen(old(frames), frame, pair) >= 65535
    {
      if pair.from <= 0 || pair.to <= 0 || pair.from == pair.to { return false; }
      var found := Locate(pair);
      if found < 0 { NoteDrop(pair); return true; }
      var e := table[found];
      ghost var t: Table := table[..];
      assert t[found] == e && Shaped(e);
      if e.weights[frame % WINDOW] == UINT16_MAX {
        assert EntryExact(t[found], frames, drops, frame);
        NoteDrop(pair);
        return true;
      }
      BumpKeepsExact(t, hash, found, frames, drops);
      table[found] := Bumped(e, frame);
      assert table[..] == t[found := Bumped(e, frame)];
      frames := Noted(frames, pair);
      return false;
    }

    /** The weight reported for a slot. With a zero overflow window it is the naive count
        of the slot's pair; it never exceeds that count. */
    method Report(slot: nat) returns (pair: Pair, weight: nat)
      requires Valid() && slot < CAPACITY
      ensures pair == table[slot].pair
      ensures pair.from > 0 ==> weight <= NaiveCount(frames, pair)
      ensures pair.from > 0 && overflow == 0 ==> weight == NaiveCount(frames, pair)
      ensures pair.from <= 0 ==> weight == 0
      ensures overflow == 0 <==> forall f :: |drops| - 64 < f <= |drops| ==> !Lossy(drops, f)
    {
      Pow64();
      LowBitsZero(drops, 64);
      var e := table[slot];
      ghost var t: Table := table[..];
      assert t[slot] == e && Shaped(e);
      pair := e.pair;
      weight := EffectiveWeight(e, frame);
      if pair.from > 0 {
        NeverOverReports(t, hash, frames, drops, slot);
        if overflow == 0 { CleanWindowIsExact(t, hash, frames, drops, pair); }
      }
    }
  }

  lemma SetLowBit(drops: seq<bool>)
    requires drops != []
    ensures var x := Bits(drops) % UINT64;
            Bits(drops[|drops| - 1 := true]) % UINT64 == if x % 2 == 0 then x + 1 else x
  {
    var rest := drops[..|drops| - 1];
    assert drops[|drops| - 1 := true][..|drops| - 1] == rest;
    ShiftMod(Bits(rest), 0, UINT64 / 2);
    ShiftMod(Bits(rest), 1, UINT64 / 2);
  }
}
