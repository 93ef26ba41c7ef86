/**
  The cached text runs (runtime/stasis_graphics.c): immutable runs share one byte buffer and are
  deduplicated by font and text; when a font is released its runs are invalidated and the buffer is
  compacted. Replaceable runs have storage of their own. This file holds the lemmas about runs as
  values: room, compaction, adding, handles and replaceable storage.
*/
module TextRuns {
  import opened ByteText
  import opened CInts
  import opened Handles

  const RADIX: nat := 2048
  const MAX_DYNAMIC_RUNS: nat := 16
  const MAX_DYNAMIC_BYTES: nat := 1024
  const MAX_RUNS: nat := 1024
  const MAX_BYTES: nat := 262144
  const MAX_LENGTH: nat := 8192
  const GENERATIONS: nat := 0x10_0000

  datatype Run = Run(active: bool, retired: bool, generation: nat, font: int, hash: nat, off: int, len: int,
                     dynamic: bool, dynamicSlot: int)

  function Blank(generation: nat, retired: bool): Run { Run(false, retired, generation, 0, 0, 0, 0, false, 0) }

  // An active immutable run.
  function Cached(generation: nat, font: int, hash: nat, off: nat, len: nat): Run {
    Run(true, false, generation, font, hash, off, len, false, 0)
  }

  // A run whose text lies in the shared buffer.
  predicate Stored(r: Run) { r.active && !r.dynamic }

  predicate RunOk(hash: Bytes -> nat, bytes: Bytes, used: nat, r: Run)
    requires used <= |bytes|
  {
    && (!r.active ==> r == Blank(r.generation, r.retired))
    && (r.active ==> !r.retired && r.font > 0)
    && (Stored(r) ==> r.len > 0 && 0 <= r.off && r.off + r.len + 1 <= used && bytes[r.off + r.len] == 0 &&
                      r.hash == hash(bytes[r.off..r.off + r.len]))
  }

  predicate Elsewhere(a: Run, b: Run) { a.off + a.len + 1 <= b.off || b.off + b.len + 1 <= a.off }

  function TextOf(bytes: Bytes, r: Run): Bytes {
    if 0 <= r.off && 0 <= r.len && r.off + r.len <= |bytes| then bytes[r.off..r.off + r.len] else []
  }

  // Stored runs do not overlap, and no two have the same font and text.
  predicate PairOk(bytes: Bytes, a: Run, b: Run) {
    Stored(a) && Stored(b) ==> Elsewhere(a, b) && !(a.font == b.font && TextOf(bytes, a) == TextOf(bytes, b))
  }

  ghost predicate CacheOk(hash: Bytes -> nat, bytes: Bytes, used: nat, runs: seq<Run>) {
    && used <= |bytes|
    && (forall i :: 0 <= i < |runs| ==> RunOk(hash, bytes, used, runs[i]))
    && (forall i, j :: 0 <= i < j < |runs| ==> PairOk(bytes, runs[i], runs[j]))
  }

  // ---------- Room ----------

  function Size(r: Run): int { if Stored(r) then r.len + 1 else 0 }

  // Bytes the stored runs before slot n take when packed.
  function Packed(runs: seq<Run>, n: nat): int
    requires n <= |runs|
  {
    if n == 0 then 0 else Packed(runs, n - 1) + Size(runs[n - 1])
  }

  function Range(a: int, b: int): (r: set<int>)
    ensures forall p :: p in r <==> a <= p < b
    decreases b - a
  {
    if a >= b then {} else Range(a, b - 1) + {b - 1}
  }

  lemma {:induction false} RangeSize(a: int, b: int)
    requires a <= b
    ensures |Range(a, b)| == b - a
    decreases b - a
  {
    if a < b { RangeSize(a, b - 1); }
  }

  lemma SubsetSize(a: set<int>, b: set<int>)
    requires a <= b
    ensures |a| <= |b|
  {
    assert b == a + (b - a);
  }

  function Span(r: Run): set<int> { if Stored(r) then Range(r.off, r.off + r.len + 1) else {} }

  function Spans(runs: seq<Run>, n: nat): set<int>
    requires n <= |runs|
  {
    if n == 0 then {} else Spans(runs, n - 1) + Span(runs[n - 1])
  }

  lemma {:induction false} SpansApart(hash: Bytes -> nat, bytes: Bytes, used: nat, runs: seq<Run>, n: nat, k: nat)
    requires CacheOk(hash, bytes, used, runs) && n <= k < |runs|
    ensures Spans(runs, n) !! Span(runs[k])
  {
    if n > 0 {
      SpansApart(hash, bytes, used, runs, n - 1, k);
      assert RunOk(hash, bytes, used, runs[n - 1]) && RunOk(hash, bytes, used, runs[k]) &&
               PairOk(bytes, runs[n - 1], runs[k]);
    }
  }

  lemma {:induction false} SpansSize(hash: Bytes -> nat, bytes: Bytes, used: nat, runs: seq<Run>, n: nat)
    requires CacheOk(hash, bytes, used, runs) && n <= |runs|
    ensures |Spans(runs, n)| == Packed(runs, n) && Spans(runs, n) <= Range(0, used)
  {
    hide CacheOk, Range, Span, Size;
    if n > 0 {
      SpansSize(hash, bytes, used, runs, n - 1);
      SpansApart(hash, bytes, used, runs, n - 1, n - 1);
      SpanSize(hash, bytes, used, runs, n - 1);
      UnionSize(Spans(runs, n - 1), Span(runs[n - 1]));
    }
  }

  lemma UnionSize(a: set<int>, b: set<int>)
    requires a !! b
    ensures |a + b| == |a| + |b|
  {}

  lemma SpanSize(hash: Bytes -> nat, bytes: Bytes, used: nat, runs: seq<Run>, k: nat)
    requires CacheOk(hash, bytes, used, runs) && k < |runs|
    ensures |Span(runs[k])| == Size(runs[k]) && Span(runs[k]) <= Range(0, used)
  {
    assert RunOk(hash, bytes, used, runs[k]);
    if Stored(runs[k]) { RangeSize(runs[k].off, runs[k].off + runs[k].len + 1); }
  }

  /** Because stored runs never overlap, packing them always fits where they were. */
  lemma PackedFits(hash: Bytes -> nat, bytes: Bytes, used: nat, runs: seq<Run>, n: nat)
    requires CacheOk(hash, bytes, used, runs) && n <= |runs|
    ensures 0 <= Packed(runs, n) <= used
  {
    SpansSize(hash, bytes, used, runs, n);
    SubsetSize(Spans(runs, n), Range(0, used));
    RangeSize(0, used);
  }

  // ---------- Invalidating ----------

  // A run's lifetime ends: its generation moves on, and a wrapped one retires the slot.
  function EndedRun(r: Run): Run {
    var next := (r.generation + 1) % GENERATIONS;
    Blank(next, next == 0)
  }

  // A slot after its first n lifetimes.
  function After(n: nat): Run { if n == 0 then Blank(0, false) else EndedRun(After(n - 1)) }

  /** A text run's slot serves 2^20 lifetimes, under handles 2048 apart, and then no more. */
  lemma {:induction false} SlotLifetimes(slot: nat, n: nat)
    requires slot < 1024 && n <= 0x10_0000
    ensures n < 0x10_0000 ==> After(n) == Blank(n, false) && Encode(RADIX, slot, n) == 2048 * n + slot + 1
    ensures n == 0x10_0000 ==> After(n) == Blank(0, true)
  {
    if n > 0 {
      SlotLifetimes(slot, n - 1);
      NextGeneration(n - 1, GENERATIONS);
    }
  }

  function Released(r: Run, font: int): Run { if r.active && r.font == font then EndedRun(r) else r }

  lemma DroppingKeepsCache(hash: Bytes -> nat, bytes: Bytes, used: nat, runs: seq<Run>, now: seq<Run>)
    requires CacheOk(hash, bytes, used, runs) && |now| == |runs|
    requires forall i :: 0 <= i < |runs| ==> now[i] == runs[i] || now[i] == EndedRun(runs[i])
    ensures CacheOk(hash, bytes, used, now)
  {
    forall i | 0 <= i < |now| ensures RunOk(hash, bytes, used, now[i]) { assert RunOk(hash, bytes, used, runs[i]); }
    forall i, j | 0 <= i < j < |now| ensures PairOk(bytes, now[i], now[j]) { assert PairOk(bytes, runs[i], runs[j]); }
  }

  // ---------- Compacting ----------

  lemma {:induction false} PackedGrows(runs: seq<Run>, i: nat, j: nat)
    requires i <= j <= |runs| && forall k :: 0 <= k < |runs| ==> Size(runs[k]) >= 0
    ensures 0 <= Packed(runs, i) <= Packed(runs, j)
    decreases j
  {
    if i < j { PackedGrows(runs, i, j - 1); } else if i > 0 { PackedGrows(runs, i - 1, i - 1); }
  }

  // Run i after compaction: stored text moves to the front of the buffer in slot order.
  function Compacted(runs: seq<Run>, i: nat): Run
    requires i < |runs|
  {
    if Stored(runs[i]) then runs[i].(off := Packed(runs, i)) else runs[i]
  }

  // The copied text of run i, with its terminator.
  predicate Copied(bytes: Bytes, packed: Bytes, runs: seq<Run>, i: nat)
    requires i < |runs|
  {
    var r, to := runs[i], Packed(runs, i);
    Stored(r) && 0 <= r.off && 0 <= r.len && r.off + r.len < |bytes| ==>
      0 <= to && to + r.len < |packed| && packed[to..to + r.len + 1] == bytes[r.off..r.off + r.len + 1]
  }

  /** Compacting keeps the cache sound and every run's text, and leaves no gap. */
  lemma CompactingKeepsCache(hash: Bytes -> nat, bytes: Bytes, used: nat, runs: seq<Run>, packed: Bytes, now: seq<Run>)
    requires CacheOk(hash, bytes, used, runs) && |now| == |runs| && |packed| == |bytes|
    requires forall i :: 0 <= i < |runs| ==> now[i] == Compacted(runs, i) && Copied(bytes, packed, runs, i)
    ensures 0 <= Packed(runs, |runs|) <= used && CacheOk(hash, packed, Packed(runs, |runs|), now)
    ensures forall i :: 0 <= i < |runs| && Stored(runs[i]) ==>
              TextOf(packed, now[i]) == TextOf(bytes, runs[i])
  {
    hide RunOk, Copied, TextOf;
    PackedFits(hash, bytes, used, runs, |runs|);
    var end := Packed(runs, |runs|);
    forall i | 0 <= i < |runs|
      ensures RunOk(hash, bytes, used, runs[i]) && RunOk(hash, packed, end, now[i])
      ensures Stored(runs[i]) ==> TextOf(packed, now[i]) == TextOf(bytes, runs[i])
    {
      CompactedRun(hash, bytes, used, runs, packed, i);
    }
    SizesAreNatural(hash, bytes, used, runs);
    forall i, j | 0 <= i < j < |now| ensures PairOk(packed, now[i], now[j]) {
      assert PairOk(bytes, runs[i], runs[j]);
      PackedGrows(runs, i + 1, j);
    }
  }

  lemma SizesAreNatural(hash: Bytes -> nat, bytes: Bytes, used: nat, runs: seq<Run>)
    requires CacheOk(hash, bytes, used, runs)
    ensures forall k :: 0 <= k < |runs| ==> Size(runs[k]) >= 0
  {
    forall k | 0 <= k < |runs| ensures Size(runs[k]) >= 0 { assert RunOk(hash, bytes, used, runs[k]); }
  }

  lemma CompactedRun(hash: Bytes -> nat, bytes: Bytes, used: nat, runs: seq<Run>, packed: Bytes, i: nat)
    requires CacheOk(hash, bytes, used, runs) && i < |runs| && |packed| == |bytes| && Copied(bytes, packed, runs, i)
    ensures 0 <= Packed(runs, |runs|) <= used
    ensures RunOk(hash, bytes, used, runs[i]) && RunOk(hash, packed, Packed(runs, |runs|), Compacted(runs, i))
    ensures Stored(runs[i]) ==> TextOf(packed, Compacted(runs, i)) == TextOf(bytes, runs[i])
  {
    hide CacheOk, Packed;
    var r, to, end := runs[i], Packed(runs, i), Packed(runs, |runs|);
    PackedFits(hash, bytes, used, runs, |runs|);
    RunIsOk(hash, bytes, used, runs, i);
    PackedPlace(hash, bytes, used, runs, i);
    if Stored(r) {
      SamePiece(packed, to, bytes, r.off, r.len);
    }
  }

  lemma SamePiece(a: Bytes, i: nat, b: Bytes, j: nat, n: nat)
    requires i + n + 1 <= |a| && j + n + 1 <= |b| && a[i..i + n + 1] == b[j..j + n + 1]
    ensures a[i..i + n] == b[j..j + n] && a[i + n] == b[j + n]
  {
    LastApart(a, i, i + n);
    LastApart(b, j, j + n);
  }

  lemma LastApart(a: Bytes, i: nat, last: nat)
    requires i <= last < |a|
    ensures a[i..last] == a[i..last + 1][..last - i] && a[last] == a[i..last + 1][last - i]
  {
    var piece := a[i..last + 1];
    assert piece == a[i..last] + [a[last]];
  }

  lemma RunIsOk(hash: Bytes -> nat, bytes: Bytes, used: nat, runs: seq<Run>, i: nat)
    requires CacheOk(hash, bytes, used, runs) && i < |runs|
    ensures used <= |bytes| && RunOk(hash, bytes, used, runs[i])
  {}

  lemma PackedPlace(hash: Bytes -> nat, bytes: Bytes, used: nat, runs: seq<Run>, i: nat)
    requires CacheOk(hash, bytes, used, runs) && i < |runs|
    ensures 0 <= Packed(runs, i) && Packed(runs, i) + Size(runs[i]) == Packed(runs, i + 1) <= Packed(runs, |runs|)
  {
    SizesAreNatural(hash, bytes, used, runs);
    PackedGrows(runs, i + 1, |runs|);
    PackedGrows(runs, i, i);
  }

  // ---------- Adding ----------

  lemma AddingKeepsCache(hash: Bytes -> nat, bytes: Bytes, used: nat, runs: seq<Run>, slot: nat, font: int,
      text: Bytes, now: Bytes)
    requires CacheOk(hash, bytes, used, runs) && slot < |runs| && !runs[slot].active && !runs[slot].retired && font > 0
    requires |now| == |bytes| && used + |text| + 1 <= |bytes| && text != []
    requires now[..used + |text| + 1] == bytes[..used] + (text + [0])
    requires forall i :: 0 <= i < |runs| && Stored(runs[i]) ==>
               !(runs[i].font == font && TextOf(bytes, runs[i]) == text)
    ensures var r := Cached(runs[slot].generation, font, hash(text), used, |text|);
            CacheOk(hash, now, used + |text| + 1, runs[slot := r]) && TextOf(now, r) == text
  {
    var r := Cached(runs[slot].generation, font, hash(text), used, |text|);
    var all, end := runs[slot := r], used + |text| + 1;
    var head := now[..end];
    assert head[used..used + |text|] == text && now[used..used + |text|] == head[used..used + |text|];
    assert now[used + |text|] == head[used + |text|] == 0;
    assert now[..used] == head[..used] == bytes[..used];
    forall i | 0 <= i < |runs| && i != slot
      ensures RunOk(hash, now, end, runs[i]) && PairOk(now, runs[i], r) && PairOk(now, r, runs[i])
      ensures RunOk(hash, bytes, used, runs[i]) && (Stored(runs[i]) ==> TextOf(now, runs[i]) == TextOf(bytes, runs[i]))
    {
      KeptRun(hash, bytes, used, runs[i], now, end);
    }
    forall i, j | 0 <= i < j < |all| ensures PairOk(now, all[i], all[j]) {
      if i != slot && j != slot { assert PairOk(bytes, runs[i], runs[j]); }
    }
  }

  lemma KeptRun(hash: Bytes -> nat, bytes: Bytes, used: nat, r: Run, now: Bytes, end: nat)
    requires used <= |bytes| && RunOk(hash, bytes, used, r) && used <= end <= |now| && now[..used] == bytes[..used]
    ensures RunOk(hash, now, end, r) && (Stored(r) ==> TextOf(now, r) == TextOf(bytes, r))
  {
    if Stored(r) {
      assert now[r.off..r.off + r.len] == now[..used][r.off..r.off + r.len];
      assert bytes[r.off..r.off + r.len] == bytes[..used][r.off..r.off + r.len];
      assert now[..used][r.off + r.len] == bytes[..used][r.off + r.len];
    }
  }

  // The stored texts with their terminators, in slot order.
  function Pieces(bytes: Bytes, runs: seq<Run>, n: nat): Bytes
    requires n <= |runs|
  {
    if n == 0 then [] else Pieces(bytes, runs, n - 1) + Piece(bytes, runs[n - 1])
  }

  function Piece(bytes: Bytes, r: Run): Bytes {
    if Stored(r) && 0 <= r.off && 0 <= r.len && r.off + r.len < |bytes| then bytes[r.off..r.off + r.len + 1] else []
  }

  lemma {:induction false} PiecesLength(hash: Bytes -> nat, bytes: Bytes, used: nat, runs: seq<Run>, n: nat)
    requires CacheOk(hash, bytes, used, runs) && n <= |runs|
    ensures |Pieces(bytes, runs, n)| == Packed(runs, n)
  {
    hide CacheOk, RunOk, Piece, Size;
    if n > 0 {
      PiecesLength(hash, bytes, used, runs, n - 1);
      RunIsOk(hash, bytes, used, runs, n - 1);
      PieceLength(hash, bytes, used, runs[n - 1]);
    }
  }

  lemma PieceLength(hash: Bytes -> nat, bytes: Bytes, used: nat, r: Run)
    requires used <= |bytes| && RunOk(hash, bytes, used, r)
    ensures |Piece(bytes, r)| == Size(r)
  {}

  lemma {:induction false} PiecesAreCopied(hash: Bytes -> nat, bytes: Bytes, used: nat, runs: seq<Run>, packed: Bytes,
      n: nat, i: nat)
    requires CacheOk(hash, bytes, used, runs) && i < n <= |runs|
    requires |Pieces(bytes, runs, n)| <= |packed| && packed[..|Pieces(bytes, runs, n)|] == Pieces(bytes, runs, n)
    ensures Copied(bytes, packed, runs, i)
  {
    hide CacheOk, Packed, Piece, Copied;
    var init, piece := Pieces(bytes, runs, n - 1), Piece(bytes, runs[n - 1]);
    assert packed[..|init + piece|] == init + piece;
    Prefixes(packed, init, piece);
    if i < n - 1 {
      PiecesAreCopied(hash, bytes, used, runs, packed, n - 1, i);
    } else {
      PiecesLength(hash, bytes, used, runs, i);
      PieceIsCopied(bytes, packed, runs, i);
    }
  }

  lemma Prefixes(s: Bytes, a: Bytes, b: Bytes)
    requires |a + b| <= |s| && s[..|a + b|] == a + b
    ensures s[..|a|] == a && s[|a|..|a| + |b|] == b
  {
    assert s[..|a|] == s[..|a + b|][..|a|];
    assert s[|a|..|a| + |b|] == s[..|a + b|][|a|..];
  }

  lemma PieceIsCopied(bytes: Bytes, packed: Bytes, runs: seq<Run>, i: nat)
    requires i < |runs| && 0 <= Packed(runs, i) && Packed(runs, i) + |Piece(bytes, runs[i])| <= |packed|
    requires packed[Packed(runs, i)..Packed(runs, i) + |Piece(bytes, runs[i])|] == Piece(bytes, runs[i])
    ensures Copied(bytes, packed, runs, i)
  {
    hide Packed;
  }

  lemma AtMost(hash: Bytes -> nat, bytes: Bytes, used: nat, runs: seq<Run>)
    requires CacheOk(hash, bytes, used, runs)
    ensures used <= |bytes|
  {}

  // Writing past the used part changes no stored text.
  lemma KeptTexts(hash: Bytes -> nat, bytes: Bytes, used: nat, runs: seq<Run>, now: Bytes)
    requires CacheOk(hash, bytes, used, runs) && used <= |now| && now[..used] == bytes[..used]
    ensures forall i :: 0 <= i < |runs| && Stored(runs[i]) ==> TextOf(now, runs[i]) == TextOf(bytes, runs[i])
  {
    forall i | 0 <= i < |runs| && Stored(runs[i]) ensures TextOf(now, runs[i]) == TextOf(bytes, runs[i]) {
      KeptRun(hash, bytes, used, runs[i], now, used);
    }
  }

  lemma KeptCache(hash: Bytes -> nat, bytes: Bytes, used: nat, runs: seq<Run>, now: Bytes)
    requires CacheOk(hash, bytes, used, runs) && used <= |now| && now[..used] == bytes[..used]
    ensures CacheOk(hash, now, used, runs)
  {
    KeptTexts(hash, bytes, used, runs, now);
    forall i | 0 <= i < |runs|
      ensures RunOk(hash, now, used, runs[i]) { KeptRun(hash, bytes, used, runs[i], now, used); }
    forall i, j | 0 <= i < j < |runs| ensures PairOk(now, runs[i], runs[j]) { assert PairOk(bytes, runs[i], runs[j]); }
  }

  lemma EmptyCache(hash: Bytes -> nat, bytes: Bytes, used: nat, runs: seq<Run>)
    requires CacheOk(hash, bytes, used, runs) && forall i :: 0 <= i < |runs| ==> !runs[i].active
    ensures CacheOk(hash, bytes, 0, runs)
  {
    forall i | 0 <= i < |runs| ensures RunOk(hash, bytes, 0, runs[i]) { assert RunOk(hash, bytes, used, runs[i]); }
  }

  lemma PackedStart(bytes: Bytes, runs: seq<Run>)
    ensures Packed(runs, 0) == 0 && Pieces(bytes, runs, 0) == []
  {}

  // Run i passes the compaction's checks, and what it adds.
  lemma PackNext(hash: Bytes -> nat, bytes: Bytes, used: nat, runs: seq<Run>, i: nat)
    requires CacheOk(hash, bytes, used, runs) && i < |runs|
    ensures used <= |bytes| && 0 <= Packed(runs, i) && Packed(runs, i + 1) == Packed(runs, i) + Size(runs[i]) <= used
    ensures Stored(runs[i]) ==> runs[i].len > 0 && 0 <= runs[i].off && runs[i].off + runs[i].len + 1 <= used
    ensures Pieces(bytes, runs, i + 1) == Pieces(bytes, runs, i) + Piece(bytes, runs[i])
    ensures !Stored(runs[i]) ==> Pieces(bytes, runs, i + 1) == Pieces(bytes, runs, i)
  {
    RunIsOk(hash, bytes, used, runs, i);
    PackedFits(hash, bytes, used, runs, i + 1);
    PackedFits(hash, bytes, used, runs, i);
  }

  lemma {:induction false} PackedAgrees(runs: seq<Run>, now: seq<Run>, n: nat)
    requires |now| == |runs| && n <= |runs| && forall i :: 0 <= i < |runs| ==> now[i] == Compacted(runs, i)
    ensures Packed(now, n) == Packed(runs, n)
  {
    if n > 0 {
      PackedAgrees(runs, now, n - 1);
      assert now[n - 1] == Compacted(runs, n - 1);
    }
  }

  lemma PackedTogether(hash: Bytes -> nat, bytes: Bytes, used: nat, runs: seq<Run>, packed: Bytes, now: seq<Run>)
    requires CacheOk(hash, bytes, used, runs) && |now| == |runs| && |packed| == |bytes|
    requires forall i :: 0 <= i < |runs| ==> now[i] == Compacted(runs, i)
    requires 0 <= Packed(runs, |runs|) <= |packed| && packed[..Packed(runs, |runs|)] == Pieces(bytes, runs, |runs|)
    ensures CacheOk(hash, packed, Packed(runs, |runs|), now) && Packed(runs, |runs|) == Packed(now, |now|)
    ensures forall i :: 0 <= i < |runs| && Stored(runs[i]) ==> TextOf(packed, now[i]) == TextOf(bytes, runs[i])
    ensures forall i :: 0 <= i < |now| && Stored(now[i]) ==> now[i].off == Packed(now, i)
  {
    hide CacheOk, TextOf, Packed, Copied, Pieces;
    AllCopied(hash, bytes, used, runs, packed);
    forall i | 0 <= i <= |runs| ensures Packed(now, i) == Packed(runs, i) { PackedAgrees(runs, now, i); }
    CompactingKeepsCache(hash, bytes, used, runs, packed, now);
  }

  lemma AllCopied(hash: Bytes -> nat, bytes: Bytes, used: nat, runs: seq<Run>, packed: Bytes)
    requires CacheOk(hash, bytes, used, runs)
    requires 0 <= Packed(runs, |runs|) <= |packed| && packed[..Packed(runs, |runs|)] == Pieces(bytes, runs, |runs|)
    ensures forall i :: 0 <= i < |runs| ==> Copied(bytes, packed, runs, i)
  {
    hide CacheOk, Packed, Copied, Pieces;
    PiecesLength(hash, bytes, used, runs, |runs|);
    forall i | 0 <= i < |runs| ensures Copied(bytes, packed, runs, i) {
      PiecesAreCopied(hash, bytes, used, runs, packed, |runs|, i);
    }
  }

  // ---------- Handles ----------

  // The handle of slot i as it stands.
  function HandleAt(runs: seq<Run>, i: nat): nat
    requires i < |runs|
  {
    Encode(RADIX, i, runs[i].generation)
  }

  ghost function LiveOf(runs: seq<Run>): set<int> {
    set i | 0 <= i < |runs| && runs[i].active :: HandleAt(runs, i)
  }

  ghost function OfFont(runs: seq<Run>, font: int): set<int> {
    set i | 0 <= i < |runs| && runs[i].active && runs[i].font == font :: HandleAt(runs, i)
  }

  // A handle whose lifetime is over: its slot has moved on or is retired.
  predicate IsOver(runs: seq<Run>, h: int) {
    h > 0 && 0 <= SlotOf(RADIX, h) < |runs| &&
    (runs[SlotOf(RADIX, h)].retired || GenerationOf(RADIX, h) < runs[SlotOf(RADIX, h)].generation)
  }

  ghost predicate HandlesOk(runs: seq<Run>, dead: set<int>) {
    && |runs| == MAX_RUNS
    && (forall i :: 0 <= i < |runs| ==> runs[i].generation < GENERATIONS && !(runs[i].active && runs[i].retired))
    && (forall h :: h in dead ==> IsOver(runs, h))
  }

  lemma HandleParts(runs: seq<Run>, i: nat)
    requires |runs| == MAX_RUNS && i < |runs| && runs[i].generation < GENERATIONS
    ensures SlotOf(RADIX, HandleAt(runs, i)) == i && GenerationOf(RADIX, HandleAt(runs, i)) == runs[i].generation
    ensures 0 < HandleAt(runs, i) <= INT_MAX
  {
    PackingRoundTrips(RADIX, i, runs[i].generation);
    PackingFits(RADIX, GENERATIONS, i, runs[i].generation);
  }

  /** A handle is live exactly while its slot is active in its generation. */
  lemma LiveIff(runs: seq<Run>, dead: set<int>, h: int)
    requires HandlesOk(runs, dead) && 0 < h <= INT_MAX
    ensures h in LiveOf(runs) <==>
            && 0 <= SlotOf(RADIX, h) < |runs| && runs[SlotOf(RADIX, h)].active
            && runs[SlotOf(RADIX, h)].generation == GenerationOf(RADIX, h)
    ensures GenerationOf(RADIX, h) % GENERATIONS == GenerationOf(RADIX, h)
  {
    GenerationIsUnmasked(RADIX, GENERATIONS, h);
    UnpackingRoundTrips(RADIX, h);
    if h in LiveOf(runs) {
      var i :| 0 <= i < |runs| && runs[i].active && HandleAt(runs, i) == h;
      HandleParts(runs, i);
    }
  }

  /** No handle whose lifetime is over is live. */
  lemma OverIsNotLive(runs: seq<Run>, dead: set<int>)
    requires HandlesOk(runs, dead)
    ensures LiveOf(runs) !! dead
  {
    forall h | h in LiveOf(runs) ensures h !in dead {
      var i :| 0 <= i < |runs| && runs[i].active && HandleAt(runs, i) == h;
      HandleParts(runs, i);
    }
  }

  /** A free slot's handle was never issued: it is neither live nor over. */
  lemma FreeHandleIsNew(runs: seq<Run>, dead: set<int>, slot: nat)
    requires HandlesOk(runs, dead) && slot < |runs| && !runs[slot].active && !runs[slot].retired
    ensures HandleAt(runs, slot) !in LiveOf(runs) && HandleAt(runs, slot) !in dead
  {
    HandleParts(runs, slot);
    forall i | 0 <= i < |runs| && runs[i].active
      ensures HandleAt(runs, i) != HandleAt(runs, slot) { HandleParts(runs, i); }
  }

  // Putting an active run with the same generation into a slot that is not retired.
  lemma FillingKeepsHandles(runs: seq<Run>, dead: set<int>, slot: nat, r: Run)
    requires HandlesOk(runs, dead) && slot < |runs| && !runs[slot].retired
    requires r.active && !r.retired && r.generation == runs[slot].generation
    ensures HandlesOk(runs[slot := r], dead) && LiveOf(runs[slot := r]) == LiveOf(runs) + {HandleAt(runs, slot)}
  {
    var now := runs[slot := r];
    assert forall i :: 0 <= i < |runs| ==> HandleAt(now, i) == HandleAt(runs, i);
    forall h ensures h in LiveOf(now) <==> h in LiveOf(runs) || h == HandleAt(runs, slot) {
      if h in LiveOf(runs) {
        var i :| 0 <= i < |runs| && runs[i].active && HandleAt(runs, i) == h;
        assert now[i].active && HandleAt(now, i) == h;
      }
      assert now[slot].active && HandleAt(now, slot) == HandleAt(runs, slot);
    }
  }

  // Changing neither activity nor generation anywhere.
  lemma SameHandles(runs: seq<Run>, dead: set<int>, now: seq<Run>)
    requires HandlesOk(runs, dead) && |now| == |runs|
    requires forall i :: 0 <= i < |runs| ==>
               now[i].active == runs[i].active && now[i].retired == runs[i].retired &&
                 now[i].generation == runs[i].generation
    ensures HandlesOk(now, dead) && LiveOf(now) == LiveOf(runs)
  {
    forall h ensures h in LiveOf(now) <==> h in LiveOf(runs) {
      if h in LiveOf(now) {
        var i :| 0 <= i < |now| && now[i].active && HandleAt(now, i) == h;
        assert HandleAt(runs, i) == h;
      }
      if h in LiveOf(runs) {
        var i :| 0 <= i < |runs| && runs[i].active && HandleAt(runs, i) == h;
        assert HandleAt(now, i) == h;
      }
    }
  }

  // Ending the runs of a set of slots.
  ghost function EndedOf(runs: seq<Run>, now: seq<Run>): set<int>
    requires |now| == |runs|
  {
    set i | 0 <= i < |runs| && runs[i].active && !now[i].active :: HandleAt(runs, i)
  }

  /** Ending runs moves exactly their handles from live to over, and none of them comes back. */
  lemma EndingMovesHandles(runs: seq<Run>, dead: set<int>, now: seq<Run>)
    requires HandlesOk(runs, dead) && |now| == |runs|
    requires forall i :: 0 <= i < |runs| ==> now[i] == runs[i] || (runs[i].active && now[i] == EndedRun(runs[i]))
    ensures HandlesOk(now, dead + EndedOf(runs, now)) && LiveOf(now) == LiveOf(runs) - EndedOf(runs, now)
  {
    forall i | 0 <= i < |runs| ensures now[i].generation < GENERATIONS && !(now[i].active && now[i].retired) {}
    forall h | h in dead + EndedOf(runs, now) ensures IsOver(now, h) {
      if h in dead {
        EndingKeepsOver(runs, now, h);
      } else {
        var i :| 0 <= i < |runs| && runs[i].active && !now[i].active && HandleAt(runs, i) == h;
        HandleParts(runs, i);
        NextGeneration(runs[i].generation, GENERATIONS);
      }
    }
    forall h ensures h in LiveOf(now) <==>
      h in LiveOf(runs) && h !in EndedOf(runs, now) { EndedHandle(runs, dead, now, h); }
  }

  lemma EndingKeepsOver(runs: seq<Run>, now: seq<Run>, h: int)
    requires |now| == |runs| && IsOver(runs, h)
    requires forall i :: 0 <= i < |runs| ==>
               && runs[i].generation < GENERATIONS && !(runs[i].active && runs[i].retired)
               && (now[i] == runs[i] || (runs[i].active && now[i] == EndedRun(runs[i])))
    ensures IsOver(now, h)
  {
    var i := SlotOf(RADIX, h);
    NextGeneration(runs[i].generation, GENERATIONS);
  }

  lemma EndedHandle(runs: seq<Run>, dead: set<int>, now: seq<Run>, h: int)
    requires HandlesOk(runs, dead) && |now| == |runs|
    requires forall i :: 0 <= i < |runs| ==> now[i] == runs[i] || (runs[i].active && now[i] == EndedRun(runs[i]))
    ensures h in LiveOf(now) <==> h in LiveOf(runs) && h !in EndedOf(runs, now)
  {
    if h in LiveOf(now) {
      var i :| 0 <= i < |now| && now[i].active && HandleAt(now, i) == h;
      HandleParts(runs, i);
      assert HandleAt(runs, i) == h;
      forall j | 0 <= j < |runs| && runs[j].active && !now[j].active
        ensures HandleAt(runs, j) != h { HandleParts(runs, j); }
    }
    if h in LiveOf(runs) && h !in EndedOf(runs, now) {
      var i :| 0 <= i < |runs| && runs[i].active && HandleAt(runs, i) == h;
      assert now[i].active && HandleAt(now, i) == h;
    }
  }

  // ---------- Replaceable runs ----------

  predicate Replaceable(r: Run) { r.active && r.dynamic }

  predicate DynamicRunOk(texts: seq<Bytes>, r: Run) {
    Replaceable(r) ==> 0 <= r.dynamicSlot < |texts| && |texts[r.dynamicSlot]| == r.len && 0 < r.len < MAX_DYNAMIC_BYTES
  }

  // Every replaceable run has bounded storage of its own.
  ghost predicate DynamicOk(texts: seq<Bytes>, runs: seq<Run>) {
    && |texts| == MAX_DYNAMIC_RUNS
    && (forall i :: 0 <= i < |runs| ==> DynamicRunOk(texts, runs[i]))
    && (forall i, j :: 0 <= i < j < |runs| && Replaceable(runs[i]) && Replaceable(runs[j]) ==>
          runs[i].dynamicSlot != runs[j].dynamicSlot)
  }

  // Runs that are replaceable afterwards were so before, in the same storage.
  lemma FewerKeepsDynamic(texts: seq<Bytes>, runs: seq<Run>, now: seq<Run>)
    requires DynamicOk(texts, runs) && |now| == |runs|
    requires forall i :: 0 <= i < |runs| && Replaceable(now[i]) ==> now[i] == runs[i]
    ensures DynamicOk(texts, now)
  {
    forall i | 0 <= i < |now| ensures DynamicRunOk(texts, now[i]) { assert DynamicRunOk(texts, runs[i]); }
  }

  lemma ReplacingKeepsDynamic(texts: seq<Bytes>, runs: seq<Run>, slot: nat, r: Run, text: Bytes)
    requires DynamicOk(texts, runs) && slot < |runs| && Replaceable(r) && 0 <= r.dynamicSlot < |texts|
    requires r.len == |text| && 0 < |text| < MAX_DYNAMIC_BYTES
    requires forall i :: 0 <= i < |runs| && i != slot && Replaceable(runs[i]) ==> runs[i].dynamicSlot != r.dynamicSlot
    ensures DynamicOk(texts[r.dynamicSlot := text], runs[slot := r])
  {
    var now, all := texts[r.dynamicSlot := text], runs[slot := r];
    forall i | 0 <= i < |all| ensures DynamicRunOk(now, all[i]) { assert i != slot ==> DynamicRunOk(texts, runs[i]); }
  }

  // A replaceable run in a slot that holds no stored text keeps the stored ones.
  lemma ReplacingKeepsCache(hash: Bytes -> nat, bytes: Bytes, used: nat, runs: seq<Run>, slot: nat, r: Run)
    requires CacheOk(hash, bytes, used, runs) && slot < |runs| && !Stored(runs[slot])
    requires Replaceable(r) && !r.retired && r.font > 0
    ensures CacheOk(hash, bytes, used, runs[slot := r])
  {
    var now := runs[slot := r];
    forall i | 0 <= i < |now| ensures RunOk(hash, bytes, used, now[i]) { assert RunOk(hash, bytes, used, runs[i]); }
    forall i, j | 0 <= i < j < |now| ensures PairOk(bytes, now[i], now[j]) { assert PairOk(bytes, runs[i], runs[j]); }
  }
}
