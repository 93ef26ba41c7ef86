/**
  The PNG writer (runtime/stasis_image_writer.c): scanlines with filter 0, a zlib stream of
  stored DEFLATE blocks with a deferred-modulo Adler-32, and chunks with CRC-32.

  The references are decoders written from the standards: stored blocks (section 3.2.4 of
  RFC 1951), the zlib container and Adler-32 (section 2.2 of RFC 1950), and PNG chunks.
*/
module PngWriter {
  import opened Options
  import opened ByteText
  import opened CInts

  const BASE: nat := 65521
  const ADLER_BLOCK: nat := 5552
  const MAX_STORED: nat := 65535

  // ---------- Adler-32 ----------

  // The per-byte definition of section 2.2 of RFC 1950.
  function AdlerA(data: Bytes): nat {
    if data == [] then 1 else (AdlerA(data[..|data| - 1]) + data[|data| - 1]) % 65521
  }

  function AdlerB(data: Bytes): nat {
    if data == [] then 0 else (AdlerB(data[..|data| - 1]) + AdlerA(data)) % 65521
  }

  function Adler(data: Bytes): nat { AdlerB(data) * 65536 + AdlerA(data) }

  lemma AdlerBounds(data: Bytes)
    ensures AdlerA(data) < BASE && AdlerB(data) < BASE && Adler(data) < UINT32
  {}

  /** Zero bytes leave the first sum at one, and the second counts them modulo 65521. */
  lemma {:induction false} AdlerOfZeros(data: Bytes)
    requires forall i :: 0 <= i < |data| ==> data[i] == 0
    ensures AdlerA(data) == 1 && AdlerB(data) == |data| % 65521
  {
    if data != [] {
      AdlerOfZeros(data[..|data| - 1]);
      NextResidue(|data| - 1);
    }
  }

  lemma NextResidue(n: nat)
    ensures (n % 65521 + 1) % 65521 == (n + 1) % 65521
  {}

  // Unreduced sums stand for the checksum of the first k bytes.
  predicate Congruent(data: Bytes, k: nat, a: nat, b: nat)
    requires k <= |data|
  {
    a % BASE == AdlerA(data[..k]) && b % BASE == AdlerB(data[..k])
  }

  lemma CongruentAtStart(data: Bytes, k: nat)
    requires k <= |data|
    ensures Congruent(data, k, AdlerA(data[..k]), AdlerB(data[..k]))
  {
    AdlerBounds(data[..k]);
  }

  // uint32_t arithmetic.
  function Wrapped(n: nat): nat { n % UINT32 }

  lemma NoWrap(n: nat)
    ensures n < UINT32 ==> Wrapped(n) == n
  {}

  // Adding one byte to unreduced sums keeps them congruent to the definition.
  lemma AdlerStep(data: Bytes, k: nat, a: nat, b: nat)
    requires k < |data| && Congruent(data, k, a, b)
    ensures Congruent(data, k + 1, a + data[k], b + (a + data[k]))
  {
    assert data[..k + 1][..k] == data[..k];
    AddMod(a, data[k]);
    AddMod(b, a + data[k]);
    AddMod(a + data[k], b % BASE);
  }

  lemma AddMod(x: nat, y: nat)
    ensures (x + y) % BASE == (x % BASE + y) % BASE
  {}

  // The largest either sum can be after i bytes of a block.
  function WorstA(i: nat): nat { BASE - 1 + 255 * i }
  function WorstB(i: nat): nat { if i == 0 then BASE - 1 else WorstB(i - 1) + WorstA(i) }

  lemma {:induction false} WorstBClosed(i: nat)
    ensures 2 * WorstB(i) == 2 * (BASE - 1) * (i + 1) + 255 * i * (i + 1)
  {
    if i > 0 { WorstBClosed(i - 1); }
  }

  lemma {:induction false} WorstBGrows(i: nat, n: nat)
    requires i <= n
    ensures WorstB(i) <= WorstB(n)
    decreases n - i
  {
    if i < n { WorstBGrows(i, n - 1); }
  }

  /** Neither 32-bit sum can overflow within a block of 5552 bytes, and 5552 is the most. */
  lemma BlockIsTheLargestSafe(i: nat, n: nat)
    requires n == ADLER_BLOCK
    ensures i <= n ==> WorstA(i) < UINT32 && WorstB(i) < UINT32
    ensures WorstB(n + 1) >= UINT32
  {
    WorstBClosed(n);
    WorstBClosed(n + 1);
    if i <= n { WorstBGrows(i, n); }
  }

  lemma SumsFit(i: nat)
    requires i <= ADLER_BLOCK
    ensures WorstA(i) < UINT32 && WorstB(i) < UINT32
  {
    BlockIsTheLargestSafe(i, ADLER_BLOCK);
  }

  /** png_adler32: sums modulo 2^32, reduced once per block, equal the per-byte definition. */
  method Adler32(data: Bytes) returns (checksum: nat)
    ensures checksum == Adler(data) && checksum < UINT32
  {
    var a, b, offset := 1, 0, 0;
    while offset < |data|
      invariant offset <= |data| && a == AdlerA(data[..offset]) && b == AdlerB(data[..offset])
      decreases |data| - offset
    {
      AdlerBounds(data[..offset]);
      var block := |data| - offset;
      if block > ADLER_BLOCK { block := ADLER_BLOCK; }
      a, b := SumBlock(data, offset, block, a, b);
      a, b := a % BASE, b % BASE;
      offset := offset + block;
    }
    assert data[..|data|] == data;
    AdlerBounds(data);
    checksum := b * 65536 + a;
  }

  method SumBlock(data: Bytes, offset: nat, block: nat, a0: nat, b0: nat) returns (a: nat, b: nat)
    requires offset + block <= |data| && block <= ADLER_BLOCK
    requires a0 == AdlerA(data[..offset]) && b0 == AdlerB(data[..offset]) && a0 < BASE && b0 < BASE
    ensures Congruent(data, offset + block, a, b)
  {
    hide AdlerA, AdlerB, Congruent, Wrapped;
    a, b := a0, b0;
    CongruentAtStart(data, offset);
    for i := 0 to block
      invariant Congruent(data, offset + i, a, b)
      invariant a <= WorstA(i) && b <= WorstB(i)
    {
      AdlerStep(data, offset + i, a, b);
      SumsFit(i + 1);
      NoWrap(a + data[offset + i]);
      NoWrap(b + (a + data[offset + i]));
      a := Wrapped(a + data[offset + i]);
      b := Wrapped(b + a);
    }
  }

  // ---------- Stored blocks ----------

  // A big-endian 32-bit number.
  function U32(n: nat): Bytes
    requires n < UINT32
  {
    [n / 16777216, n / 65536 % 256, n / 256 % 256, n % 256]
  }

  function ReadU32(s: Bytes, i: nat): nat
    requires i + 4 <= |s|
  {
    ((s[i] as int * 256 + s[i + 1]) * 256 + s[i + 2]) * 256 + s[i + 3]
  }

  lemma U32RoundTrip(s: Bytes, i: nat, n: nat)
    requires n < UINT32 && At(s, i, U32(n))
    ensures |U32(n)| == 4 && i + 4 <= |s| && ReadU32(s, i) == n
  {
    var t := U32(n);
    AtByte(s, i, t, 0); AtByte(s, i, t, 1); AtByte(s, i, t, 2); AtByte(s, i, t, 3);
    assert n / 256 == n / 65536 * 256 + n / 256 % 256;
    assert n / 65536 == n / 16777216 * 256 + n / 65536 % 256;
  }

  // A little-endian 16-bit number.
  function U16(low: Byte, high: Byte): nat { low as int + 256 * (high as int) }

  // Header byte, length, inverted length.
  function BlockHeader(final: bool, length: nat): Bytes
    requires length <= MAX_STORED
  {
    var inverse := MAX_STORED - length;
    [if final then 1 else 0, length % 256, length / 256, inverse % 256, inverse / 256]
  }

  // The blocks the writer emits for non-empty data.
  function Stored(raw: Bytes): Bytes
    decreases |raw|
  {
    if |raw| <= MAX_STORED then BlockHeader(true, |raw|) + raw
    else BlockHeader(false, MAX_STORED) + (raw[..MAX_STORED] + Stored(raw[MAX_STORED..]))
  }

  /** Reading stored blocks as section 3.2.4 of RFC 1951 defines them: the data and where the
      last block ends. Other block types are not stored blocks and are refused. */
  function InflateStored(z: Bytes, i: nat): (r: Option<(Bytes, nat)>)
    requires i <= |z|
    ensures r.Some? ==> i < r.value.1 <= |z|
    decreases |z| - i
  {
    if |z| - i < 5 || z[i] / 2 % 4 != 0 then None
    else
      var length, inverse := U16(z[i + 1], z[i + 2]), U16(z[i + 3], z[i + 4]);
      var end := i + 5 + length;
      if length + inverse != 65535 || end > |z| then None
      else if z[i] % 2 == 1 then Some((z[i + 5..end], end))
      else
        match InflateStored(z, end)
        case None => None
        case Some((rest, stop)) => Some((z[i + 5..end] + rest, stop))
  }

  lemma HeaderReads(z: Bytes, i: nat, final: bool, length: nat)
    requires length <= MAX_STORED && At(z, i, BlockHeader(final, length))
    ensures i + 5 <= |z| && z[i] / 2 % 4 == 0 && (z[i] % 2 == 1 <==> final)
    ensures U16(z[i + 1], z[i + 2]) == length && U16(z[i + 3], z[i + 4]) == MAX_STORED - length
  {
    var t := BlockHeader(final, length);
    AtByte(z, i, t, 0); AtByte(z, i, t, 1); AtByte(z, i, t, 2); AtByte(z, i, t, 3); AtByte(z, i, t, 4);
  }

  lemma {:induction false} StoredInflates(z: Bytes, i: nat, raw: Bytes)
    requires At(z, i, Stored(raw))
    ensures i <= |z| && InflateStored(z, i) == Some((raw, i + |Stored(raw)|))
    decreases |raw|
  {
    hide At, BlockHeader;
    if |raw| <= MAX_STORED {
      AtSplit(z, i, BlockHeader(true, |raw|), raw);
      HeaderReads(z, i, true, |raw|);
      HeaderLength(true, |raw|);
      AtSlice(z, i + 5, raw);
    } else {
      var head, tail := raw[..MAX_STORED], raw[MAX_STORED..];
      AtSplit(z, i, BlockHeader(false, MAX_STORED), head + Stored(tail));
      HeaderReads(z, i, false, MAX_STORED);
      HeaderLength(false, MAX_STORED);
      AtSplit(z, i + 5, head, Stored(tail));
      AtSlice(z, i + 5, head);
      StoredInflates(z, i + 5 + MAX_STORED, tail);
      assert head + tail == raw;
    }
  }

  lemma HeaderLength(final: bool, length: nat)
    requires length <= MAX_STORED
    ensures |BlockHeader(final, length)| == 5
  {}

  lemma AtSlice(s: Bytes, i: nat, t: Bytes)
    requires At(s, i, t)
    ensures i + |t| <= |s| && s[i..i + |t|] == t
  {}

  function BlockCount(size: nat): nat { (size + 65534) / 65535 }

  lemma {:induction false} StoredSize(raw: Bytes)
    requires raw != []
    ensures |Stored(raw)| == |raw| + 5 * BlockCount(|raw|)
    decreases |raw|
  {
    if |raw| > MAX_STORED { StoredSize(raw[MAX_STORED..]); }
  }

  function Zlib(raw: Bytes): Bytes {
    AdlerBounds(raw);
    [0x78, 0x01] + (Stored(raw) + U32(Adler(raw)))
  }

  /** The zlib container of section 2.2 of RFC 1950: method 8, a header divisible by 31, no
      preset dictionary, and an Adler-32 of the data right after the last block. */
  function ZlibDecode(z: Bytes): Option<Bytes> {
    if |z| < 2 || z[0] % 16 != 8 || z[0] / 16 > 7 || (z[0] as int * 256 + z[1]) % 31 != 0 ||
      z[1] / 32 % 2 != 0 then None
    else
      match InflateStored(z, 2)
      case None => None
      case Some((data, stop)) =>
        if stop + 4 == |z| && ReadU32(z, stop) == Adler(data) then Some(data) else None
  }

  /** What the writer emits decodes to what it was given. */
  lemma ZlibRoundTrip(raw: Bytes)
    ensures ZlibDecode(Zlib(raw)) == Some(raw)
  {
    hide Stored, Adler, AdlerA, AdlerB, U32, InflateStored, At, ReadU32;
    AdlerBounds(raw);
    var z, blocks, sum := Zlib(raw), Stored(raw), U32(Adler(raw));
    AtWhole(z);
    AtSplit(z, 0, [0x78, 0x01], blocks + sum);
    AtSplit(z, 2, blocks, sum);
    StoredInflates(z, 2, raw);
    U32RoundTrip(z, 2 + |blocks|, Adler(raw));
  }

  lemma AtWhole(z: Bytes)
    ensures At(z, 0, z)
  {
    assert z[..|z|] == z;
  }

  /** The DEFLATE loop: the buffer of the precomputed size is filled exactly. */
  method WriteZlib(raw: Bytes) returns (zlib: array<Byte>)
    requires raw != []
    ensures fresh(zlib) && zlib[..] == Zlib(raw)
    ensures zlib.Length == 2 + |raw| + BlockCount(|raw|) * 5 + 4
  {
    hide Stored, Adler, AdlerA, AdlerB, BlockCount;
    StoredSize(raw);
    zlib := new Byte[2 + |raw| + BlockCount(|raw|) * 5 + 4];
    WriteAt(zlib, 0, [0x78, 0x01]);
    var out := WriteBlocks(zlib, raw);
    var sum := Adler32(raw);
    WriteAt(zlib, out, U32(sum));
  }

  method WriteBlocks(zlib: array<Byte>, raw: Bytes) returns (out: nat)
    requires raw != [] && 2 + |Stored(raw)| <= zlib.Length
    modifies zlib
    ensures out == 2 + |Stored(raw)| && zlib[..out] == old(zlib[..2]) + Stored(raw)
  {
    hide BlockHeader, Stored;
    var from := 0;
    out := 2;
    ghost var all := old(zlib[..2]) + Stored(raw);
    assert raw[0..] == raw;
    while from < |raw|
      invariant from <= |raw| && out <= zlib.Length
      invariant all == zlib[..out] + (if from < |raw| then Stored(raw[from..]) else [])
      decreases |raw| - from
    {
      var remaining := |raw| - from;
      var length := if remaining > MAX_STORED then MAX_STORED else remaining;
      var header, data := BlockHeader(remaining <= MAX_STORED, length), raw[from..from + length];
      ghost var rest := if from + length < |raw| then Stored(raw[from + length..]) else [];
      StoredStep(raw, from);
      HeaderLength(remaining <= MAX_STORED, length);
      Regroup(zlib[..out], header, data, rest);
      out := Append(zlib, out, header);
      out := Append(zlib, out, data);
      from := from + length;
    }
  }

  method Append(buffer: array<Byte>, at: nat, t: Bytes) returns (end: nat)
    requires at + |t| <= buffer.Length
    modifies buffer
    ensures end == at + |t| && buffer[..end] == old(buffer[..at]) + t
  {
    WriteAt(buffer, at, t);
    end := at + |t|;
  }

  lemma Regroup(a: Bytes, b: Bytes, c: Bytes, d: Bytes)
    ensures a + (b + c + d) == a + b + c + d
  {}

  lemma StoredStep(raw: Bytes, from: nat)
    requires from < |raw|
    ensures var remaining := |raw| - from;
            var length := if remaining > MAX_STORED then MAX_STORED else remaining;
            Stored(raw[from..]) == BlockHeader(remaining <= MAX_STORED, length) + raw[from..from + length] +
              (if from + length < |raw| then Stored(raw[from + length..]) else [])
  {
    hide BlockHeader;
    var rest := raw[from..];
    if |rest| > MAX_STORED {
      assert rest[MAX_STORED..] == raw[from + MAX_STORED..] && rest[..MAX_STORED] == raw[from..from + MAX_STORED];
    } else {
      assert raw[from..|raw|] == rest;
    }
  }
}
