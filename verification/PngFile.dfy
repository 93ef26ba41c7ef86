/**
  The PNG file (runtime/stasis_image_writer.c): CRC-32, chunks, scanlines and the whole writer.

  The reference is a decoder for the part of the PNG format in use: the signature, chunks in
  order with their checksums, a zlib stream, and scanlines of filter type 0 (sections 5.2, 5.3
  and 9.2 of the PNG specification).
*/
module PngFile {
  import opened Options
  import opened ByteText
  import opened CInts
  import opened Division
  import opened PngWriter
  import Crc

  // ---------- Pictures ----------

  datatype Pixel = Pixel(red: Byte, green: Byte, blue: Byte, alpha: Byte)
  datatype Image = Image(width: nat, height: nat, rows: seq<seq<Pixel>>)

  predicate Rectangular(rows: seq<seq<Pixel>>, width: nat) {
    forall y :: 0 <= y < |rows| ==> |rows[y]| == width
  }

  // Which row of the capture is row y of the picture.
  function SourceRow(height: nat, y: nat, bottomUp: bool): nat
    requires y < height
  {
    if bottomUp then height - 1 - y else y
  }

  // Where row y starts when every row takes the same number of bytes.
  function RowStart(y: nat, rowBytes: nat): nat { y * rowBytes }

  lemma RowStarts(height: nat, y: nat, rowBytes: nat)
    requires y < height
    ensures RowStart(y + 1, rowBytes) == RowStart(y, rowBytes) + rowBytes <= RowStart(height, rowBytes)
  {
    RowsFit(rowBytes, height, y);
  }

  lemma FirstRow(rowBytes: nat)
    ensures RowStart(0, rowBytes) == 0
  {}

  lemma RowsFit(rowBytes: nat, height: nat, y: nat)
    requires y < height
    ensures (y + 1) * rowBytes == y * rowBytes + rowBytes <= height * rowBytes
  {
    assert height * rowBytes == (y + 1) * rowBytes + (height - y - 1) * rowBytes;
  }

  // The blue-green-red-alpha quadruple at position i.
  function Bgra(bytes: Bytes, i: nat): Pixel
    requires i + 4 <= |bytes|
  {
    Pixel(bytes[i + 2], bytes[i + 1], bytes[i], bytes[i + 3])
  }

  function CapturedRow(width: nat, bgra: Bytes, from: nat): (row: seq<Pixel>)
    requires from + 4 * width <= |bgra|
    ensures |row| == width
  {
    seq(width, x requires 0 <= x < width => Bgra(bgra, from + 4 * x))
  }

  /** The picture a capture stands for, top row first. */
  function Captured(width: nat, height: nat, bgra: Bytes, bottomUp: bool): Image
    requires |bgra| == RowStart(height, 4 * width)
  {
    Image(width, height, seq(height, y requires 0 <= y < height =>
      RowStarts(height, SourceRow(height, y, bottomUp), 4 * width);
      CapturedRow(width, bgra, RowStart(SourceRow(height, y, bottomUp), 4 * width))))
  }

  /** The pixel in column x of row y stands at one place of the capture: four bytes a pixel, the rows
      from the top or from the bottom, blue first. */
  lemma CapturedPixel(width: nat, height: nat, bgra: Bytes, bottomUp: bool, x: nat, y: nat)
    requires |bgra| == RowStart(height, 4 * width) && x < width && y < height
    ensures var i := 4 * ((if bottomUp then height - 1 - y else y) * width + x);
            && 0 <= i && i + 4 <= |bgra| && y < |Captured(width, height, bgra, bottomUp).rows|
            && x < |Captured(width, height, bgra, bottomUp).rows[y]|
            && Captured(width, height, bgra, bottomUp).rows[y][x] ==
               Pixel(bgra[i + 2], bgra[i + 1], bgra[i], bgra[i + 3])
  {
    hide CapturedRow;
    var from := if bottomUp then height - 1 - y else y;
    RowStarts(height, from, 4 * width);
    FourTimes(from, width);
    RowPixel(width, bgra, RowStart(from, 4 * width), x);
  }

  lemma FourTimes(y: nat, width: nat)
    ensures RowStart(y, 4 * width) == 4 * (y * width)
  {}

  lemma RowPixel(width: nat, bgra: Bytes, from: nat, x: nat)
    requires from + 4 * width <= |bgra| && x < width
    ensures CapturedRow(width, bgra, from)[x] ==
            Pixel(bgra[from + 4 * x + 2], bgra[from + 4 * x + 1], bgra[from + 4 * x], bgra[from + 4 * x + 3])
  {}

  // ---------- Scanlines ----------

  function RowBytes(row: seq<Pixel>): Bytes {
    if row == [] then [] else
      var p := row[0];
      [p.red, p.green, p.blue, p.alpha] + RowBytes(row[1..])
  }

  function Scanlines(rows: seq<seq<Pixel>>): Bytes {
    if rows == [] then [] else [0] + RowBytes(rows[0]) + Scanlines(rows[1..])
  }

  function ReadPixels(bytes: Bytes): seq<Pixel> {
    if |bytes| < 4 then [] else [Pixel(bytes[0], bytes[1], bytes[2], bytes[3])] + ReadPixels(bytes[4..])
  }

  // Scanlines of 8-bit red, green, blue and alpha; only filter type 0 is accepted.
  function ReadLines(raw: Bytes, width: nat, height: nat): Option<seq<seq<Pixel>>>
    decreases height
  {
    if height == 0 then (if raw == [] then Some([]) else None)
    else if |raw| < 4 * width + 1 || raw[0] != 0 then None
    else
      match ReadLines(raw[4 * width + 1..], width, height - 1)
      case None => None
      case Some(rest) => Some([ReadPixels(raw[1..4 * width + 1])] + rest)
  }

  lemma {:induction false} PixelsRoundTrip(row: seq<Pixel>)
    ensures |RowBytes(row)| == 4 * |row| && ReadPixels(RowBytes(row)) == row
  {
    if row != [] {
      PixelsRoundTrip(row[1..]);
      assert RowBytes(row)[4..] == RowBytes(row[1..]);
    }
  }

  lemma {:induction false} LinesRoundTrip(rows: seq<seq<Pixel>>, width: nat)
    requires Rectangular(rows, width)
    ensures ReadLines(Scanlines(rows), width, |rows|) == Some(rows)
  {
    hide RowBytes, ReadPixels;
    if rows != [] {
      PixelsRoundTrip(rows[0]);
      LinesRoundTrip(rows[1..], width);
      FirstLine(RowBytes(rows[0]), Scanlines(rows[1..]));
      assert rows == [rows[0]] + rows[1..];
    }
  }

  lemma FirstLine(line: Bytes, rest: Bytes)
    ensures var raw := [0] + line + rest;
            raw[0] == 0 && raw[1..|line| + 1] == line && raw[|line| + 1..] == rest
  {}

  lemma {:induction false} ScanlinesLength(rows: seq<seq<Pixel>>, width: nat)
    requires Rectangular(rows, width)
    ensures |Scanlines(rows)| == |rows| * (4 * width + 1)
  {
    hide RowBytes;
    if rows != [] {
      PixelsRoundTrip(rows[0]);
      ScanlinesLength(rows[1..], width);
      RowsFit(4 * width + 1, |rows|, |rows| - 1);
    }
  }

  // ---------- Chunks ----------

  const SIGNATURE: Bytes := [137, 80, 78, 71, 13, 10, 26, 10]
  const IHDR: Bytes := [73, 72, 68, 82]
  const IDAT: Bytes := [73, 68, 65, 84]
  const IEND: Bytes := [73, 69, 78, 68]

  // A checksum as four bytes.
  function CrcBytes(c: bv32): Bytes { U32((c ^ Crc.ONES) as int) }

  function Chunk(kind: Bytes, data: Bytes): Bytes
    requires |data| < UINT32
  {
    U32(|data|) + (kind + data + CrcBytes(Crc.Serial(Crc.ONES, kind + data)))
  }

  datatype ChunkRead = ChunkRead(kind: Bytes, data: Bytes, next: nat)

  // The chunk that starts at i, if its length is one the format allows, it is whole, and its
  // checksum, taken bit by bit, is right.
  function ReadChunk(s: Bytes, i: nat): Option<ChunkRead> {
    if i + 12 > |s| || ReadU32(s, i) > INT_MAX then None
    else
      var end := i + 8 + ReadU32(s, i);
      if end + 4 > |s| || s[end..end + 4] != CrcBytes(Crc.Serial(Crc.ONES, s[i + 4..end])) then None
      else Some(ChunkRead(s[i + 4..i + 8], s[i + 8..end], end + 4))
  }

  /** The published check value as a chunk ends with it: the last exclusive or and the byte order. */
  lemma CheckEnds()
    ensures CrcBytes(Crc.Serial(0xFFFF_FFFF, [49, 50, 51, 52, 53, 54, 55, 56, 57])) == [0xCB, 0xF4, 0x39, 0x26]
  {
    hide Crc.Update, Crc.Serial;
    Crc.CheckValue();
    Crc.UpdateIsSerial(0xFFFF_FFFF, [49, 50, 51, 52, 53, 54, 55, 56, 57]);
    assert U32(0xCBF4_3926) == [0xCB, 0xF4, 0x39, 0x26];
  }

  lemma U32Length(n: nat)
    requires n < UINT32
    ensures |U32(n)| == 4
  {}

  lemma CrcBytesLength(c: bv32)
    ensures |CrcBytes(c)| == 4
  {}

  /** A written chunk reads back exactly when its length is below 2^31. */
  lemma ChunkReads(s: Bytes, i: nat, kind: Bytes, data: Bytes)
    requires |kind| == 4 && |data| < UINT32 && At(s, i, Chunk(kind, data))
    ensures ReadChunk(s, i) == if |data| <= INT_MAX then Some(ChunkRead(kind, data, i + 12 + |data|)) else None
    ensures |Chunk(kind, data)| == 12 + |data|
  {
    hide U32, CrcBytes, ReadU32;
    var crc := CrcBytes(Crc.Serial(Crc.ONES, kind + data));
    U32Length(|data|);
    CrcBytesLength(Crc.Serial(Crc.ONES, kind + data));
    AtSplit(s, i, U32(|data|), kind + data + crc);
    U32RoundTrip(s, i, |data|);
    AtSplit(s, i + 4, kind + data, crc);
    AtSplit(s, i + 4, kind, data);
  }

  /** write_png_chunk: the checksum runs over the type and then the data. */
  method WriteChunk(file: Bytes, kind: Bytes, data: Bytes) returns (out: Bytes)
    requires |data| < UINT32
    ensures out == file + Chunk(kind, data)
  {
    hide CrcBytes, U32, Crc.Update, Crc.Serial;
    var crc := Crc.CrcUpdate(Crc.ONES, kind);
    if |data| > 0 { crc := Crc.CrcUpdate(crc, data); }
    CrcOfChunk(kind, data);
    out := file + U32(|data|) + kind + data + CrcBytes(crc);
    Regrouped(file, U32(|data|), kind, data, CrcBytes(crc));
  }

  lemma CrcOfChunk(kind: Bytes, data: Bytes)
    ensures Crc.Update(Crc.Update(Crc.ONES, kind), data) == Crc.Serial(Crc.ONES, kind + data)
    ensures data == [] ==> Crc.Update(Crc.Update(Crc.ONES, kind), data) == Crc.Update(Crc.ONES, kind)
  {
    hide Crc.AddByte;
    Crc.UpdateJoins(Crc.ONES, kind, data);
    Crc.UpdateIsSerial(Crc.ONES, kind + data);
  }

  lemma Regrouped(a: Bytes, b: Bytes, c: Bytes, d: Bytes, e: Bytes)
    ensures a + b + c + d + e == a + (b + (c + d + e))
  {}

  // ---------- Files ----------

  function Header(width: nat, height: nat): (header: Bytes)
    requires width < UINT32 && height < UINT32
    ensures |header| == 13
  {
    U32(width) + (U32(height) + [8, 6, 0, 0, 0])
  }

  predicate LegalExtent(n: nat) { 0 < n <= INT_MAX }

  function DecodeParts(header: Bytes, body: Bytes): Option<Image> {
    if |header| != 13 || header[8..] != [8, 6, 0, 0, 0] then None
    else if !LegalExtent(ReadU32(header, 0)) || !LegalExtent(ReadU32(header, 4)) then None
    else
      match ZlibDecode(body)
      case None => None
      case Some(raw) =>
        match ReadLines(raw, ReadU32(header, 0), ReadU32(header, 4))
        case None => None
        case Some(rows) => Some(Image(ReadU32(header, 0), ReadU32(header, 4), rows))
  }

  /** A decoder for 8-bit RGBA files with one IDAT chunk. */
  function Decode(file: Bytes): Option<Image> {
    if !At(file, 0, [137, 80, 78, 71, 13, 10, 26, 10]) then None
    else
      var header := ReadChunk(file, 8);
      if header.None? || header.value.kind != [73, 72, 68, 82] then None
      else
        var body := ReadChunk(file, header.value.next);
        if body.None? || body.value.kind != [73, 68, 65, 84] then None
        else
          var end := ReadChunk(file, body.value.next);
          if end.None? || end.value.kind != [73, 69, 78, 68] || end.value.data != [] || end.value.next != |file|
          then None
          else DecodeParts(header.value.data, body.value.data)
  }

  predicate Fits(image: Image) {
    && Rectangular(image.rows, image.width) && |image.rows| == image.height
    && LegalExtent(image.width) && LegalExtent(image.height) && |Zlib(Scanlines(image.rows))| < UINT32
  }

  function File(image: Image): Bytes
    requires Fits(image)
  {
    var header, body := Header(image.width, image.height), Zlib(Scanlines(image.rows));
    SIGNATURE + (Chunk(IHDR, header) + (Chunk(IDAT, body) + Chunk(IEND, [])))
  }

  lemma PartsDecode(image: Image)
    requires Fits(image)
    ensures DecodeParts(Header(image.width, image.height), Zlib(Scanlines(image.rows))) == Some(image)
  {
    hide U32, ReadU32, Zlib, ZlibDecode, Scanlines, ReadLines;
    var header := Header(image.width, image.height);
    U32Length(image.width);
    U32Length(image.height);
    AtWhole(header);
    AtSplit(header, 0, U32(image.width), U32(image.height) + [8, 6, 0, 0, 0]);
    AtSplit(header, 4, U32(image.height), [8, 6, 0, 0, 0]);
    U32RoundTrip(header, 0, image.width);
    U32RoundTrip(header, 4, image.height);
    assert header[8..] == [8, 6, 0, 0, 0];
    ZlibRoundTrip(Scanlines(image.rows));
    LinesRoundTrip(image.rows, image.width);
  }

  /** A file the writer produces decodes to the picture it was given, or, when the stream is too
      long for a chunk of the format, to nothing. */
  lemma FileDecodes(image: Image)
    requires Fits(image)
    ensures Decode(File(image)) == if |Zlib(Scanlines(image.rows))| <= INT_MAX then Some(image) else None
  {
    hide Chunk, ReadChunk, Zlib, Scanlines, Header, DecodeParts, At, Rectangular;
    var file := File(image);
    var header, body := Header(image.width, image.height), Zlib(Scanlines(image.rows));
    var tail := Chunk(IDAT, body) + Chunk(IEND, []);
    AtWhole(file);
    AtSplit(file, 0, SIGNATURE, Chunk(IHDR, header) + tail);
    AtSplit(file, 8, Chunk(IHDR, header), tail);
    ChunkReads(file, 8, IHDR, header);
    AtSplit(file, 33, Chunk(IDAT, body), Chunk(IEND, []));
    ChunkReads(file, 33, IDAT, body);
    if |body| <= INT_MAX {
      ChunkReads(file, 45 + |body|, IEND, []);
      PartsDecode(image);
    }
  }

  // ---------- The writer ----------

  // Where a channel of pixel x stands in its scanline; the source computes it as a C int.
  function Index(x: nat, channel: nat): nat { 1 + x * 4 + channel }

  /** The C int index of every pixel of a row fits exactly when four times the width does. */
  lemma IndexFitsIff(width: nat)
    ensures (forall x, c :: 0 <= x < width && 0 <= c < 4 ==> Index(x, c) <= INT_MAX) <==> 4 * width <= INT_MAX
  {
    assert width > 0 ==> Index(width - 1, 3) == 4 * width;
  }

  /** The size checks accept a row that the index of the pixel loop does not reach. */
  lemma IndexMayOverflow()
    ensures StreamSize(0x2000_0000, 1) < UINT32 && Index(0x2000_0000 - 1, 3) > INT_MAX
  {}

  // Four bytes with the first and the third exchanged.
  function Exchanged(bgra: Bytes, i: nat): Bytes
    requires i + 4 <= |bgra|
  {
    [bgra[i + 2], bgra[i + 1], bgra[i], bgra[i + 3]]
  }

  method WritePixel(raw: array<Byte>, target: nat, x: nat, bgra: Bytes, source: nat)
    requires target + Index(x, 4) <= raw.Length && source + 4 * x + 4 <= |bgra| && Index(x, 3) <= INT_MAX
    modifies raw
    ensures raw[..target + Index(x, 4)] == old(raw[..target + Index(x, 0)]) + Exchanged(bgra, source + 4 * x)
  {
    raw[target + Index(x, 0)] := bgra[source + x * 4 + 2];
    raw[target + Index(x, 1)] := bgra[source + x * 4 + 1];
    raw[target + Index(x, 2)] := bgra[source + x * 4 + 0];
    raw[target + Index(x, 3)] := bgra[source + x * 4 + 3];
  }

  // The loop over the pixels of one row.
  method WriteRow(raw: array<Byte>, target: nat, width: nat, bgra: Bytes, source: nat)
    requires 4 * width <= INT_MAX
    requires target + 4 * width + 1 <= raw.Length && source + 4 * width <= |bgra|
    modifies raw
    ensures raw[..target + 4 * width + 1] == old(raw[..target]) + ([0] + RowBytes(CapturedRow(width, bgra, source)))
  {
    hide RowBytes, CapturedRow, Exchanged;
    ghost var all := old(raw[..target]) + ([0] + RowBytes(CapturedRow(width, bgra, source)));
    raw[target] := 0;
    assert raw[..target + 1] == old(raw[..target]) + [0];
    RowTail(width, bgra, source, 0);
    Regroup3(old(raw[..target]), [0], RowBytes(CapturedRow(width, bgra, source)));
    for x := 0 to width
      invariant all == raw[..target + Index(x, 0)] + RowBytes(CapturedRow(width, bgra, source)[x..])
    {
      RowTail(width, bgra, source, x);
      ghost var before, rest := raw[..target + Index(x, 0)], RowBytes(CapturedRow(width, bgra, source)[x + 1..]);
      WritePixel(raw, target, x, bgra, source);
      Regroup3(before, Exchanged(bgra, source + 4 * x), rest);
    }
    RowTail(width, bgra, source, width);
  }

  lemma Regroup3(a: Bytes, b: Bytes, c: Bytes)
    ensures a + (b + c) == a + b + c
  {}

  lemma RowTail(width: nat, bgra: Bytes, source: nat, x: nat)
    requires x <= width && source + 4 * width <= |bgra|
    ensures x == 0 ==> CapturedRow(width, bgra, source)[x..] == CapturedRow(width, bgra, source)
    ensures x == width ==> RowBytes(CapturedRow(width, bgra, source)[x..]) == []
    ensures x < width ==>
              RowBytes(CapturedRow(width, bgra, source)[x..]) ==
              Exchanged(bgra, source + 4 * x) + RowBytes(CapturedRow(width, bgra, source)[x + 1..])
  {
    var row := CapturedRow(width, bgra, source);
    if x < width {
      assert row[x..][0] == row[x] == Bgra(bgra, source + 4 * x) && row[x..][1..] == row[x + 1..];
    }
  }

  // The loop over the rows.
  method WriteScanlines(width: nat, height: nat, bgra: Bytes, bottomUp: bool) returns (raw: array<Byte>)
    requires |bgra| == RowStart(height, 4 * width) && 4 * width <= INT_MAX
    ensures fresh(raw) && raw[..] == Scanlines(Captured(width, height, bgra, bottomUp).rows)
  {
    hide RowBytes, CapturedRow, Scanlines, Captured, RowStart;
    var rowBytes := 4 * width + 1;
    raw := new Byte[RowStart(height, rowBytes)];
    ghost var rows := Captured(width, height, bgra, bottomUp).rows;
    CapturedRows(width, height, bgra, bottomUp);
    LinesFrom(rows, 0);
    assert RowStart(0, rowBytes) == 0 by { FirstRow(rowBytes); }
    for y := 0 to height
      invariant RowStart(y, rowBytes) <= raw.Length
      invariant Scanlines(rows) == raw[..RowStart(y, rowBytes)] + Scanlines(rows[y..])
    {
      var sourceY := if bottomUp then height - 1 - y else y;
      var target := RowStart(y, rowBytes);
      RowStarts(height, y, rowBytes);
      LinesFrom(rows, y);
      Regroup3(raw[..target], [0] + RowBytes(rows[y]), Scanlines(rows[y + 1..]));
      WriteRow(raw, target, width, bgra, RowStart(sourceY, 4 * width));
    }
    LinesFrom(rows, height);
    assert raw[..RowStart(height, rowBytes)] == raw[..];
  }

  lemma CapturedRows(width: nat, height: nat, bgra: Bytes, bottomUp: bool)
    requires |bgra| == RowStart(height, 4 * width)
    ensures var rows := Captured(width, height, bgra, bottomUp).rows;
            && |rows| == height && Rectangular(rows, width)
            && forall y :: 0 <= y < height ==>
                 RowStart(SourceRow(height, y, bottomUp), 4 * width) + 4 * width <= |bgra| &&
                 rows[y] == CapturedRow(width, bgra, RowStart(SourceRow(height, y, bottomUp), 4 * width))
  {
    forall y | 0 <= y < height
      ensures RowStart(SourceRow(height, y, bottomUp), 4 * width) + 4 * width <= |bgra|
    {
      RowStarts(height, SourceRow(height, y, bottomUp), 4 * width);
    }
  }

  lemma LinesFrom(rows: seq<seq<Pixel>>, y: nat)
    requires y <= |rows|
    ensures y == 0 ==> rows[y..] == rows
    ensures y < |rows| ==> Scanlines(rows[y..]) == [0] + RowBytes(rows[y]) + Scanlines(rows[y + 1..])
    ensures y == |rows| ==> Scanlines(rows[y..]) == []
  {
    if y < |rows| { assert rows[y..][1..] == rows[y + 1..]; }
  }

  // The size of the scanlines, and of the zlib stream for them.
  function RawSize(width: nat, height: nat): nat { RowStart(height, 4 * width + 1) }
  function StreamOf(raw: nat): nat { 2 + raw + BlockCount(raw) * 5 + 4 }
  function StreamSize(width: nat, height: nat): nat { StreamOf(RawSize(width, height)) }

  lemma DivisionGuard(count: nat, total: nat, unit: nat)
    requires unit > 0
    ensures count > total / unit <==> count * unit > total
  {
    var q := total / unit;
    assert total == q * unit + total % unit;
    if count > q {
      assert count * unit == q * unit + unit + (count - q - 1) * unit;
    } else {
      assert q * unit == count * unit + (q - count) * unit;
    }
  }

  // The checks before the scanlines are built; none of their sums or products wraps.
  method RawFits(width: nat, height: nat, sizeMax: nat) returns (fits: bool)
    requires sizeMax >= UINT32 - 1 && width > 0 && height > 0
    ensures fits <==> RawSize(width, height) < UINT32
  {
    var rowBytes := width * 4 + 1;
    RowsFit(rowBytes, height, 0);
    if width > (sizeMax - 1) / 4 { return false; }
    DivisionGuard(height, sizeMax, rowBytes);
    if height > sizeMax / rowBytes { return false; }
    var rawSize := rowBytes * height;
    assert rawSize <= sizeMax;
    fits := rawSize <= UINT32 - 1;
  }

  // The sum that rounds the block count up leaves size_t, and the checks after it do not notice.
  predicate CountWraps(raw: nat, sizeMax: nat) { raw + 65534 > sizeMax && raw <= UINT32 - 7 }

  /** The checks before the zlib buffer is allocated, in arithmetic modulo sizeMax + 1: they accept
      the streams below 2^32 bytes and, with a buffer that is too small, those whose count wraps. */
  method StreamFits(rawSize: nat, sizeMax: nat) returns (fits: bool, zlibSize: nat)
    requires sizeMax >= UINT32 - 1 && 0 < rawSize < UINT32
    ensures fits <==> StreamOf(rawSize) < UINT32 || CountWraps(rawSize, sizeMax)
    ensures fits ==> zlibSize == if CountWraps(rawSize, sizeMax) then rawSize + 6 else StreamOf(rawSize)
  {
    BlocksOf(rawSize, sizeMax);
    var blockCount := (rawSize + 65534) % (sizeMax + 1) / 65535;
    zlibSize := 0;
    if rawSize > sizeMax - 6 || blockCount > (sizeMax - rawSize - 6) / 5 { return false, zlibSize; }
    zlibSize := 2 + rawSize + blockCount * 5 + 4;
    assert zlibSize <= sizeMax;
    fits := zlibSize <= UINT32 - 1;
  }

  lemma BlocksOf(raw: nat, sizeMax: nat)
    requires sizeMax >= UINT32 - 1 && 0 < raw < UINT32
    ensures raw + 65534 <= sizeMax ==> (raw + 65534) % (sizeMax + 1) / 65535 == BlockCount(raw)
    ensures raw + 65534 > sizeMax ==> StreamOf(raw) >= UINT32
    ensures raw + 65534 > sizeMax && raw <= sizeMax - 6 ==> (raw + 65534) % (sizeMax + 1) / 65535 == 0
  {
    if raw + 65534 <= sizeMax {
      Quotient(raw + 65534, sizeMax + 1, 0, raw + 65534);
    } else if raw <= sizeMax - 6 {
      Quotient(raw + 65534, sizeMax + 1, 1, raw + 65534 - (sizeMax + 1));
    }
  }

  /** When the count wraps, a buffer of the computed size is too small for the stream. */
  lemma WrappedBufferIsShort(raw: nat, sizeMax: nat)
    requires sizeMax >= UINT32 - 1 && 0 < raw < UINT32
    ensures CountWraps(raw, sizeMax) ==> raw + 6 < StreamOf(raw) && StreamOf(raw) >= UINT32
  {
    BlocksOf(raw, sizeMax);
  }

  /** With a 32-bit size_t the checks accept this picture and the buffer is too small for it. */
  lemma CountMayWrap()
    ensures CountWraps(RawSize(16383, 65539), UINT32 - 1) && StreamSize(16383, 65539) >= UINT32
  {}

  // What becomes of a call: refused, or outside what C defines, or a file.
  datatype Outcome = Refused | Undefined | Written(file: Bytes)

  /** The PNG writer. `rawMemory` and `zlibMemory` are the answers of the two allocations.

      C gives the call no meaning exactly when the index of the pixel loop leaves int or the block
      count wraps. Otherwise a picture is written exactly when its stream is below 2^32 bytes, and
      the file decodes to the picture captured exactly when the stream is below 2^31 bytes. */
  method WritePng(width: Int32, height: Int32, bgra: Bytes, bottomUp: bool, sizeMax: nat, rawMemory: bool,
      zlibMemory: bool)
    returns (outcome: Outcome)
    requires sizeMax >= UINT32 - 1
    requires width > 0 && height > 0 ==> |bgra| == RowStart(height, 4 * width as int)
    ensures outcome.Undefined? <==>
            && width > 0 && height > 0 && RawSize(width, height) < UINT32 && rawMemory
            && (4 * width as int > INT_MAX || (CountWraps(RawSize(width, height), sizeMax) && zlibMemory))
    ensures outcome.Written? <==>
            && width > 0 && height > 0 && rawMemory && zlibMemory
            && 4 * width as int <= INT_MAX && StreamSize(width, height) < UINT32
    ensures outcome.Written? ==>
              Decode(outcome.file) ==
              if StreamSize(width, height) <= INT_MAX then Some(Captured(width, height, bgra, bottomUp)) else None
  {
    hide Decode, Captured, Scanlines, Zlib, Fits, StreamOf, RawSize;
    if width <= 0 || height <= 0 { return Refused; }
    var fits := RawFits(width, height, sizeMax);
    RawIsPositive(width, height);
    if !fits || !rawMemory { return Refused; }
    if 4 * width as int > INT_MAX { return Undefined; }
    var raw := WriteScanlines(width, height, bgra, bottomUp);
    var zlibSize;
    fits, zlibSize := StreamFits(RawSize(width, height), sizeMax);
    WrappedBufferIsShort(RawSize(width, height), sizeMax);
    if !fits || !zlibMemory { return Refused; }
    if zlibSize < StreamSize(width, height) { return Undefined; }
    CaptureFits(width, height, bgra, bottomUp);
    var zlib := WriteZlib(raw[..]);
    ghost var image := Captured(width, height, bgra, bottomUp);
    var out := WriteFile(image, width, height, zlib[..]);
    outcome := Written(out);
  }

  /** A picture that is written with an IDAT chunk longer than the format allows. */
  lemma ChunkMayBeTooLong()
    ensures INT_MAX < StreamSize(23171, 23171) < UINT32 && 4 * 23171 <= INT_MAX
  {}

  lemma RawIsPositive(width: nat, height: nat)
    requires width > 0 && height > 0
    ensures RawSize(width, height) > 0 && StreamOf(RawSize(width, height)) > RawSize(width, height)
  {
    RowsFit(4 * width + 1, height, 0);
  }

  lemma CaptureFits(width: nat, height: nat, bgra: Bytes, bottomUp: bool)
    requires LegalExtent(width) && LegalExtent(height) && |bgra| == RowStart(height, 4 * width)
    requires StreamSize(width, height) < UINT32
    ensures var image := Captured(width, height, bgra, bottomUp);
            && Fits(image) && image.width == width && image.height == height && Scanlines(image.rows) != []
            && |Zlib(Scanlines(image.rows))| == StreamSize(width, height)
  {
    hide Scanlines, Stored, AdlerA, AdlerB, CapturedRow, U32, Rectangular;
    var rows := Captured(width, height, bgra, bottomUp).rows;
    CapturedRows(width, height, bgra, bottomUp);
    ScanlinesLength(rows, width);
    RowsFit(4 * width + 1, height, 0);
    RowsFit(height, 4 * width + 1, 0);
    StoredSize(Scanlines(rows));
    AdlerBounds(Scanlines(rows));
    U32Length(Adler(Scanlines(rows)));
  }

  lemma Regroup4(a: Bytes, b: Bytes, c: Bytes, d: Bytes)
    ensures a + b + c + d == a + (b + (c + d))
  {}

  method WriteFile(ghost image: Image, width: nat, height: nat, zlib: Bytes) returns (out: Bytes)
    requires Fits(image) && width == image.width && height == image.height && zlib == Zlib(Scanlines(image.rows))
    ensures Decode(out) == if |zlib| <= INT_MAX then Some(image) else None
  {
    hide Decode, Scanlines, Zlib, Chunk, Header, Rectangular;
    out := WriteChunk(SIGNATURE, IHDR, Header(width, height));
    out := WriteChunk(out, IDAT, zlib);
    out := WriteChunk(out, IEND, []);
    FileDecodes(image);
    Regroup4(SIGNATURE, Chunk(IHDR, Header(width, height)), Chunk(IDAT, zlib), Chunk(IEND, []));
  }
}
