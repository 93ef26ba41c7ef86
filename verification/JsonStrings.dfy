/**
  The loops behind JSON string literals (runtime/cJSON.c), proved against the functions of
  JsonText: the printer that measures first and then fills a buffer of exactly that size,
  and the parser that looks for the closing quote and then decodes. Section 7 of RFC 8259
  is what the literals must look like.
*/
module JsonStrings {
  import opened Options
  import opened ByteText
  import opened JsonText

  lemma {:induction false} EscapedTextJoins(a: Bytes, b: Bytes)
    ensures EscapedText(a + b) == EscapedText(a) + EscapedText(b)
    decreases |a|
  {
    if a == [] {
      assert a + b == b;
    } else {
      assert (a + b)[1..] == a[1..] + b;
      EscapedTextJoins(a[1..], b);
    }
  }

  // A byte that section 7 of RFC 8259 allows inside a literal without an escape in front.
  predicate Unescaped(b: Byte) { b >= 32 && b != QUOTE && b != BACKSLASH }

  // A literal body: unescaped bytes, two-byte escapes, and \u with four hex digits.
  predicate Legal(t: Bytes) {
    || t == []
    || (Unescaped(t[0]) && Legal(t[1..]))
    || (|t| >= 2 && t[0] == BACKSLASH && t[1] in {QUOTE, BACKSLASH, 47, 98, 102, 110, 114, 116} && Legal(t[2..]))
    || (|t| >= 6 && t[0] == BACKSLASH && t[1] == 117 &&
        (forall k :: 2 <= k < 6 ==> HexValue(t[k]).Some?) && Legal(t[6..]))
  }

  /** Whatever the bytes, the printed literal obeys the escaping rules of RFC 8259. */
  lemma {:induction false} PrintedTextIsLegal(s: Bytes)
    ensures Legal(EscapedText(s))
    decreases |s|
  {
    hide Escaped;
    if s != [] {
      PrintedTextIsLegal(s[1..]);
      EscapeIsLegal(s[0], EscapedText(s[1..]));
    }
  }

  lemma EscapeIsLegal(b: Byte, tail: Bytes)
    requires Legal(tail)
    ensures Legal(Escaped(b) + tail)
  {
    hide Legal, HexDigit, HexValue;
    var head := Escaped(b);
    if |head| == 1 {
      ByteIsLegal(b, tail);
    } else if |head| == 2 {
      PairIsLegal(head, tail);
    } else {
      ControlIsLegal(b, tail);
    }
  }

  lemma ByteIsLegal(b: Byte, tail: Bytes)
    requires Unescaped(b) && Legal(tail)
    ensures Legal([b] + tail)
  {
    assert ([b] + tail)[1..] == tail;
  }

  lemma PairIsLegal(head: Bytes, tail: Bytes)
    requires |head| == 2 && head[0] == BACKSLASH && head[1] in {QUOTE, BACKSLASH, 47, 98, 102, 110, 114, 116}
    requires Legal(tail)
    ensures Legal(head + tail)
  {
    var t := head + tail;
    assert t[2..] == tail && t[0] == head[0] && t[1] == head[1];
  }

  lemma ControlIsLegal(b: Byte, tail: Bytes)
    requires b < 32 && Legal(tail)
    ensures Legal([BACKSLASH, 117, 48, 48, HexDigit(b / 16), HexDigit(b % 16)] + tail)
  {
    hide HexDigit;
    DigitRoundTrip(b / 16);
    DigitRoundTrip(b % 16);
    HexIsLegal([BACKSLASH, 117, 48, 48, HexDigit(b / 16), HexDigit(b % 16)], tail);
  }

  lemma HexIsLegal(head: Bytes, tail: Bytes)
    requires |head| == 6 && head[0] == BACKSLASH && head[1] == 117 && Legal(tail)
    requires forall k :: 2 <= k < 6 ==> HexValue(head[k]).Some?
    ensures Legal(head + tail)
  {
    hide HexValue;
    var t := head + tail;
    assert t[6..] == tail && t[0] == head[0] && t[1] == head[1];
    assert forall k :: 2 <= k < 6 ==> t[k] == head[k];
  }

  function ExtraBytes(b: Byte): nat {
    if b == QUOTE || b == BACKSLASH || b == 8 || b == 12 || b == 10 || b == 13 || b == 9 then 1
    else if b < 32 then 5 else 0
  }

  // The measuring loop: how many bytes escaping adds.
  method CountExtra(input: Bytes) returns (extra: nat)
    ensures |input| + extra == |EscapedText(input)|
    ensures extra == 0 ==> EscapedText(input) == input
  {
    extra := 0;
    for k := 0 to |input|
      invariant k + extra == |EscapedText(input[..k])|
      invariant extra == 0 ==> EscapedText(input[..k]) == input[..k]
    {
      EscapeNext(input, k);
      extra := extra + ExtraBytes(input[k]);
    }
    assert input[..|input|] == input;
  }

  /** print_string_ptr: the buffer is measured first, filled exactly, and holds the literal;
      the shortcut for strings without escapes gives the same bytes. */
  method PrintString(input: Bytes) returns (output: array<Byte>)
    ensures fresh(output) && output[..] == Quoted(input)
  {
    hide EscapedText;
    var extra := CountExtra(input);
    output := new Byte[|input| + extra + 2];
    WriteAt(output, 0, [QUOTE]);
    if extra == 0 {
      WriteAt(output, 1, input);
    } else {
      WriteEscaped(output, input);
    }
    WriteAt(output, 1 + |input| + extra, [QUOTE]);
  }

  // The copying loop, one escape at a time.
  method WriteEscaped(output: array<Byte>, input: Bytes)
    requires 1 + |EscapedText(input)| <= output.Length
    modifies output
    ensures output[..1 + |EscapedText(input)|] == old(output[..1]) + EscapedText(input)
  {
    assert input[..0] == [] && EscapedText(input[..0]) == [] && input[0..] == input;
    hide EscapedText, Escaped;
    var at := 1;
    for k := 0 to |input|
      invariant at == 1 + |EscapedText(input[..k])| && at + |EscapedText(input[k..])| <= output.Length
      invariant output[..at] == old(output[..1]) + EscapedText(input[..k])
    {
      EscapeNext(input, k);
      ThreeJoin(old(output[..1]), EscapedText(input[..k]), Escaped(input[k]));
      WriteAt(output, at, Escaped(input[k]));
      at := at + |Escaped(input[k])|;
    }
    assert input[..|input|] == input;
  }

  lemma ThreeJoin(a: Bytes, b: Bytes, c: Bytes)
    ensures a + b + c == a + (b + c)
  {}

  lemma EscapeNext(input: Bytes, k: nat)
    requires k < |input|
    ensures EscapedText(input[..k + 1]) == EscapedText(input[..k]) + Escaped(input[k])
    ensures EscapedText(input[k..]) == Escaped(input[k]) + EscapedText(input[k + 1..])
  {
    assert input[..k + 1] == input[..k] + [input[k]] && input[k..][1..] == input[k + 1..];
    EscapedTextJoins(input[..k], [input[k]]);
    assert EscapedText([input[k]]) == Escaped(input[k]);
  }

  // How many escapes the search for the closing quote walks over from i.
  function Skips(s: Bytes, i: nat, end: nat): nat
    requires end <= |s|
    decreases if i < end then end - i else 0
  {
    if i >= end then 0
    else if s[i] == BACKSLASH then 1 + Skips(s, i + 2, end)
    else Skips(s, i + 1, end)
  }

  lemma {:induction false} SkipsBound(s: Bytes, i: nat, end: nat)
    requires end <= |s|
    ensures i <= end ==> Skips(s, i, end) <= end - i
    decreases if i < end then end - i else 0
  {
    if i < end {
      SkipsBound(s, if s[i] == BACKSLASH then i + 2 else i + 1, end);
    }
  }

  // The first loop of parse_string: skip over escapes to the closing quote, and count them.
  method FindStringEnd(s: Bytes, start: nat) returns (end: Option<nat>, skipped: nat)
    requires start <= |s|
    ensures end == StringEnd(s, start)
    ensures end.Some? ==> skipped == Skips(s, start, end.value)
  {
    skipped := 0;
    var i := start;
    while i < |s| && s[i] != QUOTE
      invariant start <= i <= |s| && StringEnd(s, start) == StringEnd(s, i)
      invariant StringEnd(s, i).Some? ==>
                  Skips(s, start, StringEnd(s, i).value) == skipped + Skips(s, i, StringEnd(s, i).value)
    {
      if s[i] == BACKSLASH {
        if i + 1 >= |s| { return None, skipped; }
        skipped := skipped + 1;
        i := i + 1;
      }
      i := i + 1;
    }
    end := if i >= |s| then None else Some(i);
  }

  // What the second loop writes at i and how far it moves on.
  function Unit(s: Bytes, i: nat, end: nat): (r: Option<(Bytes, nat)>)
    requires i < end < |s|
    ensures r.Some? ==> r.value.1 > 0
  {
    if s[i] != BACKSLASH then Some(([s[i]], 1))
    else if s[i + 1] == 117 then Utf16Literal(s, i, end)
    else match Unescape(s[i + 1]) case None => None case Some(b) => Some(([b], 2))
  }

  lemma DecodeUnit(s: Bytes, i: nat, end: nat)
    requires i < end < |s|
    ensures Decode(s, i, end) ==
            match Unit(s, i, end)
            case None => None
            case Some((piece, used)) => Prefixed(piece, Decode(s, i + used, end))
  {
    hide Utf16Literal;
  }

  lemma UnitSize(s: Bytes, i: nat, end: nat)
    requires i < end < |s| && Unit(s, i, end).Some?
    ensures var (piece, used) := Unit(s, i, end).value;
            || (used == 1 && |piece| == 1 && s[i] != BACKSLASH)
            || (used == 2 && |piece| == 1 && s[i] == BACKSLASH)
            || (used == 6 && |piece| <= 3 && i + 6 <= end)
            || (used == 12 && |piece| <= 4 && i + 12 <= end)
  {
    hide Hex4;
  }

  // The search for the end stands at p while the second loop stands at i: at the same byte, or one
  // ahead where \u swallowed the first half of an escape.
  predicate InStep(s: Bytes, i: nat, p: nat, end: nat) {
    i <= p <= i + 1 && p <= end <= |s| && StringEnd(s, p) == Some(end)
  }

  lemma {:induction false} SearchTo(s: Bytes, p: nat, q: nat, end: nat) returns (p': nat)
    requires p <= q + 1 && q <= end < |s| && p <= end && StringEnd(s, p) == Some(end)
    ensures q <= p' <= q + 1 || p' == p
    ensures q <= p' && p <= p' <= end && StringEnd(s, p') == Some(end)
    ensures 2 * Skips(s, p, end) <= 2 * Skips(s, p', end) + (p' - p)
    decreases if p < q then q - p else 0
  {
    if p >= q {
      p' := p;
    } else {
      p' := SearchTo(s, if s[p] == BACKSLASH then p + 2 else p + 1, q, end);
    }
  }

  /** Whatever the second loop writes in one round, the bytes it has passed make room for it, less
      the escapes the first loop counted among them. */
  lemma UnitFits(s: Bytes, i: nat, p: nat, end: nat) returns (p': nat)
    requires i < end < |s| && InStep(s, i, p, end) && Unit(s, i, end).Some?
    ensures var (piece, used) := Unit(s, i, end).value;
            var next := if i + used <= end then i + used else end;
            && next <= p' && (i + used <= end ==> InStep(s, i + used, p', end)) && p' <= end
            && StringEnd(s, p') == Some(end)
            && |piece| + Skips(s, p, end) <= next - i + Skips(s, p', end)
  {
    hide Unit;
    UnitSize(s, i, end);
    var used := Unit(s, i, end).value.1;
    if used == 1 {
      p' := i + 1;
    } else if i + used <= end {
      p' := SearchTo(s, p, i + used, end);
    } else {
      p' := end;
    }
  }

  // The size of the buffer for the literal that starts at `start` and ends at `end`.
  function Allocation(s: Bytes, start: nat, end: nat): int
    requires end <= |s|
  {
    end - start - Skips(s, start + 1, end) + 1
  }

  /** parse_string: both loops together decode exactly the literal's meaning, into a buffer of the
      size the first loop computes. What they write on the way to a failure stays inside it too. */
  method ParseLiteral(s: Bytes, start: nat) returns (r: Option<(Bytes, nat)>)
    requires start < |s|
    ensures r == ParseString(s, start)
    ensures r.Some? ==> |r.value.0| + 1 < Allocation(s, start, r.value.1 - 1)
  {
    hide Decode, StringEnd, Unit, Utf16Literal, Unescape, Skips;
    if s[start] != QUOTE { return None; }
    var found, skipped := FindStringEnd(s, start + 1);
    if found.None? { return None; }
    var end, i, at: nat := found.value, start + 1, 0;
    SkipsBound(s, i, end);
    var output := new Byte[end - start - skipped + 1];
    NothingPrefixed(Decode(s, i, end));
    ghost var p: nat := i;
    while i < end
      invariant at <= output.Length - 1 && start + 1 <= i
      invariant Decode(s, start + 1, end) == Prefixed(output[..at], Decode(s, i, end))
      invariant i <= end ==> InStep(s, i, p, end)
      invariant i <= p <= end || p == end
      invariant i >= end ==> at + skipped <= end - (start + 1)
      invariant i < end ==> at + skipped <= i - (start + 1) + Skips(s, p, end)
      decreases if i < end then end - i else 0
    {
      UnitMeans(s, i, end);
      DecodeUnit(s, i, end);
      var piece: Bytes, used := [s[i]], 1;
      if s[i] == BACKSLASH {
        if s[i + 1] == 117 {
          var literal := Utf16Literal(s, i, end);
          if literal.None? { return None; }
          piece, used := literal.value.0, literal.value.1;
        } else {
          var b := Unescape(s[i + 1]);
          if b.None? { return None; }
          piece, used := [b.value], 2;
        }
      }
      p := UnitFits(s, i, p, end);
      SkipsBound(s, p, end);
      PrefixedTwice(output[..at], piece, Decode(s, i + used, end));
      WriteAt(output, at, piece);
      at, i := at + |piece|, i + used;
    }
    DecodeDone(s, i, end);
    assert output[..at] + [] == output[..at];
    r := Some((output[..at], end + 1));
    WriteAt(output, at, [0]);
    LiteralFits(s, start);
  }

  lemma UnitMeans(s: Bytes, i: nat, end: nat)
    requires i < end < |s|
    ensures Unit(s, i, end) ==
            if s[i] != BACKSLASH then Some(([s[i]], 1))
            else if s[i + 1] == 117 then Utf16Literal(s, i, end)
            else match Unescape(s[i + 1]) case None => None case Some(b) => Some(([b], 2))
  {}

  lemma DecodeDone(s: Bytes, i: nat, end: nat)
    requires end <= i && end < |s|
    ensures Decode(s, i, end) == Some([])
  {}

  /** The decoded text and its terminator fit the buffer parse_string allocates, with a byte to spare. */
  lemma LiteralFits(s: Bytes, start: nat)
    requires start < |s| && ParseString(s, start).Some?
    ensures var (text, after) := ParseString(s, start).value;
            && start + 2 <= after
            && |text| + 1 < Allocation(s, start, after - 1)
  {
    DecodedFits(s, start + 1, start + 1, ParseString(s, start).value.1 - 1);
  }

  lemma {:induction false} DecodedFits(s: Bytes, i: nat, p: nat, end: nat)
    requires i <= end < |s| && InStep(s, i, p, end) && Decode(s, i, end).Some?
    ensures |Decode(s, i, end).value| + Skips(s, p, end) <= end - i
    decreases end - i
  {
    hide Decode, Unit, StringEnd;
    if i < end {
      DecodeUnit(s, i, end);
      var p' := UnitFits(s, i, p, end);
      var used := Unit(s, i, end).value.1;
      if i + used <= end { DecodedFits(s, i + used, p', end); } else { DecodeDone(s, i + used, end); }
    } else {
      DecodeDone(s, i, end);
    }
  }

  lemma NothingPrefixed(tail: Option<Bytes>)
    ensures Prefixed([], tail) == tail
  {
    if tail.Some? { assert [] + tail.value == tail.value; }
  }

  lemma PrefixedTwice(a: Bytes, b: Bytes, tail: Option<Bytes>)
    ensures Prefixed(a, Prefixed(b, tail)) == Prefixed(a + b, tail)
  {
    if tail.Some? { assert a + (b + tail.value) == a + b + tail.value; }
  }

  function HexText(n: nat): (t: Bytes)
    requires n < 0x10000
    ensures |t| == 4
  {
    [HexDigit(n / 4096), HexDigit(n / 256 % 16), HexDigit(n / 16 % 16), HexDigit(n % 16)]
  }

  lemma Hex4RoundTrip(s: Bytes, i: nat, n: nat)
    requires n < 0x10000 && At(s, i, HexText(n))
    ensures Hex4(s, i) == n
  {
    hide HexValue, HexDigit, At;
    var t := HexText(n);
    AtByte(s, i, t, 0); AtByte(s, i, t, 1); AtByte(s, i, t, 2); AtByte(s, i, t, 3);
    DigitRoundTrip(n / 4096); DigitRoundTrip(n / 256 % 16); DigitRoundTrip(n / 16 % 16); DigitRoundTrip(n % 16);
    FourDigits(n);
  }

  lemma DigitRoundTrip(d: nat)
    requires d < 16
    ensures HexValue(HexDigit(d)) == Some(d)
  {}

  lemma FourDigits(n: nat)
    requires n < 0x10000
    ensures n / 4096 < 16
    ensures ((n / 4096 * 16 + n / 256 % 16) * 16 + n / 16 % 16) * 16 + n % 16 == n
  {
    assert n / 16 == n / 256 * 16 + n / 16 % 16;
    assert n / 256 == n / 4096 * 16 + n / 256 % 16;
  }

  // A code point as section 7 of RFC 8259 writes it: \uXXXX, or a surrogate pair.
  function Utf16Text(cp: nat): Bytes
    requires cp <= 0x10FFFF
  {
    if cp < 0x10000 then [BACKSLASH, 117] + HexText(cp)
    else
      [BACKSLASH, 117] + (HexText(0xD800 + (cp - 0x10000) / 1024) +
      ([BACKSLASH, 117] + HexText(0xDC00 + (cp - 0x10000) % 1024)))
  }

  /** Every Unicode scalar value written as an escape decodes to its UTF-8 bytes. */
  lemma EscapeDecodesToUtf8(s: Bytes, i: nat, end: nat, cp: nat)
    requires cp <= 0x10FFFF && !(0xD800 <= cp <= 0xDFFF)
    requires At(s, i, Utf16Text(cp)) && i + |Utf16Text(cp)| <= end <= |s|
    ensures Utf16Literal(s, i, end) == Some((Utf8(cp), |Utf16Text(cp)|))
  {
    hide At, HexText, Hex4, Utf8;
    if cp < 0x10000 {
      AtSplit(s, i, [BACKSLASH, 117], HexText(cp));
      Hex4RoundTrip(s, i + 2, cp);
    } else {
      var high, low := 0xD800 + (cp - 0x10000) / 1024, 0xDC00 + (cp - 0x10000) % 1024;
      AtSplit(s, i, [BACKSLASH, 117], HexText(high) + ([BACKSLASH, 117] + HexText(low)));
      AtSplit(s, i + 2, HexText(high), [BACKSLASH, 117] + HexText(low));
      AtSplit(s, i + 6, [BACKSLASH, 117], HexText(low));
      AtByte(s, i + 6, [BACKSLASH, 117], 0);
      AtByte(s, i + 6, [BACKSLASH, 117], 1);
      Hex4RoundTrip(s, i + 2, high);
      Hex4RoundTrip(s, i + 8, low);
      PairIsCodePoint(cp);
    }
  }

  lemma PairIsCodePoint(cp: nat)
    requires 0x10000 <= cp <= 0x10FFFF
    ensures var high, low := 0xD800 + (cp - 0x10000) / 1024, 0xDC00 + (cp - 0x10000) % 1024;
            && 0xD800 <= high <= 0xDBFF && 0xDC00 <= low <= 0xDFFF
            && 0x10000 + high % 1024 * 1024 + low % 1024 == cp
  {}
}
