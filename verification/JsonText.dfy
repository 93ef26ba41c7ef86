/**
  JSON text (runtime/cJSON.c): the printer, formatted or not, and the recursive-descent
  parser over a byte buffer with an offset.

  Trees are values: null, booleans, integers that fit a C int, NUL-free byte strings, and
  arrays and objects whose children form a `next` list as in the C structure. Numbers other
  than plain integers go through the C library and are not modelled.
*/
module JsonText {
  import opened ByteText
  import opened CInts
  import opened Options

  const NESTING_LIMIT: nat := 1000

  const TAB: Byte := 9
  const NEWLINE: Byte := 10
  const SPACE: Byte := 32
  const QUOTE: Byte := 34
  const COMMA: Byte := 44
  const MINUS: Byte := 45
  const COLON: Byte := 58
  const OPEN_ARRAY: Byte := 91
  const BACKSLASH: Byte := 92
  const CLOSE_ARRAY: Byte := 93
  const OPEN_OBJECT: Byte := 123
  const CLOSE_OBJECT: Byte := 125

  const NULL_TEXT: Bytes := [110, 117, 108, 108]
  const TRUE_TEXT: Bytes := [116, 114, 117, 101]
  const FALSE_TEXT: Bytes := [102, 97, 108, 115, 101]

  datatype Value = Null | Bool(b: bool) | Number(n: int) | Str(text: Bytes) | Arr(child: Node) | Obj(child: Node)

  // A child and the ones after it; array children have an empty key.
  datatype Node = End | Child(key: Bytes, value: Value, next: Node)

  predicate Text(s: Bytes) { forall i :: 0 <= i < |s| ==> s[i] != 0 }

  // What the printer can be handed and the parser can hand back.
  predicate Printable(v: Value) {
    match v
    case Number(n) => INT_MIN <= n <= INT_MAX
    case Str(text) => Text(text)
    case Arr(child) => PrintableItems(child, false)
    case Obj(child) => PrintableItems(child, true)
    case _ => true
  }

  predicate PrintableItems(c: Node, keyed: bool) {
    match c
    case End => true
    case Child(key, value, next) =>
      Text(key) && (keyed || key == []) && Printable(value) && PrintableItems(next, keyed)
  }

  function Max(a: nat, b: nat): nat { if a > b then a else b }

  // How many arrays and objects are nested inside one another.
  function Nesting(v: Value): nat {
    match v
    case Arr(child) => 1 + NestingItems(child)
    case Obj(child) => 1 + NestingItems(child)
    case _ => 0
  }

  function NestingItems(c: Node): nat {
    match c
    case End => 0
    case Child(_, value, next) => Max(Nesting(value), NestingItems(next))
  }

  // ---------- Printing ----------

  function Digit(d: int): Byte
    requires 0 <= d <= 9
  {
    48 + d
  }

  function Decimal(n: nat): Bytes {
    if n < 10 then [Digit(n)] else Decimal(n / 10) + [Digit(n % 10)]
  }

  function PrintNumber(n: int): Bytes {
    if n < 0 then [MINUS] + Decimal(-n) else Decimal(n)
  }

  function HexDigit(d: int): Byte
    requires 0 <= d < 16
  {
    if d < 10 then 48 + d else 97 + d - 10
  }

  // One byte of a string literal.
  function Escaped(b: Byte): Bytes {
    if b > 31 && b != QUOTE && b != BACKSLASH then [b]
    else if b == BACKSLASH then [BACKSLASH, BACKSLASH]
    else if b == QUOTE then [BACKSLASH, QUOTE]
    else if b == 8 then [BACKSLASH, 98]
    else if b == 12 then [BACKSLASH, 102]
    else if b == 10 then [BACKSLASH, 110]
    else if b == 13 then [BACKSLASH, 114]
    else if b == 9 then [BACKSLASH, 116]
    else [BACKSLASH, 117, 48, 48, HexDigit(b / 16), HexDigit(b % 16)]
  }

  // Control bytes without a short escape print as four lower-case digits.
  lemma ControlEscape(b: Byte)
    requires b < 32 && b !in {8, 9, 10, 12, 13}
    ensures Escaped(b) == [92, 117, 48, 48, 48 + b / 16, if b % 16 < 10 then 48 + b % 16 else 87 + b % 16]
  {}

  function EscapedText(s: Bytes): Bytes {
    if s == [] then [] else Escaped(s[0]) + EscapedText(s[1..])
  }

  function Quoted(s: Bytes): Bytes { [QUOTE] + EscapedText(s) + [QUOTE] }

  function Tabs(n: nat): Bytes { seq(n, i => TAB) }

  function Indent(format: bool, depth: nat): Bytes { if format then Tabs(depth) else [] }
  function NewLine(format: bool): Bytes { if format then [NEWLINE] else [] }
  function Gap(format: bool, b: Byte): Bytes { if format then [b] else [] }

  function PrintValue(v: Value, format: bool, depth: nat): Bytes
    decreases v, 0
  {
    match v
    case Null => NULL_TEXT
    case Bool(b) => if b then TRUE_TEXT else FALSE_TEXT
    case Number(n) => PrintNumber(n)
    case Str(text) => Quoted(text)
    case Arr(child) => [OPEN_ARRAY] + (PrintItems(child, format, depth + 1) + [CLOSE_ARRAY])
    case Obj(child) =>
      [OPEN_OBJECT] + (NewLine(format) +
        (PrintFields(child, format, depth + 1) + (Indent(format, depth) + [CLOSE_OBJECT])))
  }

  function PrintItems(c: Node, format: bool, depth: nat): Bytes
    decreases c, 1
  {
    match c
    case End => []
    case Child(_, value, next) => PrintValue(value, format, depth) + MoreItems(next, format, depth)
  }

  function MoreItems(c: Node, format: bool, depth: nat): Bytes
    decreases c, 2
  {
    if c.End? then [] else [COMMA] + (Gap(format, SPACE) + PrintItems(c, format, depth))
  }

  function PrintFields(c: Node, format: bool, depth: nat): Bytes
    decreases c, 1
  {
    match c
    case End => []
    case Child(key, value, next) =>
      Indent(format, depth) + (Quoted(key) + ([COLON] + (Gap(format, TAB) +
        (PrintValue(value, format, depth) + MoreFields(next, format, depth)))))
  }

  function MoreFields(c: Node, format: bool, depth: nat): Bytes
    decreases c, 2
  {
    (if c.End? then [] else [COMMA]) + (NewLine(format) + PrintFields(c, format, depth))
  }

  // ---------- Parsing ----------

  // The first byte after i above 32, but never past the last byte of the buffer.
  function FirstVisible(s: Bytes, i: nat): (j: nat)
    requires i <= |s|
    ensures i <= j <= |s|
    decreases |s| - i
  {
    if i < |s| && s[i] <= 32 then FirstVisible(s, i + 1) else i
  }

  function SkipSpace(s: Bytes, i: nat): (j: nat)
    requires i <= |s|
    ensures i <= j <= |s|
  {
    if i == |s| then i
    else
      var j := FirstVisible(s, i);
      if j == |s| then j - 1 else j
  }

  predicate IsDigit(b: Byte) { 48 <= b <= 57 }

  // Characters that can occur in a number: digits, sign, exponent and decimal point.
  predicate NumberChar(b: Byte) { IsDigit(b) || b == 43 || b == 45 || b == 101 || b == 69 || b == 46 }

  function NumberEnd(s: Bytes, i: nat): (j: nat)
    requires i <= |s|
    ensures i <= j <= |s|
    decreases |s| - i
  {
    if i < |s| && NumberChar(s[i]) then NumberEnd(s, i + 1) else i
  }

  function DecimalValue(t: Bytes): nat
    requires forall k :: 0 <= k < |t| ==> IsDigit(t[k])
  {
    if t == [] then 0
    else
      assert IsDigit(t[|t| - 1]);
      10 * DecimalValue(t[..|t| - 1]) + (t[|t| - 1] as int - 48)
  }

  predicate AllDigits(t: Bytes) { t != [] && forall k :: 0 <= k < |t| ==> IsDigit(t[k]) }

  // A plain integer that fits an int; anything else is beyond the model.
  function ParseInteger(t: Bytes): Option<int> {
    if t != [] && t[0] == MINUS && AllDigits(t[1..]) &&
      DecimalValue(t[1..]) <= -INT_MIN then Some(-(DecimalValue(t[1..]) as int))
    else if AllDigits(t) && DecimalValue(t) <= INT_MAX then Some(DecimalValue(t))
    else None
  }

  function HexValue(b: Byte): Option<nat> {
    if IsDigit(b) then Some(b - 48)
    else if 65 <= b <= 70 then Some(b - 65 + 10)
    else if 97 <= b <= 102 then Some(b - 97 + 10)
    else None
  }

  // parse_hex4: zero when one of the four bytes is not a hexadecimal digit.
  function Hex4(s: Bytes, i: nat): (h: nat)
    requires i + 4 <= |s|
    ensures h < 0x10000
  {
    var a, b, c, d := HexValue(s[i]), HexValue(s[i + 1]), HexValue(s[i + 2]), HexValue(s[i + 3]);
    if a.None? || b.None? || c.None? || d.None? then 0
    else ((a.value * 16 + b.value) * 16 + c.value) * 16 + d.value
  }

  function Utf8(cp: nat): Bytes
    requires cp <= 0x10FFFF
  {
    if cp < 0x80 then [cp]
    else if cp < 0x800 then [0xC0 + cp / 64, 0x80 + cp % 64]
    else if cp < 0x10000 then [0xE0 + cp / 4096, 0x80 + cp / 64 % 64, 0x80 + cp % 64]
    else [0xF0 + cp / 262144, 0x80 + cp / 4096 % 64, 0x80 + cp / 64 % 64, 0x80 + cp % 64]
  }

  // utf16_literal_to_utf8: the bytes and how much input they took.
  function Utf16Literal(s: Bytes, i: nat, end: nat): (r: Option<(Bytes, nat)>)
    requires i <= end <= |s|
    ensures r.Some? ==> 0 < r.value.1
  {
    if end - i < 6 then None
    else
      var first := Hex4(s, i + 2);
      if 0xDC00 <= first <= 0xDFFF then None
      else if 0xD800 <= first <= 0xDBFF then
        if end - (i + 6) < 6 || s[i + 6] != BACKSLASH || s[i + 7] != 117 then None
        else
          var second := Hex4(s, i + 8);
          if second < 0xDC00 || second > 0xDFFF then None
          else Some((Utf8(0x10000 + first % 1024 * 1024 + second % 1024), 12))
      else Some((Utf8(first), 6))
  }

  // Where the string that starts after an opening quote ends.
  function StringEnd(s: Bytes, i: nat): (r: Option<nat>)
    requires i <= |s|
    ensures r.Some? ==> i <= r.value < |s| && s[r.value] == QUOTE
    decreases |s| - i
  {
    if i == |s| then None
    else if s[i] == QUOTE then Some(i)
    else if s[i] == BACKSLASH then (if i + 1 >= |s| then None else StringEnd(s, i + 2))
    else StringEnd(s, i + 1)
  }

  function Unescape(b: Byte): Option<Byte> {
    if b == 98 then Some(8)
    else if b == 102 then Some(12)
    else if b == 110 then Some(10)
    else if b == 114 then Some(13)
    else if b == 116 then Some(9)
    else if b == QUOTE || b == BACKSLASH || b == 47 then Some(b)
    else None
  }

  function Prefixed(head: Bytes, tail: Option<Bytes>): Option<Bytes> {
    match tail case None => None case Some(t) => Some(head + t)
  }

  // The contents of a string literal between i and its closing quote.
  function Decode(s: Bytes, i: nat, end: nat): Option<Bytes>
    requires end < |s|
    decreases if i < end then end - i else 0
  {
    if i >= end then Some([])
    else if s[i] != BACKSLASH then Prefixed([s[i]], Decode(s, i + 1, end))
    else if s[i + 1] == 117 then
      match Utf16Literal(s, i, end)
      case None => None
      case Some((bytes, used)) => Prefixed(bytes, Decode(s, i + used, end))
    else
      match Unescape(s[i + 1])
      case None => None
      case Some(b) => Prefixed([b], Decode(s, i + 2, end))
  }

  function ParseString(s: Bytes, i: nat): (r: Option<(Bytes, nat)>)
    requires i <= |s|
    ensures r.Some? ==> i < r.value.1 <= |s|
  {
    if i == |s| || s[i] != QUOTE then None
    else
      match StringEnd(s, i + 1)
      case None => None
      case Some(end) =>
        match Decode(s, i + 1, end)
        case None => None
        case Some(text) => Some((text, end + 1))
  }

  function ParseValue(s: Bytes, i: nat, depth: nat): (r: Option<(Value, nat)>)
    requires i <= |s|
    ensures r.Some? ==> i < r.value.1 <= |s|
    decreases |s| - i, 1
  {
    if At(s, i, NULL_TEXT) then Some((Null, i + 4))
    else if At(s, i, FALSE_TEXT) then Some((Bool(false), i + 5))
    else if At(s, i, TRUE_TEXT) then Some((Bool(true), i + 4))
    else if i == |s| then None
    else if s[i] == QUOTE then
      match ParseString(s, i)
      case None => None
      case Some((text, j)) => Some((Str(text), j))
    else if s[i] == MINUS || IsDigit(s[i]) then
      var j := NumberEnd(s, i);
      match ParseInteger(s[i..j])
      case None => None
      case Some(n) => if j == i then None else Some((Number(n), j))
    else if s[i] == OPEN_ARRAY then
      if depth >= NESTING_LIMIT then None else
      var j := SkipSpace(s, i + 1);
      if j < |s| && s[j] == CLOSE_ARRAY then Some((Arr(End), j + 1))
      else
        match ParseItems(s, i + 1, depth + 1)
        case None => None
        case Some((child, k)) => Some((Arr(child), k))
    else if s[i] == OPEN_OBJECT then
      if depth >= NESTING_LIMIT then None else
      var j := SkipSpace(s, i + 1);
      if j < |s| && s[j] == CLOSE_OBJECT then Some((Obj(End), j + 1))
      else
        match ParseFields(s, i + 1, depth + 1)
        case None => None
        case Some((child, k)) => Some((Obj(child), k))
    else None
  }

  // The rest of an array after '[' or ','.
  function ParseItems(s: Bytes, i: nat, depth: nat): (r: Option<(Node, nat)>)
    requires i <= |s|
    ensures r.Some? ==> i < r.value.1 <= |s|
    decreases |s| - i, 2
  {
    match ParseValue(s, SkipSpace(s, i), depth)
    case None => None
    case Some((value, j)) =>
      var k := SkipSpace(s, j);
      if k < |s| && s[k] == COMMA then
        match ParseItems(s, k + 1, depth)
        case None => None
        case Some((next, e)) => Some((Child([], value, next), e))
      else if k < |s| && s[k] == CLOSE_ARRAY then Some((Child([], value, End), k + 1))
      else None
  }

  // The rest of an object after '{' or ','.
  function ParseFields(s: Bytes, i: nat, depth: nat): (r: Option<(Node, nat)>)
    requires i <= |s|
    ensures r.Some? ==> i < r.value.1 <= |s|
    decreases |s| - i, 2
  {
    if i == |s| then None else
    match ParseString(s, SkipSpace(s, i))
    case None => None
    case Some((key, j)) =>
      var c := SkipSpace(s, j);
      if c == |s| || s[c] != COLON then None
      else
        match ParseValue(s, SkipSpace(s, c + 1), depth)
        case None => None
        case Some((value, e)) =>
          var k := SkipSpace(s, e);
          if k < |s| && s[k] == COMMA then
            match ParseFields(s, k + 1, depth)
            case None => None
            case Some((next, z)) => Some((Child(key, value, next), z))
          else if k < |s| && s[k] == CLOSE_OBJECT then Some((Child(key, value, End), k + 1))
          else None
  }

  // cJSON_Parse: the buffer is the text with its terminating NUL.
  function Parse(text: Bytes): Option<Value> {
    var s := text + [0];
    var start := if |s| > 4 && At(s, 0, [0xEF, 0xBB, 0xBF]) then 3 else 0;
    match ParseValue(s, SkipSpace(s, start), 0)
    case None => None
    case Some((v, _)) => Some(v)
  }

  function Print(v: Value, format: bool): Bytes { PrintValue(v, format, 0) }

  // ---------- Numbers ----------

  lemma {:induction false} DecimalRoundTrip(n: nat)
    ensures AllDigits(Decimal(n)) && DecimalValue(Decimal(n)) == n
  {
    if n >= 10 {
      DecimalRoundTrip(n / 10);
      var t := Decimal(n);
      assert t[..|t| - 1] == Decimal(n / 10);
    } else {
      assert Decimal(n)[..0] == [];
    }
  }

  lemma {:induction false} FindsNumberEnd(s: Bytes, i: nat, t: Bytes)
    requires At(s, i, t) && forall k :: 0 <= k < |t| ==> NumberChar(t[k])
    requires i + |t| < |s| && !NumberChar(s[i + |t|])
    ensures NumberEnd(s, i) == i + |t|
    decreases |t|
  {
    if t != [] {
      assert t == [t[0]] + t[1..];
      AtSplit(s, i, [t[0]], t[1..]);
      AtByte(s, i, t, 0);
      FindsNumberEnd(s, i + 1, t[1..]);
    }
  }

  lemma NumberParses(s: Bytes, i: nat, n: int)
    requires INT_MIN <= n <= INT_MAX && At(s, i, PrintNumber(n))
    requires i + |PrintNumber(n)| < |s| && !NumberChar(s[i + |PrintNumber(n)|])
    ensures NumberEnd(s, i) == i + |PrintNumber(n)| && ParseInteger(s[i..NumberEnd(s, i)]) == Some(n)
    ensures PrintNumber(n) != [] && (s[i] == MINUS || IsDigit(s[i]))
  {
    var t := PrintNumber(n);
    DecimalRoundTrip(if n < 0 then -n else n);
    if n < 0 { assert t[1..] == Decimal(-n); }
    assert forall k :: 0 <= k < |t| ==> NumberChar(t[k]);
    AtByte(s, i, t, 0);
    FindsNumberEnd(s, i, t);
    assert n >= 0 ==> t[0] != MINUS;
  }

  // ---------- Strings ----------

  lemma ScansEscaped(s: Bytes, i: nat, b: Byte)
    requires At(s, i, Escaped(b)) && i + |Escaped(b)| < |s|
    ensures StringEnd(s, i) == StringEnd(s, i + |Escaped(b)|)
  {
    var t := Escaped(b);
    AtByte(s, i, t, 0);
    if |t| > 1 { AtByte(s, i, t, 1); }
    if |t| == 6 {
      AtByte(s, i, t, 2); AtByte(s, i, t, 3); AtByte(s, i, t, 4); AtByte(s, i, t, 5);
      assert StringEnd(s, i + 2) == StringEnd(s, i + 3);
      assert StringEnd(s, i + 4) == StringEnd(s, i + 5);
    }
  }

  lemma DecodesEscaped(s: Bytes, i: nat, b: Byte, end: nat)
    requires b != 0 && At(s, i, Escaped(b)) && i + |Escaped(b)| <= end < |s|
    ensures Decode(s, i, end) == Prefixed([b], Decode(s, i + |Escaped(b)|, end))
  {
    var t := Escaped(b);
    AtByte(s, i, t, 0);
    if |t| > 1 { AtByte(s, i, t, 1); }
    if |t| == 6 {
      AtByte(s, i, t, 2); AtByte(s, i, t, 3); AtByte(s, i, t, 4); AtByte(s, i, t, 5);
      assert Hex4(s, i + 2) == b;
      assert Utf16Literal(s, i, end) == Some(([b], 6));
    }
  }

  lemma {:induction false} TextRoundTrip(s: Bytes, i: nat, text: Bytes, end: nat)
    requires Text(text) && At(s, i, EscapedText(text)) && end == i + |EscapedText(text)| < |s| && s[end] == QUOTE
    ensures StringEnd(s, i) == Some(end) && Decode(s, i, end) == Some(text)
    decreases |text|
  {
    hide At, Escaped;
    if text != [] {
      var b, rest := text[0], text[1..];
      AtSplit(s, i, Escaped(b), EscapedText(rest));
      ScansEscaped(s, i, b);
      DecodesEscaped(s, i, b, end);
      TextRoundTrip(s, i + |Escaped(b)|, rest, end);
      assert [b] + rest == text;
    }
  }

  lemma StringParses(s: Bytes, i: nat, text: Bytes)
    requires Text(text) && At(s, i, Quoted(text))
    ensures i < |s| && s[i] == QUOTE && ParseString(s, i) == Some((text, i + |Quoted(text)|))
  {
    hide At, StringEnd, Decode, EscapedText;
    AtSplit(s, i, [QUOTE] + EscapedText(text), [QUOTE]);
    AtSplit(s, i, [QUOTE], EscapedText(text));
    AtByte(s, i, [QUOTE], 0);
    var end := i + 1 + |EscapedText(text)|;
    AtByte(s, end, [QUOTE], 0);
    TextRoundTrip(s, i + 1, text, end);
  }

  // ---------- Values ----------

  lemma NotKeyword(s: Bytes, i: nat)
    requires i < |s| && s[i] != 110 && s[i] != 116 && s[i] != 102
    ensures !At(s, i, NULL_TEXT) && !At(s, i, TRUE_TEXT) && !At(s, i, FALSE_TEXT)
  {
    if At(s, i, NULL_TEXT) { AtByte(s, i, NULL_TEXT, 0); }
    if At(s, i, TRUE_TEXT) { AtByte(s, i, TRUE_TEXT, 0); }
    if At(s, i, FALSE_TEXT) { AtByte(s, i, FALSE_TEXT, 0); }
  }

  lemma KeywordParses(s: Bytes, i: nat, d: nat)
    requires i <= |s|
    ensures At(s, i, NULL_TEXT) ==> ParseValue(s, i, d) == Some((Null, i + 4))
    ensures At(s, i, FALSE_TEXT) ==> ParseValue(s, i, d) == Some((Bool(false), i + 5))
    ensures At(s, i, TRUE_TEXT) ==> ParseValue(s, i, d) == Some((Bool(true), i + 4))
  {
    if At(s, i, FALSE_TEXT) { AtByte(s, i, FALSE_TEXT, 0); }
    if At(s, i, TRUE_TEXT) { AtByte(s, i, TRUE_TEXT, 0); }
    if At(s, i, NULL_TEXT) { AtByte(s, i, NULL_TEXT, 0); }
  }

  // One step of the parser on an array and on an object.
  lemma ParseArrayAt(s: Bytes, i: nat, d: nat)
    requires i < |s| && s[i] == OPEN_ARRAY
    ensures ParseValue(s, i, d) ==
            if d >= NESTING_LIMIT then None else
            var j := SkipSpace(s, i + 1);
            if j < |s| && s[j] == CLOSE_ARRAY then Some((Arr(End), j + 1))
            else match ParseItems(s, i + 1, d + 1) case None => None case Some((child, k)) => Some((Arr(child), k))
  {
    NotKeyword(s, i);
  }

  lemma ParseObjectAt(s: Bytes, i: nat, d: nat)
    requires i < |s| && s[i] == OPEN_OBJECT
    ensures ParseValue(s, i, d) ==
            if d >= NESTING_LIMIT then None else
            var j := SkipSpace(s, i + 1);
            if j < |s| && s[j] == CLOSE_OBJECT then Some((Obj(End), j + 1))
            else match ParseFields(s, i + 1, d + 1) case None => None case Some((child, k)) => Some((Obj(child), k))
  {
    NotKeyword(s, i);
  }

  lemma ArrayShape(s: Bytes, i: nat, child: Node, format: bool, pd: nat)
    requires At(s, i, PrintValue(Arr(child), format, pd))
    ensures var items := PrintItems(child, format, pd + 1);
            && i + 1 + |items| < |s| && s[i] == OPEN_ARRAY
            && At(s, i + 1, items) && s[i + 1 + |items|] == CLOSE_ARRAY
            && |PrintValue(Arr(child), format, pd)| == |items| + 2
  {
    hide At, PrintItems;
    var items := PrintItems(child, format, pd + 1);
    AtSplit(s, i, [OPEN_ARRAY], items + [CLOSE_ARRAY]);
    AtSplit(s, i + 1, items, [CLOSE_ARRAY]);
    AtByte(s, i, [OPEN_ARRAY], 0);
    AtByte(s, i + 1 + |items|, [CLOSE_ARRAY], 0);
  }

  lemma ItemsShape(s: Bytes, v: nat, c: Node, format: bool, pd: nat)
    requires c.Child? && At(s, v, PrintItems(c, format, pd))
    ensures var value, more := PrintValue(c.value, format, pd), MoreItems(c.next, format, pd);
            && |PrintItems(c, format, pd)| == |value| + |more|
            && At(s, v, value) && At(s, v + |value|, more)
  {
    hide At, PrintValue, MoreItems;
    AtSplit(s, v, PrintValue(c.value, format, pd), MoreItems(c.next, format, pd));
  }

  lemma MoreItemsShape(s: Bytes, e: nat, c: Node, format: bool, pd: nat)
    requires c.Child? && At(s, e, MoreItems(c, format, pd))
    ensures var gap, items := Gap(format, SPACE), PrintItems(c, format, pd);
            && e < |s| && s[e] == COMMA && |MoreItems(c, format, pd)| == 1 + |gap| + |items|
            && At(s, e + 1, gap) && At(s, e + 1 + |gap|, items)
  {
    hide At, PrintItems;
    var gap, items := Gap(format, SPACE), PrintItems(c, format, pd);
    AtSplit(s, e, [COMMA], gap + items);
    AtSplit(s, e + 1, gap, items);
    AtByte(s, e, [COMMA], 0);
  }

  lemma ObjectShape(s: Bytes, i: nat, child: Node, format: bool, pd: nat)
    requires At(s, i, PrintValue(Obj(child), format, pd))
    ensures var lead, fields, trail := NewLine(format), PrintFields(child, format, pd + 1), Indent(format, pd);
            && i < |s| && s[i] == OPEN_OBJECT && At(s, i + 1, lead) && At(s, i + 1 + |lead|, fields)
            && At(s, i + 1 + |lead| + |fields|, trail + [CLOSE_OBJECT])
            && |PrintValue(Obj(child), format, pd)| == 2 + |lead| + |fields| + |trail|
  {
    hide At, PrintFields;
    var lead, fields, trail := NewLine(format), PrintFields(child, format, pd + 1), Indent(format, pd);
    AtSplit(s, i, [OPEN_OBJECT], lead + (fields + (trail + [CLOSE_OBJECT])));
    AtSplit(s, i + 1, lead, fields + (trail + [CLOSE_OBJECT]));
    AtSplit(s, i + 1 + |lead|, fields, trail + [CLOSE_OBJECT]);
    AtByte(s, i, [OPEN_OBJECT], 0);
  }

  lemma FieldShape(s: Bytes, i: nat, c: Node, format: bool, pd: nat)
    requires c.Child? && At(s, i, PrintFields(c, format, pd))
    ensures var tabs, key, gap := Indent(format, pd), Quoted(c.key), Gap(format, TAB);
            var value, more := PrintValue(c.value, format, pd), MoreFields(c.next, format, pd);
            var k := i + |tabs|;
            var p := k + |key|;
            var v := p + 1 + |gap|;
            && At(s, i, tabs) && At(s, k, key) && p < |s| && s[p] == COLON && At(s, p + 1, gap)
            && At(s, v, value) && At(s, v + |value|, more)
            && |PrintFields(c, format, pd)| == |tabs| + |key| + 1 + |gap| + |value| + |more|
  {
    hide At, PrintValue, MoreFields, Quoted;
    var tabs, key, gap := Indent(format, pd), Quoted(c.key), Gap(format, TAB);
    var value, more := PrintValue(c.value, format, pd), MoreFields(c.next, format, pd);
    var k := i + |tabs|;
    var p := k + |key|;
    AtSplit(s, i, tabs, key + ([COLON] + (gap + (value + more))));
    AtSplit(s, k, key, [COLON] + (gap + (value + more)));
    AtSplit(s, p, [COLON], gap + (value + more));
    AtSplit(s, p + 1, gap, value + more);
    AtSplit(s, p + 1 + |gap|, value, more);
    AtByte(s, p, [COLON], 0);
  }

  lemma NoFields(format: bool, pd: nat)
    ensures PrintFields(End, format, pd) == []
  {}

  // No printed value starts like a byte order mark.
  lemma PlainStart(v: Value, format: bool)
    requires Printable(v)
    ensures Print(v, format) != [] && Print(v, format)[0] < 0xEF
  {
    match v
    case Number(n) => DecimalRoundTrip(if n < 0 then -n else n);
    case _ =>
  }
}
