/**
  Which texts the JSON parser (runtime/cJSON.c) reads as which trees. The relation below says when the
  bytes i..j of a buffer spell a value, with any blanks around each token and no mention of the parser.
  `strict` is RFC 8259: its whitespace (section 2), numbers without leading zeros (section 6) and its
  strings (section 7). Otherwise blanks are all bytes up to a space, leading zeros are allowed, and
  strings are those of JsonStrings.

  The parser gives back v up to j if and only if the bytes spell v and v is not nested too deeply.
*/
module JsonGrammar {
  import opened Options
  import opened ByteText
  import opened CInts
  import opened JsonText
  import opened JsonStrings
  import opened JsonLiterals

  // ---------- The relation ----------

  // The bytes i..j are the word.
  predicate Word(s: Bytes, i: nat, j: nat, word: string) {
    j == i + |word| <= |s| && forall k :: 0 <= k < |word| ==> s[i + k] == word[k] as int
  }

  predicate Mark(s: Bytes, i: nat, c: char) { i < |s| && s[i] == c as int }

  predicate Space(b: Byte, strict: bool) { if strict then b == 32 || b == 9 || b == 10 || b == 13 else b <= 32 }

  predicate Blanks(s: Bytes, i: nat, j: nat, strict: bool) {
    i <= j <= |s| && forall k :: i <= k < j ==> Space(s[k], strict)
  }

  predicate DigitsAt(s: Bytes, i: nat, j: nat) {
    i < j <= |s| && forall k :: i <= k < j ==> '0' as int <= s[k] <= '9' as int
  }

  // The number that the digits i..j write.
  function DigitsValue(s: Bytes, i: nat, j: nat): nat
    requires DigitsAt(s, i, j)
    decreases j - i
  {
    (if j == i + 1 then 0 else 10 * DigitsValue(s, i, j - 1)) + (s[j - 1] - '0' as int)
  }

  // An integer, up to a byte that cannot go on with a number.
  ghost predicate NumberAt(s: Bytes, i: nat, j: nat, n: int, strict: bool) {
    var first := if Mark(s, i, '-') then i + 1 else i;
    && DigitsAt(s, first, j) && INT_MIN <= n <= INT_MAX
    && n == (if Mark(s, i, '-') then -(DigitsValue(s, first, j) as int) else DigitsValue(s, first, j))
    && (j < |s| ==> !NumberChar(s[j]))
    && (strict ==> j == first + 1 || !Mark(s, first, '0'))
  }

  ghost predicate StringAt(s: Bytes, i: nat, j: nat, text: Bytes, strict: bool) {
    if strict then i + 2 <= j <= |s| && Mark(s, i, '"') && Mark(s, j - 1, '"') && BodyAt(s, i + 1, j - 1, text)
    else i <= |s| && ParseString(s, i) == Some((text, j))
  }

  // What a letter after a backslash stands for.
  predicate Short(letter: Byte, b: Byte) {
    || (letter == b && (b == '"' as int || b == '\\' as int || b == '/' as int))
    || (letter == 'b' as int && b == 8) || (letter == 'f' as int && b == 12) || (letter == 'n' as int && b == 10)
    || (letter == 'r' as int && b == 13) || (letter == 't' as int && b == 9)
  }

  predicate Hex(b: Byte) {
    '0' as int <= b <= '9' as int || 'a' as int <= b <= 'f' as int || 'A' as int <= b <= 'F' as int
  }

  // The letters of either case follow on from their place in the alphabet.
  function HexDigitOf(b: Byte): nat
    requires Hex(b)
  {
    if b <= '9' as int then b - '0' as int else 9 + b % 32
  }

  // A backslash, a u and four hexadecimal digits.
  predicate Escape(s: Bytes, i: nat, end: nat) {
    && i + 6 <= end <= |s| && Mark(s, i, '\\') && Mark(s, i + 1, 'u')
    && Hex(s[i + 2]) && Hex(s[i + 3]) && Hex(s[i + 4]) && Hex(s[i + 5])
  }

  function OfDigits(a: nat, b: nat, c: nat, d: nat): (n: nat)
    requires a < 16 && b < 16 && c < 16 && d < 16
    ensures n < 0x10000
  {
    4096 * a + 256 * b + 16 * c + d
  }

  function CodeUnit(s: Bytes, i: nat, end: nat): (code: nat)
    requires Escape(s, i, end)
    ensures code < 0x10000
  {
    OfDigits(HexDigitOf(s[i + 2]), HexDigitOf(s[i + 3]), HexDigitOf(s[i + 4]), HexDigitOf(s[i + 5]))
  }

  // The text starts with the UTF-8 bytes of the code point.
  predicate Starts(text: Bytes, cp: nat) { cp <= 0x10FFFF && Utf8(cp) <= text }

  // The body i..end of a string of section 7 of RFC 8259, with surrogates in pairs, means `text`.
  predicate BodyAt(s: Bytes, i: nat, end: nat, text: Bytes)
    requires end <= |s|
    decreases end - i
  {
    if i >= end then i == end && text == []
    else if !Mark(s, i, '\\') then Unescaped(s[i]) && text != [] && text[0] == s[i] && BodyAt(s, i + 1, end, text[1..])
    else if !Mark(s, i + 1, 'u') then
      i + 2 <= end && text != [] && Short(s[i + 1], text[0]) && BodyAt(s, i + 2, end, text[1..])
    else
      && Escape(s, i, end)
      && var high := CodeUnit(s, i, end);
      if High(high) then
        && Escape(s, i + 6, end)
        && var low := CodeUnit(s, i + 6, end);
        var cp := 0x10000 + (high - 0xD800) * 1024 + (low - 0xDC00);
        Low(low) && Starts(text, cp) && BodyAt(s, i + 12, end, text[|Utf8(cp)|..])
      else !Low(high) && Starts(text, high) && BodyAt(s, i + 6, end, text[|Utf8(high)|..])
  }

  ghost predicate Spells(s: Bytes, i: nat, j: nat, v: Value, strict: bool)
    decreases v, 0
  {
    match v
    case Null => Word(s, i, j, "null")
    case Bool(b) => Word(s, i, j, if b then "true" else "false")
    case Number(n) => NumberAt(s, i, j, n, strict)
    case Str(text) => StringAt(s, i, j, text, strict)
    case Arr(child) =>
      Mark(s, i, '[') &&
      if child.End? then exists k: nat :: Blanks(s, i + 1, k, strict) && Mark(s, k, ']') && j == k + 1
      else ItemsAt(s, i + 1, j, child, strict)
    case Obj(child) =>
      Mark(s, i, '{') &&
      if child.End? then exists k: nat :: Blanks(s, i + 1, k, strict) && Mark(s, k, '}') && j == k + 1
      else FieldsAt(s, i + 1, j, child, strict)
  }

  // Blanks, the value, blanks.
  ghost predicate ValueIn(s: Bytes, i: nat, v: nat, e: nat, k: nat, value: Value, strict: bool)
    decreases value, 1
  {
    Blanks(s, i, v, strict) && Spells(s, v, e, value, strict) && Blanks(s, e, k, strict)
  }

  // The items of an array up to and with its closing bracket.
  ghost predicate ItemsAt(s: Bytes, i: nat, j: nat, c: Node, strict: bool)
    requires c.Child?
    decreases c, 2
  {
    c.key == [] &&
    exists v: nat, e: nat, k: nat ::
      && ValueIn(s, i, v, e, k, c.value, strict)
      && if c.next.End? then Mark(s, k, ']') && j == k + 1
         else Mark(s, k, ',') && ItemsAt(s, k + 1, j, c.next, strict)
  }

  // Blanks, the key, blanks, and a colon just before a.
  ghost predicate KeyIn(s: Bytes, i: nat, q: nat, p: nat, a: nat, key: Bytes, strict: bool) {
    && Blanks(s, i, q, strict) && StringAt(s, q, p, key, strict)
    && a > 0 && Blanks(s, p, a - 1, strict) && Mark(s, a - 1, ':')
  }

  ghost predicate FieldsAt(s: Bytes, i: nat, j: nat, c: Node, strict: bool)
    requires c.Child?
    decreases c, 2
  {
    exists q: nat, p: nat, a: nat, v: nat, e: nat, k: nat ::
      && KeyIn(s, i, q, p, a, c.key, strict) && ValueIn(s, a, v, e, k, c.value, strict)
      && if c.next.End? then Mark(s, k, '}') && j == k + 1
         else Mark(s, k, ',') && FieldsAt(s, k + 1, j, c.next, strict)
  }

  lemma FieldParts(s: Bytes, i: nat, j: nat, c: Node, strict: bool)
    returns (q: nat, p: nat, a: nat, v: nat, e: nat, k: nat)
    requires c.Child? && FieldsAt(s, i, j, c, strict)
    ensures KeyIn(s, i, q, p, a, c.key, strict) && ValueIn(s, a, v, e, k, c.value, strict)
    ensures if c.next.End? then Mark(s, k, '}') && j == k + 1
            else Mark(s, k, ',') && FieldsAt(s, k + 1, j, c.next, strict)
  {
    hide KeyIn, ValueIn;
    q, p, a, v, e, k :|
      && KeyIn(s, i, q, p, a, c.key, strict) && ValueIn(s, a, v, e, k, c.value, strict)
      && if c.next.End? then Mark(s, k, '}') && j == k + 1
         else Mark(s, k, ',') && FieldsAt(s, k + 1, j, c.next, strict);
  }

  lemma FieldMade(s: Bytes, i: nat, q: nat, p: nat, a: nat, v: nat, e: nat, k: nat, c: Node, j: nat, strict: bool)
    requires c.Child? && KeyIn(s, i, q, p, a, c.key, strict) && ValueIn(s, a, v, e, k, c.value, strict)
    requires if c.next.End? then Mark(s, k, '}') && j == k + 1
             else Mark(s, k, ',') && FieldsAt(s, k + 1, j, c.next, strict)
    ensures FieldsAt(s, i, j, c, strict)
  {
    hide KeyIn, ValueIn;
  }

  // ---------- Blanks and first bytes ----------

  lemma {:induction false} SkipsTo(s: Bytes, i: nat, j: nat)
    requires Blanks(s, i, j, false) && j < |s| && s[j] > 32
    ensures SkipSpace(s, i) == FirstVisible(s, i) == j
    decreases j - i
  {
    if i < j { SkipsTo(s, i + 1, j); }
  }

  // A visible byte found by skipping has only blanks before it.
  lemma {:induction false} SkippedBlanks(s: Bytes, i: nat)
    requires i <= |s| && SkipSpace(s, i) < |s| && s[SkipSpace(s, i)] > 32
    ensures Blanks(s, i, SkipSpace(s, i), false)
    decreases |s| - i
  {
    if i < |s| && s[i] <= 32 {
      SkippedBlanks(s, i + 1);
    }
  }

  lemma SpellsStarts(s: Bytes, i: nat, j: nat, v: Value, strict: bool)
    requires Spells(s, i, j, v, strict)
    ensures i < |s| && s[i] > 32 && !Mark(s, i, ']') && !Mark(s, i, '}')
  {
    match v
    case Null => assert Mark(s, i, 'n') by { assert s[i + 0] == "null"[0] as int; }
    case Bool(b) => assert s[i + 0] == (if b then "true" else "false")[0] as int;
    case _ =>
  }

  // ---------- Scalars ----------

  lemma WordIsAt(s: Bytes, i: nat, word: string, t: Bytes)
    requires |t| == |word| && forall k :: 0 <= k < |word| ==> t[k] == word[k] as int
    ensures At(s, i, t) <==> Word(s, i, i + |word|, word)
  {
    if At(s, i, t) {
      forall k | 0 <= k < |word| ensures s[i + k] == word[k] as int { AtByte(s, i, t, k); }
    }
    if Word(s, i, i + |word|, word) {
      assert s[i..i + |t|] == t;
    }
  }

  lemma Keywords(s: Bytes, i: nat)
    ensures At(s, i, NULL_TEXT) <==> Word(s, i, i + 4, "null")
    ensures At(s, i, TRUE_TEXT) <==> Word(s, i, i + 4, "true")
    ensures At(s, i, FALSE_TEXT) <==> Word(s, i, i + 5, "false")
  {
    hide At, Word;
    WordIsAt(s, i, "null", NULL_TEXT);
    WordIsAt(s, i, "true", TRUE_TEXT);
    WordIsAt(s, i, "false", FALSE_TEXT);
  }

  lemma {:induction false} SameValue(s: Bytes, i: nat, j: nat)
    requires DigitsAt(s, i, j)
    ensures AllDigits(s[i..j]) && DecimalValue(s[i..j]) == DigitsValue(s, i, j)
    decreases j - i
  {
    var t := s[i..j];
    assert forall k :: 0 <= k < |t| ==> t[k] == s[i + k];
    if j == i + 1 {
      assert t[..0] == [];
    } else {
      SameValue(s, i, j - 1);
      assert t[..|t| - 1] == s[i..j - 1];
    }
  }

  lemma DigitsThere(s: Bytes, i: nat, j: nat)
    requires i <= j <= |s|
    ensures AllDigits(s[i..j]) <==> DigitsAt(s, i, j)
  {
    var t := s[i..j];
    assert forall k :: 0 <= k < |t| ==> t[k] == s[i + k];
    if AllDigits(t) {
      forall k | i <= k < j ensures 48 <= s[k] <= 57 { assert s[k] == t[k - i]; }
    }
  }

  lemma {:induction false} EndsNumber(s: Bytes, i: nat, j: nat)
    requires i <= j <= |s| && (forall k :: i <= k < j ==> NumberChar(s[k])) && (j < |s| ==> !NumberChar(s[j]))
    ensures NumberEnd(s, i) == j
    decreases j - i
  {
    if i < j { EndsNumber(s, i + 1, j); }
  }

  lemma {:induction false} NumberEndStops(s: Bytes, i: nat)
    requires i <= |s|
    ensures NumberEnd(s, i) < |s| ==> !NumberChar(s[NumberEnd(s, i)])
    decreases |s| - i
  {
    if i < |s| && NumberChar(s[i]) { NumberEndStops(s, i + 1); }
  }

  // The integer the parser reads, and the one the bytes write.
  lemma ReadsNumber(s: Bytes, i: nat, j: nat, n: int)
    requires i < j <= |s|
    ensures (j < |s| ==> !NumberChar(s[j])) && ParseInteger(s[i..j]) == Some(n) <==> NumberAt(s, i, j, n, false)
  {
    var t := s[i..j];
    assert t[0] == s[i] && t[1..] == s[i + 1..j];
    DigitsThere(s, i, j);
    DigitsThere(s, i + 1, j);
    if DigitsAt(s, i, j) { SameValue(s, i, j); }
    if DigitsAt(s, i + 1, j) { SameValue(s, i + 1, j); }
    hide DecimalValue, DigitsValue;
  }

  lemma NumberParsesIff(s: Bytes, i: nat, j: nat, n: int, d: nat)
    requires i <= |s|
    ensures ParseValue(s, i, d) == Some((Number(n), j)) <==> NumberAt(s, i, j, n, false)
  {
    hide ParseInteger;
    if i < |s| && (s[i] == MINUS || IsDigit(s[i])) {
      NotKeyword(s, i);
      NumberEndStops(s, i);
      var e := NumberEnd(s, i);
      assert e > i;
      ReadsNumber(s, i, e, n);
      if NumberAt(s, i, j, n, false) {
        NumberIsWhole(s, i, j, n);
        ReadsNumber(s, i, j, n);
      }
    } else {
      NoNumberHere(s, i, j, n);
    }
  }

  lemma NumberIsWhole(s: Bytes, i: nat, j: nat, n: int)
    requires NumberAt(s, i, j, n, false)
    ensures i < j <= |s| && NumberEnd(s, i) == j
  {
    EndsNumber(s, i, j);
  }

  lemma NoNumberHere(s: Bytes, i: nat, j: nat, n: int)
    requires i <= |s| && (i < |s| ==> s[i] != MINUS && !IsDigit(s[i]))
    ensures !NumberAt(s, i, j, n, false)
  {}

  // ---------- Whatever spells a tree is read as it ----------

  // What parsing must give back: the tree, unless it is nested too deeply.
  function Expected(v: Value, depth: nat, end: nat): Option<(Value, nat)> {
    if depth + Nesting(v) <= NESTING_LIMIT then Some((v, end)) else None
  }

  function ExpectedItems(c: Node, depth: nat, end: nat): Option<(Node, nat)> {
    if depth + NestingItems(c) <= NESTING_LIMIT then Some((c, end)) else None
  }

  // The rest of an array, once its first value and the mark after it are found.
  lemma ItemRead(s: Bytes, i: nat, v: nat, e: nat, k: nat, c: Node, j: nat, d: nat)
    requires c.Child? && c.key == [] && d <= NESTING_LIMIT && i <= |s| && v <= |s| && e <= |s|
    requires SkipSpace(s, i) == v && ParseValue(s, v, d) == Expected(c.value, d, e) && SkipSpace(s, e) == k
    requires if c.next.End? then Mark(s, k, ']') && j == k + 1
             else Mark(s, k, ',') && ParseItems(s, k + 1, d) == ExpectedItems(c.next, d, j)
    ensures ParseItems(s, i, d) == ExpectedItems(c, d, j)
  {
    hide ParseValue, SkipSpace;
    assert c == Child([], c.value, c.next);
  }

  lemma FieldRead(s: Bytes, i: nat, q: nat, p: nat, a: nat, v: nat, e: nat, k: nat, c: Node, j: nat, d: nat)
    requires c.Child? && d <= NESTING_LIMIT && i < |s| && q <= |s| && p <= |s| && 0 < a <= |s| && v <= |s| && e <= |s|
    requires SkipSpace(s, i) == q && ParseString(s, q) == Some((c.key, p))
    requires SkipSpace(s, p) == a - 1 && Mark(s, a - 1, ':')
    requires SkipSpace(s, a) == v && ParseValue(s, v, d) == Expected(c.value, d, e) && SkipSpace(s, e) == k
    requires if c.next.End? then Mark(s, k, '}') && j == k + 1
             else Mark(s, k, ',') && ParseFields(s, k + 1, d) == ExpectedItems(c.next, d, j)
    ensures ParseFields(s, i, d) == ExpectedItems(c, d, j)
  {
    hide ParseValue, ParseString, SkipSpace;
    assert c == Child(c.key, c.value, c.next);
  }

  lemma WordEnds(s: Bytes, i: nat, j: nat, word: string)
    requires Word(s, i, j, word)
    ensures j == i + |word| <= |s|
  {}

  lemma ScalarSpelled(s: Bytes, i: nat, j: nat, v: Value, d: nat)
    requires Spells(s, i, j, v, false) && !v.Arr? && !v.Obj?
    ensures i <= j <= |s| && ParseValue(s, i, d) == Some((v, j))
  {
    hide At, Word, ParseString;
    SpellsStarts(s, i, j, v, false);
    match v
    case Null =>
      WordEnds(s, i, j, "null");
      Keywords(s, i);
      KeywordParses(s, i, d);
    case Bool(b) =>
      WordEnds(s, i, j, if b then "true" else "false");
      Keywords(s, i);
      KeywordParses(s, i, d);
    case Number(n) => NumberParsesIff(s, i, j, n, d);
    case Str(text) =>
      KeyStarts(s, i, j, text);
      NotKeyword(s, i);
  }

  lemma {:induction false} SpelledParses(s: Bytes, i: nat, j: nat, v: Value, d: nat)
    requires Spells(s, i, j, v, false) && d <= NESTING_LIMIT
    ensures i <= |s| && ParseValue(s, i, d) == Expected(v, d, j)
    decreases v, 0
  {
    hide ParseValue, SkipSpace, ItemsAt, FieldsAt, ParseItems, ParseFields;
    match v
    case Arr(child) =>
      ParseArrayAt(s, i, d);
      if d < NESTING_LIMIT {
        if child.End? {
          var k: nat :| Blanks(s, i + 1, k, false) && Mark(s, k, ']') && j == k + 1;
          SkipsTo(s, i + 1, k);
        } else {
          SpelledItems(s, i + 1, j, child, d + 1);
        }
      }
    case Obj(child) =>
      ParseObjectAt(s, i, d);
      if d < NESTING_LIMIT {
        if child.End? {
          var k: nat :| Blanks(s, i + 1, k, false) && Mark(s, k, '}') && j == k + 1;
          SkipsTo(s, i + 1, k);
        } else {
          SpelledFields(s, i + 1, j, child, d + 1);
        }
      }
    case _ => ScalarSpelled(s, i, j, v, d);
  }

  lemma {:induction false} SpelledItems(s: Bytes, i: nat, j: nat, c: Node, d: nat)
    requires c.Child? && ItemsAt(s, i, j, c, false) && d <= NESTING_LIMIT
    ensures i <= |s| && ParseItems(s, i, d) == ExpectedItems(c, d, j)
    ensures SkipSpace(s, i) < |s| && !Mark(s, SkipSpace(s, i), ']')
    decreases c, 2
  {
    hide ParseValue, SkipSpace, ParseItems, Spells, Expected, ExpectedItems;
    var v: nat, e: nat, k: nat :|
      && ValueIn(s, i, v, e, k, c.value, false)
      && if c.next.End? then Mark(s, k, ']') && j == k + 1
         else Mark(s, k, ',') && ItemsAt(s, k + 1, j, c.next, false);
    SpellsStarts(s, v, e, c.value, false);
    SkipsTo(s, i, v);
    SkipsTo(s, e, k);
    SpelledParses(s, v, e, c.value, d);
    if c.next.Child? { SpelledItems(s, k + 1, j, c.next, d); }
    ItemRead(s, i, v, e, k, c, j, d);
  }

  lemma {:induction false} SpelledFields(s: Bytes, i: nat, j: nat, c: Node, d: nat)
    requires c.Child? && FieldsAt(s, i, j, c, false) && d <= NESTING_LIMIT
    ensures i <= |s| && ParseFields(s, i, d) == ExpectedItems(c, d, j)
    ensures SkipSpace(s, i) < |s| && !Mark(s, SkipSpace(s, i), '}')
    decreases c, 2
  {
    hide ParseValue, SkipSpace, ParseFields, Spells, Expected, ExpectedItems, ParseString, FieldsAt;
    var q, p, a, v, e, k := FieldParts(s, i, j, c, false);
    KeyStarts(s, q, p, c.key);
    SpellsStarts(s, v, e, c.value, false);
    SkipsTo(s, i, q);
    SkipsTo(s, p, a - 1);
    SkipsTo(s, a, v);
    SkipsTo(s, e, k);
    SpelledParses(s, v, e, c.value, d);
    if c.next.Child? { SpelledFields(s, k + 1, j, c.next, d); }
    FieldRead(s, i, q, p, a, v, e, k, c, j, d);
  }

  lemma KeyStarts(s: Bytes, q: nat, p: nat, key: Bytes)
    requires q <= |s| && ParseString(s, q) == Some((key, p))
    ensures q < p <= |s| && Mark(s, q, '"')
  {}

  // ---------- Whatever is read is spelled ----------

  lemma {:induction false} ParsedSpells(s: Bytes, i: nat, d: nat, v: Value, j: nat)
    requires i <= |s| && d <= NESTING_LIMIT && ParseValue(s, i, d) == Some((v, j))
    ensures Spells(s, i, j, v, false) && d + Nesting(v) <= NESTING_LIMIT
    decreases |s| - i, 1
  {
    hide ItemsAt, FieldsAt, ParseItems, ParseFields, SkipSpace, ParseString, NumberAt;
    Keywords(s, i);
    if i < |s| && s[i] == OPEN_ARRAY {
      ParseArrayAt(s, i, d);
      hide ParseValue;
      var k := SkipSpace(s, i + 1);
      if Mark(s, k, ']') {
        SkippedBlanks(s, i + 1);
      } else {
        ParsedItems(s, i + 1, d + 1, v.child, j);
      }
    } else if i < |s| && s[i] == OPEN_OBJECT {
      ParseObjectAt(s, i, d);
      hide ParseValue;
      var k := SkipSpace(s, i + 1);
      if Mark(s, k, '}') {
        SkippedBlanks(s, i + 1);
      } else {
        ParsedFields(s, i + 1, d + 1, v.child, j);
      }
    } else if v.Number? {
      NumberParsesIff(s, i, j, v.n, d);
    }
  }

  lemma {:induction false} ParsedItems(s: Bytes, i: nat, d: nat, c: Node, j: nat)
    requires i <= |s| && d <= NESTING_LIMIT && ParseItems(s, i, d) == Some((c, j))
    ensures c.Child? && ItemsAt(s, i, j, c, false) && d + NestingItems(c) <= NESTING_LIMIT
    decreases |s| - i, 2
  {
    hide ParseValue, SkipSpace, Spells;
    var v := SkipSpace(s, i);
    var (value, e) := ParseValue(s, v, d).value;
    ParsedSpells(s, v, d, value, e);
    SpellsStarts(s, v, e, value, false);
    SkippedBlanks(s, i);
    var k := SkipSpace(s, e);
    SkippedBlanks(s, e);
    assert ValueIn(s, i, v, e, k, c.value, false);
    if Mark(s, k, ',') { ParsedItems(s, k + 1, d, c.next, j); }
  }

  lemma {:induction false} ParsedFields(s: Bytes, i: nat, d: nat, c: Node, j: nat)
    requires i <= |s| && d <= NESTING_LIMIT && ParseFields(s, i, d) == Some((c, j))
    ensures c.Child? && FieldsAt(s, i, j, c, false) && d + NestingItems(c) <= NESTING_LIMIT
    decreases |s| - i, 2
  {
    hide ParseValue, SkipSpace, Spells, ParseString, FieldsAt;
    var q := SkipSpace(s, i);
    var (key, p) := ParseString(s, q).value;
    KeyStarts(s, q, p, key);
    SkippedBlanks(s, i);
    var a := SkipSpace(s, p) + 1;
    SkippedBlanks(s, p);
    var v := SkipSpace(s, a);
    var (value, e) := ParseValue(s, v, d).value;
    ParsedSpells(s, v, d, value, e);
    SpellsStarts(s, v, e, value, false);
    SkippedBlanks(s, a);
    var k := SkipSpace(s, e);
    SkippedBlanks(s, e);
    if Mark(s, k, ',') { ParsedFields(s, k + 1, d, c.next, j); }
    FieldMade(s, i, q, p, a, v, e, k, c, j, false);
  }

  /** The parser reads v up to j if and only if the bytes i..j spell v and v fits the nesting limit. */
  lemma ParsesIff(s: Bytes, i: nat, d: nat, v: Value, j: nat)
    requires i <= |s| && d <= NESTING_LIMIT
    ensures ParseValue(s, i, d) == Some((v, j)) <==> Spells(s, i, j, v, false) && d + Nesting(v) <= NESTING_LIMIT
  {
    if ParseValue(s, i, d) == Some((v, j)) { ParsedSpells(s, i, d, v, j); }
    if Spells(s, i, j, v, false) { SpelledParses(s, i, j, v, d); }
  }

  /** No bytes spell two trees. */
  lemma SpellsOne(s: Bytes, i: nat, v: Value, j: nat, v': Value, j': nat)
    requires Spells(s, i, j, v, false) && Spells(s, i, j', v', false)
    requires Nesting(v) <= NESTING_LIMIT && Nesting(v') <= NESTING_LIMIT
    ensures v == v' && j == j'
  {
    SpelledParses(s, i, j, v, 0);
    SpelledParses(s, i, j', v', 0);
  }

  // ---------- Strings of RFC 8259 ----------

  lemma SameHexValue(b: Byte)
    ensures HexValue(b) == if Hex(b) then Some(HexDigitOf(b)) else None
  {}

  lemma SameCode(s: Bytes, i: nat, end: nat)
    requires Escape(s, i, end)
    ensures HexAt(s, i + 2) && Hex4(s, i + 2) == CodeUnit(s, i, end)
  {
    SameHexValue(s[i + 2]); SameHexValue(s[i + 3]); SameHexValue(s[i + 4]); SameHexValue(s[i + 5]);
    hide HexDigitOf, Hex, HexValue;
    assert forall k :: i + 2 <= k < i + 6 ==> HexValue(s[k]).Some?;
  }

  lemma SamePair(high: nat, low: nat)
    requires High(high) && Low(low)
    ensures 0x10000 + high % 1024 * 1024 + low % 1024 == 0x10000 + (high - 0xD800) * 1024 + (low - 0xDC00)
  {}

  lemma SameShort(letter: Byte, b: Byte)
    ensures Short(letter, b) <==> Unescape(letter) == Some(b)
  {}

  // One unit of a legal body: what it means, how long it is, and that the search for the end passes it.
  lemma UnitMeansBody(s: Bytes, i: nat, end: nat, text: Bytes)
    requires i < end < |s| && BodyAt(s, i, end, text)
    ensures Unit(s, i, end).Some?
    ensures var (piece, used) := Unit(s, i, end).value;
            && i + used <= end && piece <= text && BodyAt(s, i + used, end, text[|piece|..])
            && StringEnd(s, i) == StringEnd(s, i + used)
  {
    hide Utf8, StringEnd, CodeUnit;
    if !Mark(s, i, '\\') {
      assert StringEnd(s, i) == StringEnd(s, i + 1) by { EndPasses(s, i); }
    } else if !Mark(s, i + 1, 'u') {
      SameShort(s[i + 1], text[0]);
      EndPasses(s, i);
    } else {
      SameCode(s, i, end);
      EndAfterHex(s, i);
      if High(CodeUnit(s, i, end)) {
        SameCode(s, i + 6, end);
        EndAfterHex(s, i + 6);
        SamePair(CodeUnit(s, i, end), CodeUnit(s, i + 6, end));
      }
    }
  }

  lemma EndPasses(s: Bytes, i: nat)
    requires i + 1 < |s| && s[i] != QUOTE
    ensures StringEnd(s, i) == StringEnd(s, if s[i] == BACKSLASH then i + 2 else i + 1)
  {}

  lemma {:induction false} BodyDecodes(s: Bytes, i: nat, end: nat, text: Bytes)
    requires i <= end < |s| && s[end] == QUOTE && BodyAt(s, i, end, text)
    ensures StringEnd(s, i) == Some(end) && Decode(s, i, end) == Some(text)
    decreases end - i
  {
    if i < end {
      hide BodyAt, Decode, StringEnd, Unit, Prefixed;
      UnitMeansBody(s, i, end, text);
      DecodeUnit(s, i, end);
      var (piece, used) := Unit(s, i, end).value;
      BodyDecodes(s, i + used, end, text[|piece|..]);
      PrefixBack(piece, text);
    }
  }

  lemma PrefixBack(piece: Bytes, text: Bytes)
    requires piece <= text
    ensures Prefixed(piece, Some(text[|piece|..])) == Some(text)
  {
    assert piece + text[|piece|..] == text;
  }

  /** Every string of RFC 8259 with its surrogates in pairs is read as what it means. */
  lemma LiteralParses(s: Bytes, i: nat, j: nat, text: Bytes)
    requires StringAt(s, i, j, text, true)
    ensures StringAt(s, i, j, text, false)
  {
    hide StringEnd, Decode;
    BodyDecodes(s, i + 1, j - 1, text);
  }

  // ---------- UTF-8 ----------

  // A byte that goes on with a sequence, and the six bits it carries.
  predicate Tail(b: Byte) { 0x80 <= b < 0xC0 }
  function Six(b: Byte): nat
    requires Tail(b)
  {
    b - 0x80
  }

  // A reader of UTF-8 (section 3 of RFC 3629) that takes the shortest forms of scalar values only.
  function ReadUtf8(t: Bytes): Option<(nat, nat)> {
    if t == [] then None
    else if t[0] < 0x80 then Some((t[0], 1))
    else if 0xC2 <= t[0] < 0xE0 then
      if |t| >= 2 && Tail(t[1]) then Some(((t[0] - 0xC0) as nat * 64 + Six(t[1]), 2)) else None
    else if 0xE0 <= t[0] < 0xF0 then
      if |t| < 3 || !Tail(t[1]) || !Tail(t[2]) then None
      else
        var cp := ((t[0] - 0xE0) as nat * 64 + Six(t[1])) * 64 + Six(t[2]);
        if cp < 0x800 || 0xD800 <= cp <= 0xDFFF then None else Some((cp, 3))
    else if 0xF0 <= t[0] < 0xF5 then
      if |t| < 4 || !Tail(t[1]) || !Tail(t[2]) || !Tail(t[3]) then None
      else
        var cp := (((t[0] - 0xF0) as nat * 64 + Six(t[1])) * 64 + Six(t[2])) * 64 + Six(t[3]);
        if cp < 0x10000 || cp > 0x10FFFF then None else Some((cp, 4))
    else None
  }

  lemma SplitTwo(cp: nat)
    requires 0x80 <= cp < 0x800
    ensures 2 <= cp / 64 < 32 && cp / 64 * 64 + cp % 64 == cp
  {}

  lemma SplitThree(cp: nat)
    requires cp < 0x10000
    ensures cp / 4096 < 16 && (cp / 4096 * 64 + cp / 64 % 64) * 64 + cp % 64 == cp
  {
    assert cp / 64 == cp / 4096 * 64 + cp / 64 % 64;
  }

  lemma SplitFour(cp: nat)
    requires cp <= 0x10FFFF
    ensures cp / 262144 < 5 && ((cp / 262144 * 64 + cp / 4096 % 64) * 64 + cp / 64 % 64) * 64 + cp % 64 == cp
  {
    assert cp / 64 == cp / 4096 * 64 + cp / 64 % 64;
    assert cp / 4096 == cp / 262144 * 64 + cp / 4096 % 64;
  }

  lemma ReadsTwo(a: nat, b: nat, rest: Bytes)
    requires 2 <= a < 32 && b < 64
    ensures ReadUtf8([0xC0 + a, 0x80 + b] + rest) == Some((a * 64 + b, 2))
  {}

  lemma ReadsThree(a: nat, b: nat, c: nat, rest: Bytes)
    requires a < 16 && b < 64 && c < 64
    ensures var cp := (a * 64 + b) * 64 + c;
            cp >= 0x800 && !(0xD800 <= cp <= 0xDFFF) ==>
              ReadUtf8([0xE0 + a, 0x80 + b, 0x80 + c] + rest) == Some((cp, 3))
  {}

  lemma ReadsFour(a: nat, b: nat, c: nat, d: nat, rest: Bytes)
    requires a < 5 && b < 64 && c < 64 && d < 64
    ensures var cp := ((a * 64 + b) * 64 + c) * 64 + d;
            0x10000 <= cp <= 0x10FFFF ==> ReadUtf8([0xF0 + a, 0x80 + b, 0x80 + c, 0x80 + d] + rest) == Some((cp, 4))
  {}

  /** The bytes written for a scalar value read back as it, whatever follows them. */
  lemma Utf8ReadsBack(cp: nat, rest: Bytes)
    requires cp <= 0x10FFFF && !(0xD800 <= cp <= 0xDFFF)
    ensures ReadUtf8(Utf8(cp) + rest) == Some((cp, |Utf8(cp)|))
  {
    if cp >= 0x80 {
      hide ReadUtf8;
      if cp < 0x800 {
        SplitTwo(cp);
        ReadsTwo(cp / 64, cp % 64, rest);
      } else if cp < 0x10000 {
        SplitThree(cp);
        ReadsThree(cp / 4096, cp / 64 % 64, cp % 64, rest);
      } else {
        SplitFour(cp);
        ReadsFour(cp / 262144, cp / 4096 % 64, cp / 64 % 64, cp % 64, rest);
      }
    }
  }

  // ---------- RFC 8259 is part of what is read ----------

  lemma {:induction false} StrictIsLoose(s: Bytes, i: nat, j: nat, v: Value)
    requires Spells(s, i, j, v, true)
    ensures Spells(s, i, j, v, false)
    decreases v, 0
  {
    hide ItemsAt, FieldsAt, StringAt;
    match v
    case Str(text) => LiteralParses(s, i, j, text);
    case Arr(child) =>
      if child.Child? { LooseItems(s, i + 1, j, child); }
      else {
        var k: nat :| Blanks(s, i + 1, k, true) && Mark(s, k, ']') && j == k + 1;
        assert Blanks(s, i + 1, k, false);
      }
    case Obj(child) =>
      if child.Child? { LooseFields(s, i + 1, j, child); }
      else {
        var k: nat :| Blanks(s, i + 1, k, true) && Mark(s, k, '}') && j == k + 1;
        assert Blanks(s, i + 1, k, false);
      }
    case _ =>
  }

  lemma {:induction false} LooseItems(s: Bytes, i: nat, j: nat, c: Node)
    requires c.Child? && ItemsAt(s, i, j, c, true)
    ensures ItemsAt(s, i, j, c, false)
    decreases c, 2
  {
    hide Spells;
    var v: nat, e: nat, k: nat :|
      && ValueIn(s, i, v, e, k, c.value, true)
      && if c.next.End? then Mark(s, k, ']') && j == k + 1
         else Mark(s, k, ',') && ItemsAt(s, k + 1, j, c.next, true);
    StrictIsLoose(s, v, e, c.value);
    assert ValueIn(s, i, v, e, k, c.value, false);
    if c.next.Child? { LooseItems(s, k + 1, j, c.next); }
  }

  lemma {:induction false} LooseFields(s: Bytes, i: nat, j: nat, c: Node)
    requires c.Child? && FieldsAt(s, i, j, c, true)
    ensures FieldsAt(s, i, j, c, false)
    decreases c, 2
  {
    hide Spells, StringAt, FieldsAt;
    var q, p, a, v, e, k := FieldParts(s, i, j, c, true);
    LiteralParses(s, q, p, c.key);
    StrictIsLoose(s, v, e, c.value);
    if c.next.Child? { LooseFields(s, k + 1, j, c.next); }
    FieldMade(s, i, q, p, a, v, e, k, c, j, false);
  }

  // ---------- Whole texts ----------

  predicate HasMark(text: Bytes) { |text| >= 4 && text[0] == 0xEF && text[1] == 0xBB && text[2] == 0xBF }

  // The text, after a byte order mark and blanks, starts with bytes that spell v.
  ghost predicate Begins(text: Bytes, v: Value, strict: bool) {
    var start := if HasMark(text) then 3 else 0;
    exists i: nat, j: nat :: Blanks(text + [0], start, i, strict) && Spells(text + [0], i, j, v, strict)
  }

  lemma MarkIsAt(text: Bytes)
    ensures HasMark(text) <==> |text + [0]| > 4 && At(text + [0], 0, [0xEF, 0xBB, 0xBF])
  {
    var s := text + [0];
    if |s| > 4 && At(s, 0, [0xEF, 0xBB, 0xBF]) {
      AtByte(s, 0, [0xEF, 0xBB, 0xBF], 0); AtByte(s, 0, [0xEF, 0xBB, 0xBF], 1); AtByte(s, 0, [0xEF, 0xBB, 0xBF], 2);
    }
    if HasMark(text) { assert s[0..3] == [0xEF, 0xBB, 0xBF]; }
  }

  /** cJSON_Parse gives v back exactly when the text begins with bytes that spell v and v fits the
      nesting limit. What follows them is not looked at. */
  lemma ParseIff(text: Bytes, v: Value)
    ensures Parse(text) == Some(v) <==> Begins(text, v, false) && Nesting(v) <= 1000
  {
    hide ParseValue, Spells, SkipSpace, At, HasMark;
    var s := text + [0];
    MarkIsAt(text);
    var start := if HasMark(text) then 3 else 0;
    MarkFits(text);
    var i := SkipSpace(s, start);
    if Parse(text) == Some(v) {
      var j := ParseValue(s, i, 0).value.1;
      ParsesIff(s, i, 0, v, j);
      SpellsStarts(s, i, j, v, false);
      SkippedBlanks(s, start);
    }
    if Begins(text, v, false) && Nesting(v) <= NESTING_LIMIT {
      var i': nat, j: nat :| Blanks(s, start, i', false) && Spells(s, i', j, v, false);
      SpellsStarts(s, i', j, v, false);
      SkipsTo(s, start, i');
      ParsesIff(s, i', 0, v, j);
    }
  }

  lemma MarkFits(text: Bytes)
    ensures HasMark(text) ==> |text| >= 4
  {}

  /** Every JSON text of RFC 8259 that spells v parses to v, and to nothing if v is nested too deeply. */
  lemma StandardTextParses(text: Bytes, v: Value)
    requires Begins(text, v, true)
    ensures Parse(text) == if Nesting(v) <= 1000 then Some(v) else None
  {
    hide ParseValue, Spells, SkipSpace, At, HasMark;
    var s := text + [0];
    MarkIsAt(text);
    MarkFits(text);
    var start := if HasMark(text) then 3 else 0;
    var i: nat, j: nat :| Blanks(s, start, i, true) && Spells(s, i, j, v, true);
    StrictIsLoose(s, i, j, v);
    SpellsStarts(s, i, j, v, false);
    SkipsTo(s, start, i);
    SpelledParses(s, i, j, v, 0);
  }

  // ---------- What is printed spells the tree ----------

  predicate White(t: Bytes) { forall k :: 0 <= k < |t| ==> Space(t[k], true) }

  lemma WhiteAt(s: Bytes, i: nat, t: Bytes)
    requires At(s, i, t) && White(t)
    ensures Blanks(s, i, i + |t|, true)
  {
    forall k | i <= k < i + |t| ensures Space(s[k], true) { AtByte(s, i, t, k - i); }
  }

  lemma BlanksJoin(s: Bytes, i: nat, j: nat, k: nat)
    requires Blanks(s, i, j, true) && Blanks(s, j, k, true)
    ensures Blanks(s, i, k, true)
  {}

  lemma PrintedBlanks(format: bool, depth: nat)
    ensures White(NewLine(format)) && White(Indent(format, depth))
    ensures White(Gap(format, SPACE)) && White(Gap(format, TAB))
  {}

  lemma {:induction false} NoLeadingZero(n: nat)
    ensures Decimal(n) != [] && (Decimal(n)[0] != 48 || |Decimal(n)| == 1)
  {
    if n >= 10 { NoLeadingZero(n / 10); }
  }

  lemma NumberSpelled(s: Bytes, i: nat, n: int)
    requires INT_MIN <= n <= INT_MAX && At(s, i, PrintNumber(n))
    requires i + |PrintNumber(n)| < |s| && !NumberChar(s[i + |PrintNumber(n)|])
    ensures NumberAt(s, i, i + |PrintNumber(n)|, n, true)
  {
    hide ParseInteger, DigitsValue;
    var t := PrintNumber(n);
    NumberParses(s, i, n);
    ReadsNumber(s, i, i + |t|, n);
    NoLeadingZero(if n < 0 then -n else n);
    AtByte(s, i, t, 0);
    if n < 0 { AtByte(s, i, t, 1); }
  }

  lemma EscapeSpelled(s: Bytes, i: nat, b: Byte, end: nat, rest: Bytes)
    requires At(s, i, Escaped(b)) && i + |Escaped(b)| <= end < |s| && BodyAt(s, i + |Escaped(b)|, end, rest)
    ensures BodyAt(s, i, end, [b] + rest)
  {
    var t := Escaped(b);
    assert ([b] + rest)[1..] == rest;
    AtByte(s, i, t, 0);
    if |t| > 1 { AtByte(s, i, t, 1); }
    if |t| == 6 {
      AtByte(s, i, t, 2); AtByte(s, i, t, 3); AtByte(s, i, t, 4); AtByte(s, i, t, 5);
      ControlCode(s, i, b, end);
      assert Utf8(b) == [b];
    }
  }

  lemma ControlCode(s: Bytes, i: nat, b: Byte, end: nat)
    requires b < 32 && i + 6 <= end <= |s| && Mark(s, i, '\\') && Mark(s, i + 1, 'u')
    requires s[i + 2] == 48 && s[i + 3] == 48
    requires s[i + 4] == HexDigit(b / 16) && s[i + 5] == HexDigit(b % 16)
    ensures Escape(s, i, end) && CodeUnit(s, i, end) == b
  {}

  lemma {:induction false} BodySpelled(s: Bytes, i: nat, text: Bytes, end: nat)
    requires At(s, i, EscapedText(text)) && end == i + |EscapedText(text)| < |s|
    ensures BodyAt(s, i, end, text)
    decreases |text|
  {
    hide At, Escaped, BodyAt;
    if text == [] {
      assert BodyAt(s, i, end, []) by { NoBody(s, i); }
    } else {
      AtSplit(s, i, Escaped(text[0]), EscapedText(text[1..]));
      BodySpelled(s, i + |Escaped(text[0])|, text[1..], end);
      EscapeSpelled(s, i, text[0], end, text[1..]);
      assert [text[0]] + text[1..] == text;
    }
  }

  lemma NoBody(s: Bytes, i: nat)
    requires i <= |s|
    ensures BodyAt(s, i, i, [])
  {}

  lemma StringSpelled(s: Bytes, i: nat, text: Bytes)
    requires At(s, i, Quoted(text))
    ensures StringAt(s, i, i + |Quoted(text)|, text, true)
  {
    hide At, EscapedText, BodyAt;
    AtSplit(s, i, [QUOTE] + EscapedText(text), [QUOTE]);
    AtSplit(s, i, [QUOTE], EscapedText(text));
    AtByte(s, i, [QUOTE], 0);
    var end := i + 1 + |EscapedText(text)|;
    AtByte(s, end, [QUOTE], 0);
    BodySpelled(s, i + 1, text, end);
  }

  lemma ScalarPrinted(s: Bytes, i: nat, v: Value, format: bool, pd: nat)
    requires Printable(v) && !v.Arr? && !v.Obj? && At(s, i, PrintValue(v, format, pd))
    requires i + |PrintValue(v, format, pd)| < |s| && !NumberChar(s[i + |PrintValue(v, format, pd)|])
    ensures Spells(s, i, i + |PrintValue(v, format, pd)|, v, true)
  {
    hide At, NumberAt, StringAt, Word, Quoted, PrintNumber;
    match v
    case Null => Keywords(s, i);
    case Bool(b) => Keywords(s, i);
    case Number(n) => NumberSpelled(s, i, n);
    case Str(text) => StringSpelled(s, i, text);
  }

  lemma {:induction false} PrintedSpells(s: Bytes, i: nat, v: Value, format: bool, pd: nat)
    requires Printable(v) && At(s, i, PrintValue(v, format, pd))
    requires i + |PrintValue(v, format, pd)| < |s| && !NumberChar(s[i + |PrintValue(v, format, pd)|])
    ensures Spells(s, i, i + |PrintValue(v, format, pd)|, v, true)
    decreases v, 0
  {
    hide At, PrintValue, Spells;
    match v
    case Arr(child) => PrintedArray(s, i, child, format, pd);
    case Obj(child) => PrintedObject(s, i, child, format, pd);
    case _ => ScalarPrinted(s, i, v, format, pd);
  }

  lemma EmptySpells(s: Bytes, i: nat, k: nat)
    requires i < |s| && Blanks(s, i + 1, k, true)
    ensures Mark(s, i, '[') && Mark(s, k, ']') ==> Spells(s, i, k + 1, Arr(End), true)
    ensures Mark(s, i, '{') && Mark(s, k, '}') ==> Spells(s, i, k + 1, Obj(End), true)
  {}

  lemma {:induction false} PrintedArray(s: Bytes, i: nat, child: Node, format: bool, pd: nat)
    requires PrintableItems(child, false) && At(s, i, PrintValue(Arr(child), format, pd))
    ensures Spells(s, i, i + |PrintValue(Arr(child), format, pd)|, Arr(child), true)
    decreases child, 4
  {
    hide At, PrintValue, ItemsAt, Blanks;
    ArrayShape(s, i, child, format, pd);
    NoBlanks(s, i + 1);
    if child.Child? {
      PrintedItems(s, i + 1, i + 1, child, format, pd + 1);
    } else {
      NoItems(format, pd + 1);
      EmptySpells(s, i, i + 1);
    }
  }

  lemma {:induction false} PrintedObject(s: Bytes, i: nat, child: Node, format: bool, pd: nat)
    requires PrintableItems(child, true) && At(s, i, PrintValue(Obj(child), format, pd))
    ensures Spells(s, i, i + |PrintValue(Obj(child), format, pd)|, Obj(child), true)
    decreases child, 4
  {
    hide At, PrintValue, FieldsAt, Blanks, NewLine, Indent, White;
    ObjectShape(s, i, child, format, pd);
    var open, fields, close := NewLine(format), PrintFields(child, format, pd + 1), Indent(format, pd);
    PrintedBlanks(format, pd);
    WhiteAt(s, i + 1, open);
    var q := i + 1 + |open|;
    AtSplit(s, q + |fields|, close, [CLOSE_OBJECT]);
    AtByte(s, q + |fields| + |close|, [CLOSE_OBJECT], 0);
    WhiteAt(s, q + |fields|, close);
    if child.Child? {
      PrintedFields(s, i + 1, q, child, format, pd + 1, q + |fields| + |close|);
    } else {
      NoFields(format, pd + 1);
      BlanksJoin(s, i + 1, q, q + |close|);
      EmptySpells(s, i, q + |close|);
    }
  }

  lemma NoBlanks(s: Bytes, i: nat)
    requires i <= |s|
    ensures Blanks(s, i, i, true)
  {}

  lemma NoItems(format: bool, pd: nat)
    ensures PrintItems(End, format, pd) == []
  {}

  lemma ItemMade(s: Bytes, i: nat, v: nat, e: nat, k: nat, c: Node, j: nat, strict: bool)
    requires c.Child? && c.key == [] && ValueIn(s, i, v, e, k, c.value, strict)
    requires if c.next.End? then Mark(s, k, ']') && j == k + 1
             else Mark(s, k, ',') && ItemsAt(s, k + 1, j, c.next, strict)
    ensures ItemsAt(s, i, j, c, strict)
  {
    hide ValueIn;
  }

  lemma {:induction false} PrintedItems(s: Bytes, i: nat, v: nat, c: Node, format: bool, pd: nat)
    requires c.Child? && PrintableItems(c, false) && Blanks(s, i, v, true) && At(s, v, PrintItems(c, format, pd))
    requires Mark(s, v + |PrintItems(c, format, pd)|, ']')
    ensures ItemsAt(s, i, v + |PrintItems(c, format, pd)| + 1, c, true)
    decreases c, 2
  {
    hide At, PrintValue, PrintItems, ItemsAt, Blanks, Spells;
    ItemsShape(s, v, c, format, pd);
    var e := v + |PrintValue(c.value, format, pd)|;
    if c.next.Child? {
      MoreItemsShape(s, e, c.next, format, pd);
      PrintedBlanks(format, pd);
      WhiteAt(s, e + 1, Gap(format, SPACE));
      PrintedItems(s, e + 1, e + 1 + |Gap(format, SPACE)|, c.next, format, pd);
    }
    PrintedSpells(s, v, c.value, format, pd);
    NoBlanks(s, e);
    ItemMade(s, i, v, e, e, c, v + |PrintItems(c, format, pd)| + 1, true);
  }

  lemma {:induction false} PrintedFields(s: Bytes, i: nat, u: nat, c: Node, format: bool, pd: nat, end: nat)
    requires c.Child? && PrintableItems(c, true) && Blanks(s, i, u, true) && At(s, u, PrintFields(c, format, pd))
    requires Blanks(s, u + |PrintFields(c, format, pd)|, end, true) && Mark(s, end, '}')
    ensures FieldsAt(s, i, end + 1, c, true)
    decreases c, 2
  {
    hide At, PrintValue, PrintFields, MoreFields, FieldsAt, Blanks, Spells, Quoted, StringAt, Indent, Gap;
    FieldShape(s, u, c, format, pd);
    PrintedBlanks(format, pd);
    var q := u + |Indent(format, pd)|;
    WhiteAt(s, u, Indent(format, pd));
    BlanksJoin(s, i, u, q);
    StringSpelled(s, q, c.key);
    var p := q + |Quoted(c.key)|;
    NoBlanks(s, p);
    WhiteAt(s, p + 1, Gap(format, TAB));
    var v := p + 1 + |Gap(format, TAB)|;
    var e := v + |PrintValue(c.value, format, pd)|;
    var k := FieldsGoOn(s, e, c.next, format, pd, end);
    PrintedSpells(s, v, c.value, format, pd);
    FieldMade(s, i, q, p, p + 1, v, e, k, c, end + 1, true);
  }

  // After a field's value: a comma and the next fields, or blanks and the closing brace.
  lemma {:induction false} FieldsGoOn(s: Bytes, e: nat, next: Node, format: bool, pd: nat, end: nat) returns (k: nat)
    requires PrintableItems(next, true) && At(s, e, MoreFields(next, format, pd))
    requires Blanks(s, e + |MoreFields(next, format, pd)|, end, true) && Mark(s, end, '}')
    ensures e < |s| && !NumberChar(s[e]) && Blanks(s, e, k, true)
    ensures if next.End? then k == end else Mark(s, k, ',') && FieldsAt(s, k + 1, end + 1, next, true)
    decreases next, 3
  {
    hide At, PrintFields, FieldsAt, NewLine;
    var line, fields := NewLine(format), PrintFields(next, format, pd);
    PrintedBlanks(format, pd);
    if next.End? {
      NoFields(format, pd);
      assert MoreFields(next, format, pd) == line;
      WhiteAt(s, e, line);
      BlanksJoin(s, e, e + |line|, end);
      k := end;
    } else {
      assert MoreFields(next, format, pd) == [COMMA] + (line + fields);
      AtSplit(s, e, [COMMA], line + fields);
      AtSplit(s, e + 1, line, fields);
      AtByte(s, e, [COMMA], 0);
      WhiteAt(s, e + 1, line);
      PrintedFields(s, e + 1, e + 1 + |line|, next, format, pd, end);
      k := e;
    }
  }

  /** A printed tree, formatted or not, is a text of RFC 8259 that spells the tree. */
  lemma PrintIsStandard(v: Value, format: bool)
    requires Printable(v)
    ensures Begins(Print(v, format), v, true)
  {
    hide Spells, PrintValue, At;
    var t := Print(v, format);
    var s := t + [0];
    PlainStart(v, format);
    assert s[0..|t|] == t;
    assert At(s, 0, t) by { WholeAt(t); }
    PrintedSpells(s, 0, v, format, 0);
    NoBlanks(s, 0);
  }

  lemma WholeAt(t: Bytes)
    ensures At(t + [0], 0, t)
  {
    assert (t + [0])[0..|t|] == t;
  }

  /** Printing a tree, formatted or not, and parsing the text gives the tree back if and only
      if it is nested no deeper than the parser's limit of 1000; beyond it the parser refuses. */
  lemma PrintThenParse(v: Value, format: bool)
    requires Printable(v)
    ensures Parse(Print(v, format)) == if Nesting(v) <= 1000 then Some(v) else None
  {
    hide Begins, Parse;
    PrintIsStandard(v, format);
    StandardTextParses(Print(v, format), v);
  }

  /** The brackets of a list and of an object, with literal bytes: a formatted object opens with a line
      break and closes on a line of its own, indented by one tab per level around it. */
  lemma Frames(c: Node, depth: nat)
    ensures forall format ::
              PrintValue(Arr(c), format, depth) == [91] + (PrintItems(c, format, depth + 1) + [93])
    ensures PrintValue(Obj(c), true, depth) ==
            [123] + ([10] + (PrintFields(c, true, depth + 1) + (seq(depth, i => 9) + [125])))
    ensures PrintValue(Obj(c), false, depth) == [123] + ([] + (PrintFields(c, false, depth + 1) + ([] + [125])))
  {
    hide PrintItems, PrintFields;
    assert seq(depth, i => 9) == Indent(true, depth);
  }

  /** Two items, whatever they hold and however deep they are: on one line, with a space after the comma
      when formatted and nothing between the tokens otherwise. */
  lemma TwoItems(x: Value, y: Value, format: bool, depth: nat)
    ensures PrintItems(Child([], x, Child([], y, End)), format, depth) ==
            PrintValue(x, format, depth) + ((if format then [44, 32] else [44]) + PrintValue(y, format, depth))
  {
    hide PrintValue, PrintFields, MoreFields;
    var rest := Child([], y, End);
    assert MoreItems(End, format, depth) == [];
    assert PrintItems(rest, format, depth) == PrintValue(y, format, depth) + [];
    assert MoreItems(rest, format, depth) ==
           [COMMA] + (Gap(format, SPACE) + PrintItems(rest, format, depth));
  }

  // A field: formatted it starts with one tab per level and has a tab after its colon.
  function Field(key: Bytes, x: Value, format: bool, depth: nat): Bytes {
    if format then seq(depth, i => 9) + (Quoted(key) + ([58, 9] + PrintValue(x, true, depth)))
    else Quoted(key) + ([58] + PrintValue(x, false, depth))
  }

  /** Two fields: formatted, each on a line of its own. */
  lemma TwoFields(k: Bytes, x: Value, l: Bytes, y: Value, format: bool, depth: nat)
    ensures PrintFields(Child(k, x, Child(l, y, End)), format, depth) ==
            if format then Field(k, x, true, depth) + ([44, 10] + (Field(l, y, true, depth) + [10]))
            else Field(k, x, false, depth) + ([44] + Field(l, y, false, depth))
  {
    hide PrintValue, PrintItems, PrintFields, MoreFields, Quoted, Field;
    var last := Child(l, y, End);
    FieldFirst(k, x, last, format, depth);
    FieldFirst(l, y, End, format, depth);
    FieldsEnd(format, depth);
    FieldsGo(l, y, End, format, depth);
    Parted(Field(l, y, format, depth));
  }

  lemma Parted(t: Bytes)
    ensures t + [] == t
  {}

  lemma FieldsEnd(format: bool, depth: nat)
    ensures MoreFields(End, format, depth) == if format then [10] else []
  {
    assert PrintFields(End, format, depth) == [];
  }

  lemma FieldsGo(l: Bytes, y: Value, next: Node, format: bool, depth: nat)
    ensures MoreFields(Child(l, y, next), format, depth) ==
            (if format then [44, 10] else [44]) + PrintFields(Child(l, y, next), format, depth)
  {
    hide PrintFields;
  }

  lemma FieldFirst(key: Bytes, x: Value, next: Node, format: bool, depth: nat)
    ensures PrintFields(Child(key, x, next), format, depth) ==
            Field(key, x, format, depth) + MoreFields(next, format, depth)
  {
    hide Quoted, PrintValue, PrintItems, MoreFields;
    assert seq(depth, i => 9) == Tabs(depth);
    Regrouped(Indent(format, depth), Quoted(key), Gap(format, TAB), PrintValue(x, format, depth),
      MoreFields(next, format, depth));
    assert [COLON] + Gap(format, TAB) == if format then [58, 9] else [58];
  }

  lemma Regrouped(a: Bytes, b: Bytes, g: Bytes, v: Bytes, more: Bytes)
    ensures a + (b + ([58] + (g + (v + more)))) == (a + (b + (([58] + g) + v))) + more
    ensures a == [] ==> a + (b + (([58] + g) + v)) == b + (([58] + g) + v)
  {}
}
