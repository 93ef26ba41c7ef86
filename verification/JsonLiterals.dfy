/**
  Which string literals the JSON parser (runtime/cJSON.c) accepts, compared with section 7 of
  RFC 8259. It takes some that the grammar forbids (control bytes as they are, and \u followed by
  something other than four hexadecimal digits), and refuses those whose surrogates are not paired.
*/
module JsonLiterals {
  import opened Options
  import opened ByteText
  import opened JsonText
  import opened JsonStrings

  predicate NoControls(t: Bytes) { forall k :: 0 <= k < |t| ==> t[k] >= 32 }

  predicate HexAt(t: Bytes, i: nat)
    requires i + 4 <= |t|
  {
    forall k :: i <= k < i + 4 ==> HexValue(t[k]).Some?
  }

  // Every \u is followed by four hexadecimal digits.
  predicate HexGood(t: Bytes)
    decreases |t|
  {
    if |t| < 2 then true
    else if t[0] != BACKSLASH then HexGood(t[1..])
    else if t[1] == 117 then |t| >= 6 && HexAt(t, 2) && HexGood(t[6..])
    else HexGood(t[2..])
  }

  predicate High(code: nat) { 0xD800 <= code <= 0xDBFF }
  predicate Low(code: nat) { 0xDC00 <= code <= 0xDFFF }

  // Every \u that is a high surrogate is followed by one that is low, and no other is low.
  predicate Paired(t: Bytes)
    decreases |t|
  {
    if |t| < 2 then true
    else if t[0] != BACKSLASH then Paired(t[1..])
    else if t[1] == 117 && |t| >= 6 then
      var code := Hex4(t, 2);
      if High(code) then
        |t| >= 12 && t[6] == BACKSLASH && t[7] == 117 && Low(Hex4(t, 8)) && Paired(t[12..])
      else !Low(code) && Paired(t[6..])
    else Paired(t[2..])
  }

  lemma {:induction false} LegalIsClean(t: Bytes)
    requires Legal(t)
    ensures NoControls(t) && HexGood(t)
    decreases |t|
  {
    if t != [] {
      if Unescaped(t[0]) {
        LegalIsClean(t[1..]);
        CleanAfter(t, 1);
      } else if t[1] != 117 {
        LegalIsClean(t[2..]);
        CleanAfter(t, 2);
      } else {
        LegalIsClean(t[6..]);
        CleanAfter(t, 6);
      }
    }
  }

  lemma CleanAfter(t: Bytes, n: nat)
    requires n <= |t| && NoControls(t[n..]) && forall k :: 0 <= k < n ==> t[k] >= 32
    ensures NoControls(t)
  {
    forall k | n <= k < |t| ensures t[k] >= 32 { assert t[k] == t[n..][k - n]; }
  }

  lemma Rest(s: Bytes, i: nat, end: nat, n: nat)
    requires i + n <= end <= |s|
    ensures s[i..end][n..] == s[i + n..end]
  {}

  // Digits are neither quotes nor backslashes, so the search for the end walks over them.
  lemma EndAfterHex(s: Bytes, i: nat)
    requires i + 6 <= |s| && s[i] == BACKSLASH && s[i + 1] == 117 && HexAt(s, i + 2)
    ensures StringEnd(s, i) == StringEnd(s, i + 6)
  {
    assert forall k :: i + 2 <= k < i + 6 ==> s[k] != QUOTE && s[k] != BACKSLASH;
    assert StringEnd(s, i) == StringEnd(s, i + 2) == StringEnd(s, i + 3);
    assert StringEnd(s, i + 3) == StringEnd(s, i + 4) == StringEnd(s, i + 5);
  }

  lemma SameHex(s: Bytes, i: nat, end: nat, k: nat)
    requires i + k + 4 <= end <= |s|
    ensures Hex4(s[i..end], k) == Hex4(s, i + k)
    ensures HexAt(s[i..end], k) <==> HexAt(s, i + k)
  {
    var t := s[i..end];
    assert t[k] == s[i + k] && t[k + 1] == s[i + k + 1] && t[k + 2] == s[i + k + 2] && t[k + 3] == s[i + k + 3];
    if HexAt(t, k) {
      forall j | i + k <= j < i + k + 4 ensures HexValue(s[j]).Some? { assert s[j] == t[j - i]; }
    }
    if HexAt(s, i + k) {
      forall j | k <= j < k + 4 ensures HexValue(t[j]).Some? { assert t[j] == s[i + j]; }
    }
  }

  // ---------- Accepted literals that the grammar allows ----------

  lemma {:induction false} CleanIsLegal(s: Bytes, i: nat, end: nat)
    requires i <= end < |s| && StringEnd(s, i) == Some(end) && Decode(s, i, end).Some?
    requires NoControls(s[i..end]) && HexGood(s[i..end])
    ensures Legal(s[i..end])
    decreases end - i
  {
    if i < end {
      var t := s[i..end];
      assert t[0] == s[i];
      if s[i] != BACKSLASH {
        CleanStep(s, i, end, 1);
        CleanIsLegal(s, i + 1, end);
      } else if s[i + 1] != 117 {
        CleanStep(s, i, end, 2);
        CleanIsLegal(s, i + 2, end);
      } else {
        CleanEscape(s, i, end);
      }
    }
  }

  lemma CleanStep(s: Bytes, i: nat, end: nat, n: nat)
    requires i + n <= end < |s| && NoControls(s[i..end])
    ensures s[i..end][n..] == s[i + n..end] && NoControls(s[i + n..end])
  {
    forall k | i + n <= k < end ensures s[k] >= 32 { assert s[k] == s[i..end][k - i]; }
  }

  lemma HexEscape(s: Bytes, i: nat, end: nat)
    requires i < end < |s| && StringEnd(s, i) == Some(end) && s[i] == BACKSLASH && s[i + 1] == 117
    requires NoControls(s[i..end]) && HexGood(s[i..end])
    ensures i + 6 <= end && HexAt(s, i + 2) && StringEnd(s, i + 6) == Some(end)
    ensures NoControls(s[i + 6..end]) && HexGood(s[i + 6..end])
  {
    var t := s[i..end];
    assert t[0] == s[i] && t[1] == s[i + 1];
    SameHex(s, i, end, 2);
    EndAfterHex(s, i);
    CleanStep(s, i, end, 6);
  }

  lemma LegalEscape(s: Bytes, i: nat, end: nat)
    requires i + 6 <= end < |s| && s[i] == BACKSLASH && s[i + 1] == 117 && HexAt(s, i + 2)
    ensures Legal(s[i..end]) <==> Legal(s[i + 6..end])
  {
    var t := s[i..end];
    assert t[0] == s[i] && t[1] == s[i + 1] && t[6..] == s[i + 6..end];
    SameHex(s, i, end, 2);
  }

  lemma {:induction false} CleanEscape(s: Bytes, i: nat, end: nat)
    requires i < end < |s| && StringEnd(s, i) == Some(end) && Decode(s, i, end).Some?
    requires s[i] == BACKSLASH && s[i + 1] == 117 && NoControls(s[i..end]) && HexGood(s[i..end])
    ensures Legal(s[i..end])
    decreases end - i, 0
  {
    hide Legal, HexGood, StringEnd, Decode, NoControls, Hex4;
    HexEscape(s, i, end);
    DecodeUnit(s, i, end);
    if Unit(s, i, end).value.1 == 12 {
      HexEscape(s, i + 6, end);
      CleanIsLegal(s, i + 12, end);
      LegalEscape(s, i + 6, end);
    } else {
      CleanIsLegal(s, i + 6, end);
    }
    LegalEscape(s, i, end);
  }

  /** An accepted literal is one of the grammar exactly when it has no control byte and every \u is
      followed by four hexadecimal digits. */
  lemma AcceptedIsLegalIff(s: Bytes, start: nat)
    requires start < |s| && ParseString(s, start).Some?
    ensures var end := ParseString(s, start).value.1 - 1;
            && start + 1 <= end
            && (Legal(s[start + 1..end]) <==> NoControls(s[start + 1..end]) && HexGood(s[start + 1..end]))
  {
    var end := ParseString(s, start).value.1 - 1;
    var body := s[start + 1..end];
    if Legal(body) { LegalIsClean(body); }
    if NoControls(body) && HexGood(body) { CleanIsLegal(s, start + 1, end); }
  }

  // The literals "\uZZZZ" and a line feed between quotes.
  const BAD_HEX: Bytes := [QUOTE, BACKSLASH, 117, 90, 90, 90, 90, QUOTE]
  const BARE_CONTROL: Bytes := [QUOTE, NEWLINE, QUOTE]

  lemma AcceptsIllegalLiterals()
    ensures ParseString(BAD_HEX, 0) == Some(([0], 8)) && !Legal(BAD_HEX[1..7])
    ensures ParseString(BARE_CONTROL, 0) == Some(([NEWLINE], 3)) && !Legal(BARE_CONTROL[1..2])
  {
    var s := BAD_HEX;
    assert StringEnd(s, 1) == StringEnd(s, 3) == StringEnd(s, 4) == StringEnd(s, 5);
    assert StringEnd(s, 5) == StringEnd(s, 6) == StringEnd(s, 7) == Some(7);
    DecodeUnit(s, 1, 7);
    assert Hex4(s, 3) == 0 && Utf16Literal(s, 1, 7) == Some(([0], 6));
    assert [0] + [] == [0 as Byte];
    AcceptedIsLegalIff(s, 0);
    var c := BARE_CONTROL;
    assert StringEnd(c, 1) == StringEnd(c, 2) == Some(2);
    DecodeUnit(c, 1, 2);
    assert [NEWLINE] + [] == [NEWLINE];
  }

  // ---------- Literals of the grammar that are accepted ----------

  lemma {:induction false} LegalDecodesIff(s: Bytes, i: nat, end: nat)
    requires i <= end < |s| && s[end] == QUOTE && Legal(s[i..end])
    ensures StringEnd(s, i) == Some(end)
    ensures Decode(s, i, end).Some? <==> Paired(s[i..end])
    decreases end - i
  {
    if i < end {
      var t := s[i..end];
      assert t[0] == s[i] && (i + 1 < end ==> t[1] == s[i + 1]);
      if s[i] != BACKSLASH {
        Rest(s, i, end, 1);
        LegalDecodesIff(s, i + 1, end);
      } else if s[i + 1] != 117 {
        Rest(s, i, end, 2);
        LegalDecodesIff(s, i + 2, end);
      } else {
        LegalHex(s, i, end);
        LegalDecodesIff(s, i + 6, end);
        if i + 12 <= end && s[i + 6] == BACKSLASH && s[i + 7] == 117 {
          LegalHex(s, i + 6, end);
          LegalDecodesIff(s, i + 12, end);
        }
        EscapeDecodesIff(s, i, end);
      }
    }
  }

  lemma LegalHex(s: Bytes, i: nat, end: nat)
    requires i < end < |s| && s[end] == QUOTE && Legal(s[i..end]) && s[i] == BACKSLASH && s[i + 1] == 117
    ensures i + 6 <= end && HexAt(s, i + 2) && Legal(s[i + 6..end])
  {
    var t := s[i..end];
    assert t[0] == s[i] && (i + 1 < end ==> t[1] == s[i + 1]);
    Rest(s, i, end, 6);
    SameHex(s, i, end, 2);
  }

  lemma EscapeDecodesIff(s: Bytes, i: nat, end: nat)
    requires i + 6 <= end < |s| && s[i] == BACKSLASH && s[i + 1] == 117 && HexAt(s, i + 2)
    requires Decode(s, i + 6, end).Some? <==> Paired(s[i + 6..end])
    requires i + 12 <= end && s[i + 6] == BACKSLASH && s[i + 7] == 117 ==>
               (Decode(s, i + 12, end).Some? <==> Paired(s[i + 12..end]))
    requires StringEnd(s, i + 6) == Some(end)
    ensures StringEnd(s, i) == Some(end)
    ensures Decode(s, i, end).Some? <==> Paired(s[i..end])
  {
    EndAfterHex(s, i);
    DecodeUnit(s, i, end);
    PairedUnfolds(s, i, end);
    hide Decode, Paired, StringEnd, Hex4;
  }

  lemma PairedUnfolds(s: Bytes, i: nat, end: nat)
    requires i + 6 <= end < |s| && s[i] == BACKSLASH && s[i + 1] == 117
    ensures Paired(s[i..end]) <==>
            if High(Hex4(s, i + 2)) then
              i + 12 <= end && s[i + 6] == BACKSLASH && s[i + 7] == 117 && Low(Hex4(s, i + 8)) && Paired(s[i + 12..end])
            else !Low(Hex4(s, i + 2)) && Paired(s[i + 6..end])
  {
    hide Hex4;
    var t := s[i..end];
    assert t[0] == s[i] && t[1] == s[i + 1];
    SameHex(s, i, end, 2);
    Rest(s, i, end, 6);
    if i + 12 <= end {
      assert t[6] == s[i + 6] && t[7] == s[i + 7];
      SameHex(s, i, end, 8);
      Rest(s, i, end, 12);
    }
  }

  /** A literal of the grammar is accepted exactly when its surrogates are paired. */
  lemma LegalIsAcceptedIff(body: Bytes)
    requires Legal(body)
    ensures ParseString([QUOTE] + body + [QUOTE], 0).Some? <==> Paired(body)
  {
    var s := [QUOTE] + body + [QUOTE];
    var end := |body| + 1;
    assert s[1..end] == body;
    LegalDecodesIff(s, 1, end);
  }
}
