/** A value or nothing. */
module Options {
  datatype Option<+T> = None | Some(value: T)
}

/** Byte buffers and the pieces of text found in them. */
module ByteText {

  type Byte = b: int | 0 <= b < 256
  type Bytes = seq<Byte>

  // The text t stands in the buffer at i.
  predicate At(s: Bytes, i: nat, t: Bytes) { i + |t| <= |s| && s[i..i + |t|] == t }

  lemma AtSplit(s: Bytes, i: nat, a: Bytes, b: Bytes)
    ensures At(s, i, a + b) <==> At(s, i, a) && At(s, i + |a|, b)
  {
    if At(s, i, a + b) {
      assert s[i..i + |a|] == s[i..i + |a + b|][..|a|] == a;
      assert s[i + |a|..i + |a| + |b|] == s[i..i + |a + b|][|a|..] == b;
    }
    if At(s, i, a) && At(s, i + |a|, b) {
      assert s[i..i + |a + b|] == s[i..i + |a|] + s[i + |a|..i + |a| + |b|];
    }
  }

  lemma AtByte(s: Bytes, i: nat, t: Bytes, k: nat)
    requires At(s, i, t) && k < |t|
    ensures i + k < |s| && s[i + k] == t[k]
  {
    assert s[i + k] == s[i..i + |t|][k];
  }

  // Writes t into the buffer at `at`.
  method WriteAt(buffer: array<Byte>, at: nat, t: Bytes)
    requires at + |t| <= buffer.Length
    modifies buffer
    ensures buffer[..at + |t|] == old(buffer[..at]) + t
  {
    for k := 0 to |t|
      invariant buffer[..at] == old(buffer[..at])
      invariant buffer[at..at + k] == t[..k]
    {
      buffer[at + k] := t[k];
    }
    assert buffer[..at + |t|] == buffer[..at] + buffer[at..at + |t|];
  }
}

/** Euclidean division by its defining equation. */
module Division {
  lemma Quotient(n: nat, d: nat, q: nat, r: nat)
    requires d > 0 && r < d && n == q * d + r
    ensures n / d == q && n % d == r
  {
    var e := n / d - q;
    assert n == (n / d) * d + n % d;
    assert e * d == r - n % d;
    assert e >= 1 ==> e * d >= d;
    assert e <= -1 ==> e * d + d <= 0;
  }
}

/** The widths of C integers. */
module CInts {
  const INT_MIN: int := -0x8000_0000
  const INT_MAX: nat := 0x7FFF_FFFF
  const UINT32: nat := 0x1_0000_0000

  type Int32 = n: int | INT_MIN <= n <= INT_MAX
}
