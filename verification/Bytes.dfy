/** Bytes, little-endian integers and the bounds-checked reads of the decoder. */
module ByteOrder {
  type byte = x: int | 0 <= x < 256
  type Bytes = seq<byte>

  function Pow256(w: nat): (p: nat)
    ensures p > 0
  {
    if w == 0 then 1 else 256 * Pow256(w - 1)
  }

  /** The product of two sizes. */
  function Times(a: nat, b: nat): nat { a * b }

  lemma TimesSplit(a: nat, b: nat, c: nat)
    ensures Times(a, b + c) == Times(a, b) + Times(a, c) && Times(a, 1) == a && Times(a, 0) == 0
  {
  }

  function LE(bytes: Bytes): nat {
    if bytes == [] then 0 else bytes[0] + 256 * LE(bytes[1..])
  }

  function LEBytes(x: nat, w: nat): (bytes: Bytes)
    ensures |bytes| == w
  {
    if w == 0 then [] else [x % 256] + LEBytes(x / 256, w - 1)
  }

  lemma {:induction false} LERoundTrip(x: nat, w: nat)
    requires x < Pow256(w)
    ensures LE(LEBytes(x, w)) == x
  {
    if w > 0 {
      LERoundTrip(x / 256, w - 1);
      assert LEBytes(x, w)[1..] == LEBytes(x / 256, w - 1);
    }
  }

  lemma {:induction false} LEBound(bytes: Bytes)
    ensures LE(bytes) < Pow256(|bytes|)
  {
    if bytes != [] { LEBound(bytes[1..]); }
  }

  /** `memcpy` of w bytes read as an unsigned number; 0 when it would leave the buffer. */
  function ReadUnsigned(buf: Bytes, offset: nat, w: nat): nat {
    if offset + w > |buf| then 0 else LE(buf[offset..offset + w])
  }

  /** The two's complement reading of a w-byte number. */
  function Signed(x: nat, w: nat): int {
    if 2 * x < Pow256(w) then x else x - Pow256(w)
  }

  function ReadSigned(buf: Bytes, offset: nat, w: nat): int {
    Signed(ReadUnsigned(buf, offset, w), w)
  }

  function Unsigned(x: int, w: nat): int {
    if x >= 0 then x else x + Pow256(w)
  }

  function SignedBytes(x: int, w: nat): (bytes: Bytes)
    requires 0 <= 2 * x + Pow256(w) && 2 * x < Pow256(w)
    ensures |bytes| == w
  {
    LEBytes(Unsigned(x, w), w)
  }

  lemma {:induction false} SignedRoundTrip(x: int, w: nat)
    requires 0 <= 2 * x + Pow256(w) && 2 * x < Pow256(w)
    ensures Signed(LE(SignedBytes(x, w)), w) == x
  {
    LERoundTrip(Unsigned(x, w), w);
  }

  /** A read that lies inside the middle part of a buffer sees that part only. */
  lemma ReadMiddle(pre: Bytes, mid: Bytes, post: Bytes, offset: nat, w: nat)
    requires offset + w <= |mid|
    ensures ReadUnsigned(pre + mid + post, |pre| + offset, w) == ReadUnsigned(mid, offset, w)
  {
    var buf := pre + mid + post;
    assert buf[|pre| + offset..|pre| + offset + w] == mid[offset..offset + w];
  }

  lemma ReadAppended(buf: Bytes, extra: Bytes, offset: nat, w: nat)
    requires offset + w <= |buf|
    ensures ReadUnsigned(buf + extra, offset, w) == ReadUnsigned(buf, offset, w)
  {
    assert (buf + extra)[offset..offset + w] == buf[offset..offset + w];
  }

  lemma ReadDropped(buf: Bytes, k: nat, offset: nat, w: nat)
    requires k <= |buf|
    ensures ReadUnsigned(buf, k + offset, w) == ReadUnsigned(buf[k..], offset, w)
  {
    if k + offset + w <= |buf| {
      assert buf[k..][offset..offset + w] == buf[k + offset..k + offset + w];
    }
  }

  // ----- C strings -----

  const NUL: byte := 0

  ghost predicate NulFree(s: Bytes) { NUL !in s }

  /** What a C caller sees of the bytes from its pointer on. */
  function CString(s: Bytes): (t: Bytes)
    ensures t <= s && NulFree(t)
  {
    if s == [] || s[0] == NUL then [] else [s[0]] + CString(s[1..])
  }

  /** A text that ends in a NUL is seen whole exactly when it holds no other. */
  lemma {:induction false} CStringWhole(text: Bytes, rest: Bytes)
    ensures CString(text + [NUL] + rest) == CString(text)
    ensures CString(text) == text <==> NulFree(text)
  {
    if text == [] {
      assert ([] + [NUL] + rest)[0] == NUL;
    } else {
      assert (text + [NUL] + rest)[1..] == text[1..] + [NUL] + rest;
      CStringWhole(text[1..], rest);
      assert text == [text[0]] + text[1..];
    }
  }

  /** `text` lies at `at` with a NUL behind it; it may hold a NUL itself. */
  ghost predicate StartsAt(buf: Bytes, at: nat, text: Bytes) {
    at + |text| < |buf| && buf[at..at + |text|] == text && buf[at + |text|] == NUL
  }

  /** `text` is the C string at `at`. */
  ghost predicate StringAt(buf: Bytes, at: nat, text: Bytes) {
    StartsAt(buf, at, text) && NulFree(text)
  }

  function CStringAt(buf: Bytes, at: nat): Bytes
    requires at <= |buf|
  {
    CString(buf[at..])
  }

  lemma {:induction false} SeenAt(buf: Bytes, at: nat, text: Bytes)
    requires StartsAt(buf, at, text)
    ensures CStringAt(buf, at) == CString(text) && (CStringAt(buf, at) == text <==> NulFree(text))
  {
    hide CString, NulFree;
    CStringWhole(text, buf[at + |text| + 1..]);
    assert buf[at..] == text + [NUL] + buf[at + |text| + 1..];
  }

  lemma CStringStep(buf: Bytes, at: nat)
    requires at < |buf|
    ensures CStringAt(buf, at) == if buf[at] == NUL then [] else [buf[at]] + CStringAt(buf, at + 1)
  {
    hide NulFree;
    assert buf[at..][1..] == buf[at + 1..];
  }
}
