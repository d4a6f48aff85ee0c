/** The C++ integer operators the source relies on, where they differ from Dafny's. */
module CInt {

  /** Integer division truncating toward zero. */
  function CDiv(a: int, b: int): (q: int)
    requires b != 0
  {
    var q := Abs(a) / Abs(b);
    if (a < 0) == (b < 0) then q else -q
  }

  /** What a truncated quotient is, without naming a division: what is left is smaller than b and on the
      same side of 0 as a. */
  ghost predicate Quotient(a: int, b: int, q: int) {
    Remains(a, b, a - q * b)
  }

  ghost predicate Remains(a: int, b: int, r: int) {
    Abs(r) < Abs(b) && (a >= 0 ==> r >= 0) && (a <= 0 ==> r <= 0)
  }

  lemma CDivIs(a: int, b: int)
    requires b != 0
    ensures Quotient(a, b, CDiv(a, b))
  {
    hide CDiv;
    var q, r := CDivParts(a, b);
    Signs(q, b);
    RemainderIs(a, b, q, r, CDiv(a, b) * b);
  }

  lemma CDivParts(a: int, b: int) returns (q: int, r: nat)
    requires b != 0
    ensures Abs(a) == q * Abs(b) + r && r < Abs(b)
    ensures CDiv(a, b) == if (a < 0) == (b < 0) then q else -q
  {
    var n, d := Abs(a), Abs(b);
    q, r := n / d, n % d;
  }

  /** The product of the quotient and b, whatever the signs. */
  lemma Signs(q: int, b: int)
    requires b != 0
    ensures q * Abs(b) == if b > 0 then q * b else -(q * b)
    ensures (-q) * b == -(q * b)
  {
  }

  lemma RemainderIs(a: int, b: int, q: int, r: nat, product: int)
    requires b != 0 && Abs(a) == q * Abs(b) + r && r < Abs(b)
    requires q * Abs(b) == if b > 0 then q * b else -(q * b)
    requires product == if (a < 0) == (b < 0) then q * b else -(q * b)
    ensures Remains(a, b, a - product)
  {
  }

  lemma QuotientIsUnique(a: int, b: int, p: int, q: int)
    requires b > 0 && Quotient(a, b, p) && Quotient(a, b, q)
    ensures p == q
  {
    assert (p - q) * b == (a - q * b) - (a - p * b);
    if p > q { MulMono(1, p - q, b); }
    if q > p { MulMono(p - q, -1, b); }
  }

  /** The matching remainder: it takes the sign of the dividend. */
  function CRem(a: int, b: int): (m: int)
    requires b != 0
  {
    var m := Abs(a) % Abs(b);
    if a < 0 then -m else m
  }

  function Abs(a: int): (r: nat) {
    if a >= 0 then a else -a
  }

  /** `static_cast<int>` from a 64-bit value: the 32-bit two's complement number congruent to x. */
  function Narrow32(x: int): (r: int)
    ensures -0x8000_0000 <= r < 0x8000_0000
    decreases if x >= 0 then 2 * x + 1 else -2 * x
  {
    if x >= 0x8000_0000 then Narrow32(x - 0x1_0000_0000)
    else if x < -0x8000_0000 then Narrow32(x + 0x1_0000_0000)
    else x
  }

  lemma {:induction false} NarrowIsCongruent(x: int)
    ensures Narrow32(x) % 0x1_0000_0000 == x % 0x1_0000_0000
    decreases if x >= 0 then 2 * x + 1 else -2 * x
  {
    if x >= 0x8000_0000 { NarrowIsCongruent(x - 0x1_0000_0000); }
    else if x < -0x8000_0000 { NarrowIsCongruent(x + 0x1_0000_0000); }
  }

  /** The source's idiom `((raw % n) + n) % n`, for its n = 256, is the non-negative residue. */
  lemma ShiftedRem(raw: int)
    ensures CRem(CRem(raw, 256) + 256, 256) == raw % 256
  {
    if raw < 0 { NegatedResidue(-raw); }
  }

  lemma NegatedResidue(n: int)
    requires n >= 0
    ensures (-n) % 256 == if n % 256 == 0 then 0 else 256 - n % 256
  {
    var k, m := n / 256, n % 256;
    assert -n == if m == 0 then 256 * (-k) else 256 * (-k - 1) + (256 - m);
  }

  lemma MulMono(x: int, y: int, b: int)
    requires x <= y && b >= 0
    ensures x * b <= y * b
  {
  }

  lemma Distribute(a: int, x: int, y: int)
    ensures a * (x + y) == a * x + a * y
  {
  }

  lemma QuotientBounds(n: nat, b: int, lo: int, hi: int)
    requires b > 0 && lo * b <= n <= hi * b
    ensures lo <= n / b <= hi
  {
    var q := n / b;
    assert q * b <= n < (q + 1) * b;
    if q + 1 <= lo { MulMono(q + 1, lo, b); }
    if hi + 1 <= q { MulMono(hi + 1, q, b); }
  }

  /** A truncated quotient stays between integer bounds on the exact one. */
  lemma CDivBounds(a: int, b: int, lo: int, hi: int)
    requires b > 0 && lo * b <= a <= hi * b
    ensures lo <= CDiv(a, b) <= hi
  {
    if a >= 0 { QuotientBounds(a, b, lo, hi); }
    else {
      assert (-hi) * b <= -a <= (-lo) * b;
      QuotientBounds(-a, b, -hi, -lo);
    }
  }
}
