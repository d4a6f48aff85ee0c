/** Powers of two and remainders by a positive variable divisor. */
module ModArith {

  function Pow2(n: nat): (p: nat)
    ensures p > 0
  {
    if n == 0 then 1 else 2 * Pow2(n - 1)
  }

  lemma MulAtLeast(k: int, n: int)
    requires n > 0
    ensures k >= 1 ==> k * n >= n
    ensures k <= -1 ==> k * n <= -n
  {
    assert k >= 1 ==> (k - 1) * n >= 0;
    assert k <= -1 ==> (-1 - k) * n >= 0;
  }

  lemma RemainderIsUnique(q: int, r: int, q': int, r': int, n: int)
    requires n > 0 && 0 <= r < n && 0 <= r' < n && q * n + r == q' * n + r'
    ensures q == q' && r == r'
  {
    MulAtLeast(q - q', n);
    assert (q - q') * n == r' - r;
  }

  lemma ModIs(a: int, q: int, r: int, n: int)
    requires n > 0 && 0 <= r < n && a == q * n + r
    ensures a % n == r
  {
    var q' := a / n;
    assert a == q' * n + a % n;
    RemainderIsUnique(q, r, q', a % n, n);
  }

  lemma ModPlus(a: nat, n: nat)
    requires n > 0
    ensures (a + n) % n == a % n
  {
    var q := a / n;
    assert a == q * n + a % n;
    assert a + n == (q + 1) * n + a % n;
    ModIs(a + n, q + 1, a % n, n);
  }

  lemma ModAdd(a: nat, b: nat, n: nat)
    requires n > 0
    ensures (a % n + b) % n == (a + b) % n
  {
    var q, c := a / n, (a % n + b) / n;
    var r := (a % n + b) % n;
    assert a == q * n + a % n && a % n + b == c * n + r;
    assert a + b == (q + c) * n + r;
    ModIs(a + b, q + c, r, n);
  }

  lemma ModDistinct(a: nat, b: nat, n: nat)
    requires n > 0 && a < b < a + n
    ensures a % n != b % n
  {
    var q, q' := a / n, b / n;
    assert a == q * n + a % n && b == q' * n + b % n;
    MulAtLeast(q' - q, n);
    assert (q' - q) * n == q' * n - q * n;
  }

  lemma ModSmall(a: nat, n: nat)
    requires a < n
    ensures a % n == a
  {
    ModIs(a, 0, a, n);
  }
}
