/** Arithmetic several modules share, the products each in a lemma of its own. */
module Arithmetic {
  function Min(a: nat, b: nat): nat {
    if a <= b then a else b
  }

  function Max(a: nat, b: nat): nat {
    if a >= b then a else b
  }

  lemma TimesMonotone(a: int, b: int, c: nat)
    ensures a <= b ==> a * c <= b * c
  {
  }

  lemma Distribute(a: nat, b: nat, c: nat)
    ensures (a + b) * c == a * c + b * c
  {
  }

  /** Quotient and remainder are determined by their defining equation. */
  lemma ModUnique(a: nat, n: nat, q: nat, r: nat)
    requires a == q * n + r && r < n
    ensures a % n == r && a / n == q
  {
    var d, m := a / n, a % n;
    assert a == d * n + m;
    assert (q - d) * n == q * n - d * n && (d - q) * n == d * n - q * n;
    TimesMonotone(1, q - d, n);
    TimesMonotone(1, d - q, n);
  }

  /** Taking one divisor off leaves the remainder. */
  lemma ModLess(a: nat, n: nat)
    requires 0 < n <= a
    ensures (a - n) % n == a % n
  {
    var q := a / n;
    assert a == q * n + a % n;
    TimesMonotone(q, 0, n);
    Distribute(q - 1, 1, n);
    ModUnique(a - n, n, q - 1, a % n);
  }

  /** Neighbours leave different remainders, by any divisor but one. */
  lemma ModNext(a: nat, n: nat)
    requires n > 1
    ensures (a + 1) % n != a % n
  {
    var q, r := a / n, a % n;
    assert a == q * n + r;
    if r + 1 < n {
      ModUnique(a + 1, n, q, r + 1);
    } else {
      Distribute(q, 1, n);
      ModUnique(a + 1, n, q + 1, 0);
    }
  }

  /** Bitwise and. */
  function BitAnd(a: nat, b: nat): nat {
    if a == 0 || b == 0 then 0 else 2 * BitAnd(a / 2, b / 2) + if a % 2 == 1 && b % 2 == 1 then 1 else 0
  }

  lemma HalfRemainder(a: nat, m: nat)
    requires m > 0
    ensures a % (2 * m) == 2 * (a / 2 % m) + a % 2
  {
    var h := a / 2;
    var q, r := h / m, h % m;
    assert h == q * m + r;
    assert q * (2 * m) == 2 * (q * m);
    ModUnique(a, 2 * m, q, 2 * r + a % 2);
  }
}
