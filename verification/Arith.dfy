/** Small facts about products, quotients and remainders, stated over plain
    numbers so that proofs elsewhere can cite them one at a time. */
module Arith {
  lemma MulPositive(x: int, d: int)
    requires x >= 0 && d >= 0
    ensures x * d >= 0
  {
  }

  lemma SmallMultiple(x: int, d: int)
    requires d > 0 && -d < x * d < d
    ensures x == 0
  {
    assert (x - 1) * d == x * d - d;
    assert (-1 - x) * d == -d - x * d;
    if x > 0 { MulPositive(x - 1, d); }
    if x < 0 { MulPositive(-1 - x, d); }
  }

  lemma DivModUnique(a: int, d: int, q: int, r: int)
    requires d > 0 && 0 <= r < d && a == q * d + r
    ensures a / d == q && a % d == r
  {
    var q', r' := a / d, a % d;
    assert a == d * q' + r';
    assert (q - q') * d == q * d - d * q';
    SmallMultiple(q - q', d);
  }

  lemma MulAssoc(a: int, b: int, c: int)
    ensures (a * b) * c == a * (b * c)
  {
  }

  lemma MulDist(a: int, b: int, c: int)
    ensures (a + b) * c == a * c + b * c
  {
  }

  lemma MulLess(a: nat, b: nat, c: nat)
    requires a < b
    ensures a * c + c <= b * c
  {
    MulPositive(b - 1 - a, c);
    MulDist(b - 1 - a, a, c);
    MulDist(b, -1, c);
  }

  lemma SumFits(low: nat, high: nat, p: nat, l: nat)
    requires low < p && high < l
    ensures low + high * p < l * p
  {
    MulLess(high, l, p);
  }

  lemma DivFits(v: nat, p: nat, l: nat)
    requires v < l * p && p > 0
    ensures v / p < l
  {
    var q := v / p;
    assert v == p * q + v % p;
    if q >= l { MulLess(l, q + 1, p); MulDist(q, 1, p); }
  }

  lemma DivDiv(v: nat, a: nat, b: nat)
    requires a > 0 && b > 0
    ensures a * b > 0 && v / a / b == v / (a * b)
  {
    var q, r := v / a, v % a;
    var q2, r2 := q / b, q % b;
    MulLess(0, a, b);
    DivDivParts(v, a, b, q, r, q2, r2);
    DivModUnique(v, a * b, q2, r2 * a + r);
  }

  lemma DivDivParts(v: nat, a: nat, b: nat, q: nat, r: nat, q2: nat, r2: nat)
    requires v == a * q + r && q == b * q2 + r2 && r < a && r2 < b
    ensures v == q2 * (a * b) + (r2 * a + r) && 0 <= r2 * a && r2 * a + r < a * b
  {
    MulDist(b * q2, r2, a);
    MulAssoc(q2, b, a);
    MulLess(r2, b, a);
    MulPositive(r2, a);
  }

  lemma ModParts(t: nat, d: nat)
    requires d > 0
    ensures t == t % d + (t / d) * d
  {
  }

  /** A value shifted left by p inside a window of n == p * r: what stays and what spills. */
  lemma ShiftSpill(buf: nat, value: nat, p: nat, r: nat, n: nat)
    requires p * r == n && p > 0 && r > 0 && buf < p && n > 0
    ensures (value * p) % n == (value % r) * p
    ensures (buf + value * p) % n == buf + (value % r) * p
    ensures value / r == (buf + value * p) / n
  {
    var q, m := value / r, value % r;
    ShiftSpillParts(buf, value, p, r, q, m, n);
    DivModUnique(value * p, n, q, m * p);
    DivModUnique(buf + value * p, n, q, buf + m * p);
  }

  lemma ShiftSpillParts(buf: nat, value: nat, p: nat, r: nat, q: nat, m: nat, n: nat)
    requires p * r == n && value == q * r + m && m < r && buf < p
    ensures value * p == q * n + m * p && 0 <= m * p && buf + m * p < n
  {
    MulDist(q * r, m, p);
    MulAssoc(q, r, p);
    MulPositive(r - 1 - m, p);
    MulDist(r - 1 - m, m, p);
    MulDist(r, -1, p);
    MulPositive(m, p);
  }

  lemma ModDouble(a: nat, p: nat)
    requires p > 0
    ensures a % (2 * p) == 2 * ((a / 2) % p) + a % 2
    ensures (a % (2 * p)) / 2 == (a / 2) % p && (a % (2 * p)) % 2 == a % 2
  {
    var q, r := (a / 2) / p, (a / 2) % p;
    assert a / 2 == p * q + r;
    MulAssoc(2, p, q);
    assert a == q * (2 * p) + (2 * r + a % 2);
    DivModUnique(a, 2 * p, q, 2 * r + a % 2);
  }
}
