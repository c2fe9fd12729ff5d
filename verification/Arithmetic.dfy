/** Integer facts the solver does not find alone: positions in lines of fixed length, and residues. */
module Arithmetic {

  lemma NonNegativeTimes(x: int, y: int)
    requires 0 <= x && 0 <= y
    ensures 0 <= x * y
  {
  }

  /** Entry i of line a comes before line b. */
  lemma LineOrder(w: int, a: int, i: int, b: int)
    requires 0 <= i < w && a < b
    ensures a * w + i < b * w
  {
    NonNegativeTimes(b - a - 1, w);
    assert (b - a - 1) * w == b * w - a * w - w;
  }

  lemma LinePosition(w: int, line: int, i: int, lines: int)
    requires 0 <= i < w && 0 <= line < lines
    ensures 0 <= line * w + i < lines * w
  {
    NonNegativeTimes(line, w);
    LineOrder(w, line, i, lines);
  }

  lemma LineUnique(w: int, a: int, i: int, b: int, k: int)
    requires 0 <= i < w && 0 <= k < w && a * w + i == b * w + k
    ensures a == b && i == k
  {
    if a < b { LineOrder(w, a, i, b); }
    if b < a { LineOrder(w, b, k, a); }
  }

  lemma LineBelow(w: int, line: int, i: int, lines: int)
    requires 0 <= i < w && 0 <= line * w + i < lines * w
    ensures 0 <= line < lines
  {
    if line < 0 { LineOrder(w, line, i, 0); }
    if lines < line { LineOrder(w, lines, 0, line); }
  }

  lemma ModTimes(a: int, b: int, m: int)
    requires 0 < m
    ensures (a * (b % m)) % m == (a * b) % m
    ensures ((a % m) * b) % m == (a * b) % m
  {
    ModFactor(a, b, m);
    ModFactor(b, a, m);
  }

  lemma ModFactor(a: int, b: int, m: int)
    requires 0 < m
    ensures (a * (b % m)) % m == (a * b) % m
  {
    var q := b / m;
    assert b == q * m + b % m;
    assert a * b == (a * q) * m + a * (b % m);
    ModMultiple(a * (b % m), a * q, m);
  }

  lemma ModMultiple(x: int, q: int, m: int)
    requires 0 < m
    ensures (q * m + x) % m == x % m
  {
    var d := x / m;
    assert q * m + x == (q + d) * m + x % m;
    DivisionUnique(q * m + x, q + d, x % m, m);
  }

  lemma ModAdds(a: int, b: int, m: int)
    requires 0 < m
    ensures (a % m + b) % m == (a + b) % m
  {
    assert a + b == (a / m) * m + (a % m + b);
    ModMultiple(a % m + b, a / m, m);
  }

  lemma DivisionUnique(n: int, q: int, r: int, m: int)
    requires 0 < m && n == q * m + r && 0 <= r < m
    ensures n % m == r
  {
    LineUnique(m, q, r, n / m, n % m);
  }
}
