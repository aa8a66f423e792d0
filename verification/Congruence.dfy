/** Congruence modulo a number. */
module Congruence {

  ghost predicate CongBy(x: int, y: int, n: int, k: int) {
    x == y + k * n
  }

  /** x and y differ by a multiple of n. */
  ghost predicate Cong(x: int, y: int, n: int) {
    exists k: int :: CongBy(x, y, n, k)
  }

  lemma CongIs(x: int, y: int, n: int, k: int)
    requires x == y + k * n
    ensures Cong(x, y, n)
  {
    assert CongBy(x, y, n, k);
  }

  lemma CongRefl(x: int, n: int)
    ensures Cong(x, x, n)
  {
    CongIs(x, x, n, 0);
  }

  lemma CongSym(x: int, y: int, n: int)
    requires Cong(x, y, n)
    ensures Cong(y, x, n)
  {
    var k :| CongBy(x, y, n, k);
    CongIs(y, x, n, -k);
  }

  lemma CongTrans(x: int, y: int, z: int, n: int)
    requires Cong(x, y, n) && Cong(y, z, n)
    ensures Cong(x, z, n)
  {
    var k :| CongBy(x, y, n, k);
    var j :| CongBy(y, z, n, j);
    assert k * n + j * n == (k + j) * n;
    CongIs(x, z, n, k + j);
  }

  lemma CongMul(x: int, y: int, u: int, v: int, n: int)
    requires Cong(x, y, n) && Cong(u, v, n)
    ensures Cong(x * u, y * v, n)
  {
    var k :| CongBy(x, y, n, k);
    var j :| CongBy(u, v, n, j);
    Expand(y, k, v, j, n);
    CongIs(x * u, y * v, n, y * j + k * v + k * j * n);
  }

  lemma Expand(y: int, k: int, v: int, j: int, n: int)
    ensures (y + k * n) * (v + j * n) == y * v + (y * j + k * v + k * j * n) * n
  {
    assert (y + k * n) * (v + j * n) == y * (v + j * n) + (k * n) * (v + j * n);
    assert y * (v + j * n) == y * v + (y * j) * n;
    assert (k * n) * (v + j * n) == (k * v) * n + (k * j * n) * n;
    assert (y * j + k * v + k * j * n) * n == (y * j) * n + (k * v) * n + (k * j * n) * n;
  }

  lemma CongAdd(x: int, y: int, u: int, v: int, n: int)
    requires Cong(x, y, n) && Cong(u, v, n)
    ensures Cong(x + u, y + v, n)
  {
    var k :| CongBy(x, y, n, k);
    var j :| CongBy(u, v, n, j);
    assert k * n + j * n == (k + j) * n;
    CongIs(x + u, y + v, n, k + j);
  }

  /** A factor that has an inverse can be cancelled. */
  lemma CongCancel(x: int, y: int, p: int, q: int, n: int)
    requires Cong(x * p, y * p, n) && Cong(p * q, 1, n)
    ensures Cong(x, y, n)
  {
    CongRefl(q, n);
    CongMul(x * p, y * p, q, q, n);
    CongRefl(x, n);
    CongRefl(y, n);
    CongMul(x, x, p * q, 1, n);
    CongMul(y, y, p * q, 1, n);
    assert (x * p) * q == x * (p * q) && (y * p) * q == y * (p * q);
    CongSym(x * (p * q), x * 1, n);
    CongTrans(x * 1, x * (p * q), y * (p * q), n);
    CongTrans(x * 1, y * (p * q), y * 1, n);
  }

  /** Congruence is having the same remainder. */
  lemma CongMod(x: int, y: int, n: int)
    requires 0 < n
    ensures Cong(x, y, n) <==> x % n == y % n
  {
    var a, r, b, s := x / n, x % n, y / n, y % n;
    assert x == n * a + r && y == n * b + s;
    if Cong(x, y, n) {
      var k :| CongBy(x, y, n, k);
      assert r - s == (b + k - a) * n;
      SmallMultiple(r - s, b + k - a, n);
    }
    if r == s {
      assert x == y + (a - b) * n;
      CongIs(x, y, n, a - b);
    }
  }

  lemma SmallMultiple(d: int, k: int, n: int)
    requires d == k * n && -n < d < n && 0 < n
    ensures d == 0
  {
    assert k > 0 ==> k * n >= n;
    assert k < 0 ==> k * n <= -n;
  }
}
