/** Division facts used wherever the source shifts and masks block numbers. */
module Arith {

  lemma MulMono(a: int, b: int, n: int)
    ensures 0 <= n && a <= b ==> a * n <= b * n
    ensures 0 <= n && a < b ==> a * n + n <= b * n
  {
    assert (a + 1) * n == a * n + n;
  }

  /** Quotient and remainder are determined by x == q * d + r. */
  lemma DivModUnique(x: int, d: int, q: int, r: int)
    requires 0 <= r < d && x == q * d + r
    ensures x / d == q && x % d == r
  {
    var k := x / d;
    assert x == k * d + x % d;
    MulMono(k, q, d);
    MulMono(q, k, d);
  }

  /** Dividing keeps order. */
  lemma DivMono(a: int, b: int, d: int)
    requires 0 < d && a <= b
    ensures a / d <= b / d
  {
    MulMono(b / d, a / d, d);
  }

  // ---------------------------------------------------------------- ranges in slots of size p

  /** First position inside slot j of a range that starts at f. */
  function SlotLo(f: nat, p: nat, j: nat): nat
    requires 0 < p
  {
    if j == f / p then f % p else 0
  }

  /** Last position inside slot j of a range that ends at l. */
  function SlotHi(l: nat, p: nat, j: nat): nat
    requires 0 < p
  {
    if j == l / p then l % p else p - 1
  }

  lemma SlotRange(f: nat, l: nat, p: nat, j: nat)
    requires 0 < p && f <= l && f / p <= j <= l / p
    ensures SlotLo(f, p, j) <= SlotHi(l, p, j) < p
  {
    assert f == f / p * p + f % p && l == l / p * p + l % p;
  }

  /** Position i is in [f, l] exactly when its slot is, and its place in the slot is. */
  lemma SlotSplit(f: nat, l: nat, p: nat, i: nat)
    requires 0 < p
    ensures f <= i <= l <==> f / p <= i / p <= l / p && SlotLo(f, p, i / p) <= i % p <= SlotHi(l, p, i / p)
  {
    SlotBelow(f, i, p);
    SlotBelow(i, l, p);
  }

  lemma SlotBelow(a: nat, b: nat, p: nat)
    requires 0 < p
    ensures a <= b <==> a / p < b / p || (a / p == b / p && a % p <= b % p)
  {
    assert a == a / p * p + a % p && b == b / p * p + b % p;
    MulMono(a / p, b / p, p);
    MulMono(b / p, a / p, p);
  }

  lemma SlotIndex(i: nat, p: nat, n: nat)
    requires 0 < p && i < n * p
    ensures i / p < n && i % p < p
  {
    MulMono(n, i / p, p);
  }

  lemma SlotJoin(j: nat, r: nat, p: nat)
    requires r < p
    ensures (j * p + r) / p == j && (j * p + r) % p == r
  {
    DivModUnique(j * p + r, p, j, r);
  }

  lemma DivDiv(x: nat, a: nat, b: nat)
    requires 0 < a && 0 < b
    ensures 0 < b * a && x / a / b == x / (b * a)
    ensures 0 < x / a ==> a <= x
  {
    var q := x / a;
    assert x == q / b * (b * a) + (q % b * a + x % a) by {
      assert q == q / b * b + q % b;
      assert q * a == q / b * b * a + q % b * a;
      assert q / b * b * a == q / b * (b * a);
    }
    MulMono(q % b, b, a);
    MulMono(0, q % b, a);
    DivModUnique(x, b * a, q / b, q % b * a + x % a);
    MulMono(1, q, a);
  }

  lemma DivModEqual(i: nat, j: nat, p: nat)
    requires 0 < p && i / p == j / p && i % p == j % p
    ensures i == j
  {
  }

  /** Positions [lo * s, hi * s) are those whose slot is in [lo, hi). */
  lemma SlotInterval(b: nat, lo: nat, hi: nat, s: nat)
    requires 0 < s
    ensures lo * s <= b < hi * s <==> lo <= b / s < hi
  {
    assert b == b / s * s + b % s;
    MulMono(lo, b / s, s);
    MulMono(b / s, lo, s);
    MulMono(b / s, hi, s);
    MulMono(hi, b / s, s);
  }
}
