/** Products, quotients and scaled intervals of real numbers, in steps that each need one product. */
module Reals {

  lemma {:induction false} ProductSign(x: real, c: real)
    requires c > 0.0
    ensures x >= 0.0 <==> x * c >= 0.0
    ensures x > 0.0 <==> x * c > 0.0
  {
    if x > 0.0 {
      assert x * c > 0.0;
    } else if x < 0.0 {
      assert (-x) * c > 0.0;
    }
  }

  lemma {:induction false} Assoc(x: real, y: real, z: real)
    ensures x * (y * z) == (x * y) * z
  {
  }

  lemma {:induction false} QuotientTimes(u: real, c: real) returns (y: real)
    requires c > 0.0
    ensures y == u / c && y * c == u
  {
    y := u / c;
  }

  /** The products are named, so that what is said of them stays linear. */
  lemma {:induction false} ProductOrder(x: real, y: real, c: real, xc: real, yc: real)
    requires c > 0.0 && xc == x * c && yc == y * c
    ensures x <= y <==> xc <= yc
    ensures x < y <==> xc < yc
  {
    var d := Difference(x, y, c, xc, yc);
    ProductSign(y - x, c);
  }

  lemma {:induction false} Difference(x: real, y: real, c: real, xc: real, yc: real) returns (d: real)
    requires xc == x * c && yc == y * c
    ensures d == (y - x) * c && d == yc - xc
  {
    d := (y - x) * c;
  }

  /** A number scaled to a unit interval. */
  lemma {:induction false} UnitInterval(u: real, c: real)
    requires c > 0.0
    ensures 0.0 <= u / c <==> 0.0 <= u
    ensures u / c < 1.0 <==> u < c
  {
    var y := QuotientTimes(u, c);
    ProductOrder(0.0, y, c, 0.0, u);
    ProductOrder(y, 1.0, c, u, c);
  }

  lemma {:induction false} ProductOfNats(a: nat, b: nat)
    ensures (a * b) as real == a as real * b as real
  {
    if a > 0 {
      ProductOfNats(a - 1, b);
      Plus(a, b);
      NextMultiple((a - 1) as real, b as real, (a - 1) as real * b as real, (a - 1) as real * b as real + b as real);
    }
  }

  lemma {:induction false} Plus(a: nat, b: nat)
    requires a > 0
    ensures a * b == (a - 1) * b + b
  {
  }

  /** Integer division undoes multiplication, up to a remainder. */
  lemma {:induction false} QuotientOf(c: int, q: nat, a: int)
    requires q > 0 && a * q <= c < a * q + q
    ensures c / q == a
  {
    var (k, m) := (c / q, c % q);
    assert c == k * q + m;
    SameFactor(k, a, q, m, c - a * q);
  }

  lemma {:induction false} SameFactor(k: int, a: int, q: nat, m: int, n: int)
    requires 0 <= m < q && 0 <= n < q && k * q + m == a * q + n
    ensures k == a
  {
    if k < a {
      Smaller(k, a, q);
    } else if a < k {
      Smaller(a, k, q);
    }
  }

  lemma {:induction false} Smaller(k: int, a: int, q: nat)
    requires k < a
    ensures k * q + q <= a * q
  {
    var d: nat := a - k - 1;
    assert d * q >= 0;
    assert (k + d + 1) * q == k * q + d * q + q;
  }

  lemma {:induction false} Multiple(m: nat, y: real) returns (z: real)
    ensures z == m as real * y
  {
    z := m as real * y;
  }

  /** The floor of u scaled to m, said without division. */
  lemma {:induction false} FloorOfScaled(u: real, size: real, m: nat) returns (c: int)
    requires size > 0.0
    ensures c == (m as real * (u / size)).Floor
    ensures c as real * size <= m as real * u < c as real * size + size
  {
    var y := QuotientTimes(u, size);
    var z := Multiple(m, y);
    c := z.Floor;
    BelowScaled(c, z, m as real, y, u, size);
  }

  /** The floor of a quotient, said without division. */
  lemma {:induction false} FloorOfQuotient(u: real, size: real)
    requires size > 0.0
    ensures (u / size).Floor as real * size <= u < (u / size).Floor as real * size + size
  {
    var y := u / size;
    var c := y.Floor;
    assert y * size == u;
    BelowScaled(c, y, 1.0, y, u, size);
  }

  lemma {:induction false} BelowScaled(c: int, z: real, m: real, y: real, u: real, size: real)
    requires size > 0.0 && c as real <= z < c as real + 1.0 && z == m * y && y * size == u
    ensures c as real * size <= m * u < c as real * size + size
  {
    Assoc(m, y, size);
    var l := c as real * size;
    ProductOrder(c as real, z, size, l, m * u);
    NextMultiple(c as real, size, l, l + size);
    ProductOrder(z, c as real + 1.0, size, m * u, l + size);
  }

  lemma {:induction false} NextMultiple(a: real, part: real, l: real, h: real)
    requires l == a * part && h == l + part
    ensures h == (a + 1.0) * part
  {
  }

  lemma {:induction false} PositivePart(part: real, p: nat, size: real)
    requires p > 0 && size > 0.0 && part * p as real == size
    ensures part > 0.0
  {
    ProductSign(part, p as real);
  }

  /** Counted in parts instead of wholes. */
  lemma {:induction false} InParts(u: real, size: real, part: real, p: real, q: real, m: real, c: real)
    returns (x: real)
    requires p > 0.0 && part * p == size && p * q == m && c * size <= m * u < c * size + size
    ensures x == q * u && c * part <= x < c * part + part
  {
    x := q * u;
    var l := c * part;
    Assoc(c, part, p);
    Assoc(p, q, u);
    ProductOrder(l, x, p, c * size, m * u);
    WholeParts(l, part, p, c * size, size);
    ProductOrder(x, l + part, p, m * u, c * size + size);
  }

  lemma {:induction false} WholeParts(l: real, part: real, p: real, lp: real, size: real)
    requires lp == l * p && size == part * p
    ensures lp + size == (l + part) * p
  {
  }

  /** q times u lies between the multiples of the part that are q times those around u. */
  lemma {:induction false} Multiples(u: real, part: real, q: real, a: real, x: real)
    requires q > 0.0 && x == q * u && a * part <= u < a * part + part
    ensures (a * q) * part <= x < (a * q) * part + q * part
  {
    var l := a * part;
    ProductOrder(l, u, q, l * q, x);
    ProductOrder(u, l + part, q, x, l * q + part * q);
  }

  /** Of two multiples of a part, one below x and one above x, the first is the smaller. */
  lemma {:induction false} Smallest(a: real, b: real, part: real, x: real)
    requires part > 0.0 && a * part <= x < b * part
    ensures a < b
  {
    ProductOrder(a, b, part, a * part, b * part);
  }

  lemma {:induction false} Together(a: real, q: real, part: real)
    ensures (a * q) * part + q * part == ((a + 1.0) * q) * part
  {
  }

  /** u lies in the a-th of p parts of an interval; scaled to p * q, its floor lies in the a-th of p parts of q. */
  lemma {:induction false} ScaledPart(u: real, size: real, part: real, p: nat, q: nat, m: nat, a: nat, c: int)
    requires size > 0.0 && p > 0 && q > 0 && part * p as real == size && p * q == m
    requires a as real * part <= u < a as real * part + part
    requires c as real * size <= m as real * u < c as real * size + size
    ensures c / q == a
  {
    PositivePart(part, p, size);
    ProductOfNats(p, q);
    Ordered(u, size, part, p as real, q as real, m as real, a as real, c as real);
    ProductOfNats(a, q);
    ProductOfNats(a + 1, q);
    Plus(a + 1, q);
    var l, h: int := a * q, (a + 1) * q;
    assert l as real < c as real + 1.0 && c as real < h as real;
    QuotientOf(c, q, a);
  }

  lemma {:induction false} Ordered(u: real, size: real, part: real, p: real, q: real, m: real, a: real, c: real)
    requires p > 0.0 && q > 0.0 && part > 0.0 && part * p == size && p * q == m
    requires a * part <= u < a * part + part && c * size <= m * u < c * size + size
    ensures a * q < c + 1.0 && c < (a + 1.0) * q
  {
    var x := InParts(u, size, part, p, q, m, c);
    Multiples(u, part, q, a, x);
    Together(a, q, part);
    Smallest(c, (a + 1.0) * q, part, x);
    NextMultiple(c, part, c * part, c * part + part);
    Smallest(a * q, c + 1.0, part, x);
  }

  lemma {:induction false} OneMore(s: real, j: real)
    ensures s * (j + 1.0) == s * j + s
  {
  }

  lemma {:induction false} DoubledFactor(s: real, k: nat)
    ensures s * (2 * k) as real == 2.0 * s * k as real
  {
    assert (2 * k) as real == 2.0 * k as real;
    Assoc(s, 2.0, k as real);
  }

  lemma {:induction false} SameQuotient(x: real, y: real, p: real)
    requires p > 0.0 && x * p == y * p
    ensures x == y
  {
    ProductOrder(x, y, p, x * p, y * p);
    ProductOrder(y, x, p, y * p, x * p);
  }

  /** A quarter divided is the whole divided by four times as much. */
  lemma {:induction false} QuarterOver(u: real, p: real)
    requires p > 0.0
    ensures u / 4.0 / p == u / (4.0 * p)
  {
    var y := QuotientTimes(u / 4.0, p);
    var z := QuotientTimes(u, 4.0 * p);
    Assoc(z, 4.0, p);
    FourTimes(y, z, p, u);
    SameQuotient(y, z, p);
  }

  lemma {:induction false} FourTimes(y: real, z: real, p: real, u: real)
    requires y * p == u / 4.0 && z * 4.0 * p == u
    ensures z * p == y * p
  {
    assert z * 4.0 * p == 4.0 * (z * p);
  }

  lemma {:induction false} QuarterBefore(u: real, p: real)
    requires p > 0.0
    ensures u / 4.0 / p == u / p / 4.0
  {
    var y := QuotientTimes(u / 4.0, p);
    var z := QuotientTimes(u, p);
    QuarterTimes(z, p, u);
    SameQuotient(y, z / 4.0, p);
  }

  lemma {:induction false} QuarterTimes(z: real, p: real, u: real)
    requires z * p == u
    ensures z / 4.0 * p == u / 4.0
  {
  }

  lemma {:induction false} HalfSquared(x: real, square: real)
    requires square == x * x
    ensures x / 2.0 * (x / 2.0) == square / 4.0
  {
  }
}
