/** The bit-pair square root, on 64-bit unsigned longs. */
module Usqrt {
  import opened Powers

  const BITSPERLONG: nat := 32
  const HALF_LONG: nat := 0x1_0000
  const LONG: nat := 0x1_0000_0000
  const WORD: nat := 0x1_0000_0000_0000_0000

  /** What a 64-bit word keeps of a number. */
  function Wrap(x: nat): (w: nat)
    ensures w < WORD && (x < WORD ==> w == x)
  {
    x % WORD
  }

  /** Bits 30 and 31. */
  function Top2Bits(x: nat): (b: nat)
    ensures b < 4
  {
    x / 0x4000_0000 % 4
  }

  function Pow4(i: nat): (p: nat)
    ensures p > 0
  {
    if i == 0 then 1 else 4 * Pow4(i - 1)
  }

  lemma {:induction false} Pow4Long()
    ensures Pow4(16) == LONG && Pow4(BITSPERLONG) == LONG * LONG == WORD
  {
    assert Pow4(4) == 256;
    Pow4Sum(4, 4);
    Pow4Sum(8, 8);
    Pow4Sum(16, 16);
  }

  lemma {:induction false} Pow4Sum(i: nat, j: nat)
    ensures Pow4(i + j) == Pow4(i) * Pow4(j)
  {
    if i > 0 {
      Pow4Sum(i - 1, j);
    }
  }

  /** a is the square root of n, rounded down. */
  predicate IsRoot(a: nat, n: nat) {
    a * a <= n < (a + 1) * (a + 1)
  }

  /** There is only one. */
  lemma {:induction false} OneRoot(a: nat, b: nat, n: nat)
    requires IsRoot(a, n) && IsRoot(b, n)
    ensures a == b
  {
    if a < b {
      Squares(a + 1, b);
    } else if b < a {
      Squares(b + 1, a);
    }
  }

  lemma {:induction false} Squares(a: nat, b: nat)
    requires a <= b
    ensures a * a <= b * b
  {
    assert b * b == a * a + (b - a) * (b + a);
  }

  // ---------- One round ----------

  /** The next two bits of y, counted from bit 31 down, come after those above bit 31. */
  lemma {:induction false} NextBits(y: nat, x: nat)
    requires x % LONG == y % LONG
    ensures 4 * y / LONG == 4 * (y / LONG) + Top2Bits(x)
  {
    var (h, l) := (y / LONG, y % LONG);
    assert y == LONG * h + l;
    Bits(x / LONG, l);
    assert x == LONG * (x / LONG) + l;
    assert 4 * y == LONG * (4 * h) + 4 * l;
    assert 4 * l / LONG == l / 0x4000_0000;
  }

  lemma {:induction false} Bits(g: nat, l: nat)
    requires l < LONG
    ensures Top2Bits(LONG * g + l) == l / 0x4000_0000
  {
    assert LONG * g + l == 0x4000_0000 * (4 * g) + l;
    assert (LONG * g + l) / 0x4000_0000 == 4 * g + l / 0x4000_0000;
  }

  /** Shifting a word loses bits beyond the 64th, which no later round looks at. */
  lemma {:induction false} ShiftedWord(y: nat, x: nat)
    requires x % LONG == y % LONG
    ensures Wrap(4 * x) % LONG == 4 * y % LONG
  {
    var (q, p) := (4 * x / WORD, 4 * x % WORD);
    assert 4 * x == WORD * q + p;
    Congruent(4 * x, p, LONG * q);
    var k := x / LONG - y / LONG;
    assert x == LONG * (x / LONG) + x % LONG && y == LONG * (y / LONG) + y % LONG;
    assert 4 * x == 4 * y + LONG * (4 * k);
    Congruent(4 * x, 4 * y, 4 * k);
  }

  lemma {:induction false} Congruent(a: nat, b: nat, k: int)
    requires a == b + LONG * k
    ensures a % LONG == b % LONG
  {
    assert a == LONG * (a / LONG) + a % LONG && b == LONG * (b / LONG) + b % LONG;
    assert a % LONG - b % LONG == LONG * (k + b / LONG - a / LONG);
  }

  /** The root of n with two bits put after it is twice the root of n, or one more. */
  lemma {:induction false} NextRoot(a: nat, r: nat, b: nat)
    requires r <= 2 * a && b < 4
    ensures var (s, e) := (4 * r + b, 4 * a + 1);
            if s >= e then s - e <= 2 * (2 * a + 1) else s <= 4 * a
    ensures (2 * a) * (2 * a) + (4 * r + b) == 4 * (a * a + r) + b
    ensures (2 * a + 1) * (2 * a + 1) == (2 * a) * (2 * a) + 4 * a + 1
  {
  }

  // ---------- The loop ----------

  lemma {:induction false} Pow2AtMostLong(i: nat)
    requires i <= BITSPERLONG
    ensures Pow2(i) <= LONG
  {
    WordPowers();
    Pow2Grows(i, BITSPERLONG);
  }

  /** a is the root, and r the rest, of the bits of z above the 32nd; x agrees with z on the 32 below. */
  ghost predicate Rooted(z: nat, limit: nat, x: nat, r: nat, a: nat) {
    r <= 2 * a && a * a + r == z / LONG && x % LONG == z % LONG && a < limit
  }

  lemma {:induction false} NextRound(z: nat, limit: nat, x: nat, r: nat, a: nat)
    requires Rooted(z, limit, x, r, a)
    ensures var (s, e) := (4 * r + Top2Bits(x), 4 * a + 1);
            if s >= e then Rooted(4 * z, 2 * limit, Wrap(4 * x), s - e, 2 * a + 1)
            else Rooted(4 * z, 2 * limit, Wrap(4 * x), s, 2 * a)
  {
    NextBits(z, x);
    ShiftedWord(z, x);
    NextRoot(a, r, Top2Bits(x));
  }

  /** After i rounds on x, of whose lower 32 bits y is made. */
  ghost predicate After(y: nat, i: nat, x: nat, r: nat, a: nat) {
    Rooted(y * Pow4(i), Pow2(i), x, r, a)
  }

  /** A round in words of 64 bits is a round. */
  lemma {:induction false} WordRound(y: nat, i: nat, x: nat, r: nat, a: nat)
    requires i < BITSPERLONG && After(y, i, x, r, a)
    ensures var (s, e) := (Wrap(Wrap(4 * r) + Top2Bits(x)), Wrap(Wrap(2 * Wrap(2 * a)) + 1));
            if s >= e then After(y, i + 1, Wrap(4 * x), s - e, Wrap(Wrap(2 * a) + 1))
            else After(y, i + 1, Wrap(4 * x), s, Wrap(2 * a))
  {
    var z := NextPower(y, i);
    NextRound(z, Pow2(i), x, r, a);
    Pow2AtMostLong(i);
    NothingLost(r, a, Top2Bits(x));
  }

  lemma {:induction false} NextPower(y: nat, i: nat) returns (z: nat)
    ensures z == y * Pow4(i) && y * Pow4(i + 1) == 4 * z
  {
    z := y * Pow4(i);
  }

  lemma {:induction false} NothingLost(r: nat, a: nat, b: nat)
    requires a < LONG && r <= 2 * a && b < 4
    ensures Wrap(Wrap(4 * r) + b) == 4 * r + b
    ensures Wrap(2 * a) == 2 * a && Wrap(Wrap(2 * a) + 1) == 2 * a + 1
    ensures Wrap(Wrap(2 * Wrap(2 * a)) + 1) == 4 * a + 1
  {
  }

  lemma {:induction false} Before(y: nat)
    requires y < LONG
    ensures After(y, 0, y, 0, 0)
  {
    assert y * Pow4(0) == y;
  }

  lemma {:induction false} SameLower(y: nat, x: nat)
    requires After(y, 0, y, 0, 0) && x % LONG == y % LONG
    ensures After(y, 0, x, 0, 0)
  {
  }

  lemma {:induction false} LastRound(y: nat, x: nat, r: nat, a: nat)
    requires After(y, BITSPERLONG, x, r, a)
    ensures a < LONG && IsRoot(a, y * LONG)
  {
    Pow4Long();
    Pow2AtMostLong(BITSPERLONG);
    assert y * (LONG * LONG) == y * LONG * LONG;
    assert (a + 1) * (a + 1) == a * a + 2 * a + 1;
  }

  /** A number of more than 32 bits has no root of 32 bits. */
  lemma {:induction false} TooGreat(x: nat, a: nat)
    requires x >= LONG && a < LONG
    ensures !IsRoot(a, x * LONG)
  {
    Squares(a + 1, LONG);
    assert x * LONG >= LONG * LONG;
  }

  /** The root of the lower bits is that of x exactly if there are no others. */
  lemma {:induction false} RootOfAll(x: nat, y: nat, a: nat)
    requires y == x % LONG && a < LONG && IsRoot(a, y * LONG)
    ensures IsRoot(a, x * LONG) <==> x < LONG
  {
    if x >= LONG {
      TooGreat(x, a);
    } else {
      assert x == y;
    }
  }

  lemma {:induction false} FirstRound(x: nat)
    ensures After(x % LONG, 0, x, 0, 0)
  {
    Before(x % LONG);
    SameLower(x % LONG, x);
  }

  /**
   The root of the lower 32 bits of x, with 16 binary places: that of x itself exactly if x has no more bits.  The words
   r, a and e never lose a bit; x does, and it does no harm.
   */
  method Usqrt(x: nat) returns (a: nat)
    requires x < WORD
    ensures a < LONG && IsRoot(a, x % LONG * LONG)
    ensures IsRoot(a, x * LONG) <==> x < LONG
  {
    ghost var y := x % LONG;
    var w: nat := x;
    var r: nat, e: nat := 0, 0;
    a := 0;
    FirstRound(x);
    for i: nat := 0 to BITSPERLONG
      invariant After(y, i, w, r, a)
    {
      WordRound(y, i, w, r, a);
      r := Wrap(Wrap(4 * r) + Top2Bits(w));
      w := Wrap(4 * w);
      a := Wrap(2 * a);
      e := Wrap(Wrap(2 * a) + 1);
      if r >= e {
        r := r - e;
        a := Wrap(a + 1);
      }
    }
    LastRound(y, w, r, a);
    RootOfAll(x, y, a);
  }

  /** The integer part of the result is the root of x rounded down; for a square there is nothing after the point. */
  lemma {:induction false} IntegerPart(x: nat, a: nat)
    requires IsRoot(a, x * LONG)
    ensures IsRoot(a / HALF_LONG, x)
    ensures forall b: nat :: b * b == x ==> a == b * HALF_LONG
  {
    var (q, f) := (a / HALF_LONG, a % HALF_LONG);
    assert a == q * HALF_LONG + f;
    assert q * HALF_LONG * (q * HALF_LONG) == q * q * LONG;
    assert (q + 1) * HALF_LONG * ((q + 1) * HALF_LONG) == (q + 1) * (q + 1) * LONG;
    Squares(q * HALF_LONG, a);
    Squares(a + 1, (q + 1) * HALF_LONG);
    forall b: nat | b * b == x
      ensures a == b * HALF_LONG
    {
      assert b * HALF_LONG * (b * HALF_LONG) == b * b * LONG;
      OneRoot(a, b * HALF_LONG, x * LONG);
    }
  }
}
