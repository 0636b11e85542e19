/**
 The CRC-32 register of section 8 of RFC 1952, which takes in one bit at a time: it loses nothing, and it never
 misses an error confined to 32 consecutive bits.
 */
module CrcRegister {

  // ---------- One bit at a time ----------

  /** A register's bits, the lowest first. */
  type Reg = r: seq<bool> | |r| == 32 witness seq(32, _ => false)

  function Xor(a: Reg, b: Reg): (r: Reg) {
    seq(32, i requires 0 <= i < 32 => a[i] != b[i])
  }

  function Shift(a: Reg): (r: Reg) {
    a[1..] + [false]
  }

  /** The polynomial 0xedb88320; its highest power comes first. */
  function Poly(): (r: Reg) {
    [false, false, false, false, false, true, false, false]
    + ([true, true, false, false, false, false, false, true]
       + ([false, false, false, true, true, true, false, true]
          + [true, false, true, true, false, true, true, true]))
  }

  /** The register shifts by one bit; a bit shifted out brings in the polynomial. */
  function Step(a: Reg): (r: Reg) {
    if a[0] then Xor(Shift(a), Poly()) else Shift(a)
  }

  /** The register takes in one bit. */
  function Feed(a: Reg, b: bool): (r: Reg) {
    Step(a[0 := a[0] != b])
  }

  /** The register after the given bits. */
  function Serial(a: Reg, bits: seq<bool>): (r: Reg)
    decreases |bits|
  {
    if bits == [] then a else Serial(Feed(a, bits[0]), bits[1..])
  }

  /** The bits of a byte, the lowest first. */
  function ByteBits(b: bv8): (s: seq<bool>)
    ensures |s| == 8
  {
    Digits(b as bv32, 8)
  }

  /** The bits of every byte. */
  function Bytes(buf: seq<bv8>): (bs: seq<seq<bool>>)
    ensures |bs| == |buf| && forall i :: 0 <= i < |bs| ==> |bs[i]| == 8 && bs[i] == ByteBits(buf[i])
  {
    seq(|buf|, i requires 0 <= i < |buf| => ByteBits(buf[i]))
  }

  predicate Octets(bs: seq<seq<bool>>) {
    forall i :: 0 <= i < |bs| ==> |bs[i]| == 8
  }

  function Flat(bs: seq<seq<bool>>): (s: seq<bool>)
    requires Octets(bs)
    ensures |s| == 8 * |bs|
  {
    if bs == [] then [] else Flat(bs[..|bs| - 1]) + bs[|bs| - 1]
  }

  function Bits(buf: seq<bv8>): (s: seq<bool>) {
    Flat(Bytes(buf))
  }

  function Ones(): (r: Reg) {
    seq(32, _ => true)
  }

  /** The CRC of section 8 of RFC 1952, one bit at a time. */
  function Crc(buf: seq<bv8>): (r: Reg) {
    Xor(Ones(), Serial(Ones(), Bits(buf)))
  }

  // ---------- A register loses nothing ----------

  /** The polynomial's lowest power is at the top, so what comes in there tells what was shifted out. */
  lemma {:induction false} StepAt(a: Reg, i: nat)
    requires i < 32
    ensures Step(a)[i] == ((i < 31 && a[i + 1]) != (a[0] && Poly()[i]))
    ensures Step(a)[31] == a[0]
  {
  }

  lemma {:induction false} StepInjective(a: Reg, b: Reg)
    requires Step(a) == Step(b)
    ensures a == b
  {
    StepAt(a, 31);
    StepAt(b, 31);
    forall i | 0 <= i < 32
      ensures a[i] == b[i]
    {
      if i > 0 {
        StepAt(a, i - 1);
        StepAt(b, i - 1);
      }
    }
  }

  lemma {:induction false} FeedInjective(a: Reg, b: Reg, x: bool)
    requires Feed(a, x) == Feed(b, x)
    ensures a == b
  {
    var (c, d) := (a[0 := a[0] != x], b[0 := b[0] != x]);
    StepInjective(c, d);
    forall i | 0 <= i < 32
      ensures a[i] == b[i]
    {
      assert c[i] == d[i];
    }
  }

  lemma {:induction false} SerialConcat(c: Reg, a: seq<bool>, b: seq<bool>)
    ensures Serial(c, a + b) == Serial(Serial(c, a), b)
    decreases |a|
  {
    if a == [] {
      assert a + b == b;
    } else {
      assert (a + b)[1..] == a[1..] + b;
      SerialConcat(Feed(c, a[0]), a[1..], b);
    }
  }

  /** The same bits keep different registers different. */
  lemma {:induction false} SerialInjective(a: Reg, b: Reg, bits: seq<bool>)
    requires Serial(a, bits) == Serial(b, bits)
    ensures a == b
    decreases |bits|
  {
    if bits != [] {
      SerialInjective(Feed(a, bits[0]), Feed(b, bits[0]), bits[1..]);
      FeedInjective(a, b, bits[0]);
    }
  }

  // ---------- Errors within 32 bits ----------

  /** A difference comes down by one place a step, or starts again from the top, whatever is fed in. */
  lemma {:induction false} DifferenceMoves(a: Reg, b: Reg, x: bool, y: bool, i: nat) returns (j: nat)
    requires 1 <= i < 32 && a[i] != b[i]
    ensures i - 1 <= j < 32 && Feed(a, x)[j] != Feed(b, y)[j]
  {
    var (c, d) := (a[0 := a[0] != x], b[0 := b[0] != y]);
    j := if c[0] == d[0] then i - 1 else 31;
    StepAt(c, j);
    StepAt(d, j);
  }

  lemma {:induction false} DifferenceLasts(a: Reg, b: Reg, v: seq<bool>, w: seq<bool>, i: nat)
    requires |v| == |w| <= i < 32 && a[i] != b[i]
    ensures Serial(a, v) != Serial(b, w)
    decreases |v|
  {
    if v != [] {
      var j := DifferenceMoves(a, b, v[0], w[0], i);
      DifferenceLasts(Feed(a, v[0]), Feed(b, w[0]), v[1..], w[1..], j);
    }
  }

  /** From the same register, different strings of up to 32 bits lead to different registers. */
  lemma {:induction false} WindowDetected(c: Reg, v: seq<bool>, w: seq<bool>)
    requires |v| == |w| <= 32 && v != w
    ensures Serial(c, v) != Serial(c, w)
    decreases |v|
  {
    if v[0] == w[0] {
      assert v == [v[0]] + v[1..] && w == [w[0]] + w[1..];
      WindowDetected(Feed(c, v[0]), v[1..], w[1..]);
    } else {
      StepAt(c[0 := c[0] != v[0]], 31);
      StepAt(c[0 := c[0] != w[0]], 31);
      DifferenceLasts(Feed(c, v[0]), Feed(c, w[0]), v[1..], w[1..], 31);
    }
  }

  /** Bit strings that differ within 32 consecutive bits, at any place, leave different registers. */
  lemma {:induction false} BurstDetected(c: Reg, x: seq<bool>, y: seq<bool>, i: nat, n: nat)
    requires |x| == |y| && i + n <= |x| && n <= 32 && x != y
    requires x[..i] == y[..i] && x[i + n..] == y[i + n..]
    ensures Serial(c, x) != Serial(c, y)
  {
    var (p, v, w, s) := (x[..i], x[i..i + n], y[i..i + n], x[i + n..]);
    assert x == p + (v + s) && y == p + (w + s);
    SerialConcat(c, p, v + s);
    SerialConcat(c, p, w + s);
    var d := Serial(c, p);
    SerialConcat(d, v, s);
    SerialConcat(d, w, s);
    if Serial(c, x) == Serial(c, y) {
      SerialInjective(Serial(d, v), Serial(d, w), s);
      WindowDetected(d, v, w);
    }
  }

  lemma {:induction false} FlatConcat(a: seq<seq<bool>>, b: seq<seq<bool>>)
    requires Octets(a) && Octets(b)
    ensures Flat(a + b) == Flat(a) + Flat(b)
  {
    if b == [] {
      assert a + b == a;
    } else {
      assert (a + b)[..|a + b| - 1] == a + b[..|b| - 1];
      FlatConcat(a, b[..|b| - 1]);
    }
  }

  lemma {:induction false} FlatInjective(a: seq<seq<bool>>, b: seq<seq<bool>>)
    requires Octets(a) && Octets(b) && |a| == |b| && Flat(a) == Flat(b)
    ensures a == b
  {
    if a != [] {
      var m := |a| - 1;
      assert Flat(a)[..8 * m] == Flat(a[..m]) && Flat(b)[..8 * m] == Flat(b[..m]);
      assert Flat(a)[8 * m..] == a[m] && Flat(b)[8 * m..] == b[m];
      FlatInjective(a[..m], b[..m]);
      assert a == a[..m] + [a[m]] && b == b[..m] + [b[m]];
    }
  }

  lemma {:induction false} FlatSplit(x: seq<seq<bool>>, i: nat, n: nat)
    requires Octets(x) && i + n <= |x|
    ensures Flat(x)[..8 * i] == Flat(x[..i]) && Flat(x)[8 * i + 8 * n..] == Flat(x[i + n..])
  {
    assert x == x[..i] + (x[i..i + n] + x[i + n..]);
    FlatConcat(x[..i], x[i..i + n] + x[i + n..]);
    FlatConcat(x[i..i + n], x[i + n..]);
  }

  lemma {:induction false} BytesInjective(x: seq<bv8>, y: seq<bv8>)
    requires |x| == |y| && Bytes(x) == Bytes(y)
    ensures x == y
  {
    forall i | 0 <= i < |x|
      ensures x[i] == y[i]
    {
      assert Bytes(x)[i] == Bytes(y)[i];
      ByteBitsInjective(x[i], y[i]);
    }
  }

  lemma {:induction false} FourOctetsDetected(c: Reg, a: seq<seq<bool>>, b: seq<seq<bool>>, i: nat, n: nat)
    requires Octets(a) && Octets(b) && |a| == |b| && i + n <= |a| && n <= 4 && a != b
    requires a[..i] == b[..i] && a[i + n..] == b[i + n..]
    ensures Serial(c, Flat(a)) != Serial(c, Flat(b))
  {
    FlatSplit(a, i, n);
    FlatSplit(b, i, n);
    if Flat(a) == Flat(b) {
      FlatInjective(a, b);
    }
    BurstDetected(c, Flat(a), Flat(b), 8 * i, 8 * n);
  }

  /** Buffers of the same length that differ within four consecutive bytes have different CRCs. */
  lemma {:induction false} FourBytesDetected(x: seq<bv8>, y: seq<bv8>, i: nat, n: nat)
    requires |x| == |y| && i + n <= |x| && n <= 4 && x != y
    requires x[..i] == y[..i] && x[i + n..] == y[i + n..]
    ensures Crc(x) != Crc(y)
  {
    BytesAgree(x, y, 0, i);
    BytesAgree(x, y, i + n, |x|);
    if Bytes(x) == Bytes(y) {
      BytesInjective(x, y);
    }
    FourOctetsDetected(Ones(), Bytes(x), Bytes(y), i, n);
    if Crc(x) == Crc(y) {
      XorInjective(Ones(), Serial(Ones(), Bits(x)), Serial(Ones(), Bits(y)));
    }
  }

  lemma {:induction false} BytesAgree(x: seq<bv8>, y: seq<bv8>, i: nat, j: nat)
    requires i <= j <= |x| == |y| && x[i..j] == y[i..j]
    ensures Bytes(x)[i..j] == Bytes(y)[i..j]
  {
    forall k | i <= k < j
      ensures Bytes(x)[k] == Bytes(y)[k]
    {
      assert x[k] == x[i..j][k - i] && y[k] == y[i..j][k - i];
    }
  }

  lemma {:induction false} XorInjective(a: Reg, b: Reg, c: Reg)
    requires Xor(a, b) == Xor(a, c)
    ensures b == c
  {
    forall i | 0 <= i < 32
      ensures b[i] == c[i]
    {
      assert Xor(a, b)[i] == Xor(a, c)[i];
    }
  }

  // ---------- The preset register and the final inversion ----------

  function Zeros(): (r: Reg) {
    seq(32, _ => false)
  }

  function Inverted(s: seq<bool>): (t: seq<bool>)
    ensures |t| == |s| && forall i :: 0 <= i < |s| ==> t[i] == !s[i]
  {
    seq(|s|, i requires 0 <= i < |s| => !s[i])
  }

  /** Of the first 32 bits only their difference from the register counts. */
  lemma {:induction false} OnlyDifferenceCounts(a: Reg, b: Reg, v: seq<bool>, w: seq<bool>)
    requires |v| == |w| <= 32
    requires forall i :: 0 <= i < |v| ==> (a[i] != v[i]) == (b[i] != w[i])
    requires forall i :: |v| <= i < 32 ==> a[i] == b[i]
    ensures Serial(a, v) == Serial(b, w)
    decreases |v|
  {
    if v == [] {
      assert a == b;
    } else {
      var (c, d) := (a[0 := a[0] != v[0]], b[0 := b[0] != w[0]]);
      forall i | 0 <= i < 32
        ensures i < |v| - 1 ==> (Step(c)[i] != v[1..][i]) == (Step(d)[i] != w[1..][i])
        ensures |v| - 1 <= i ==> Step(c)[i] == Step(d)[i]
      {
        StepAt(c, i);
        StepAt(d, i);
      }
      OnlyDifferenceCounts(Step(c), Step(d), v[1..], w[1..]);
    }
  }

  /** Starting from ones is starting from zeros with the first four bytes inverted, so leading zero bytes count. */
  lemma {:induction false} PresetInverts(buf: seq<bv8>)
    requires |buf| >= 4
    ensures Crc(buf) == Inverted(Serial(Zeros(), Inverted(Bits(buf)[..32]) + Bits(buf)[32..]))
  {
    var (v, rest) := (Bits(buf)[..32], Bits(buf)[32..]);
    assert Bits(buf) == v + rest;
    OnlyDifferenceCounts(Ones(), Zeros(), v, Inverted(v));
    SerialConcat(Ones(), v, rest);
    SerialConcat(Zeros(), Inverted(v), rest);
  }

  /** A buffer followed by its CRC leaves the same register, whatever the buffer. */
  lemma {:induction false} Residue(buf: seq<bv8>)
    ensures Serial(Ones(), Bits(buf) + Crc(buf)) == Serial(Zeros(), Ones())
  {
    var r := Serial(Ones(), Bits(buf));
    SerialConcat(Ones(), Bits(buf), Crc(buf));
    OnlyDifferenceCounts(r, Zeros(), Crc(buf), Ones());
  }

  // ---------- Registers in machine words ----------

  const POLY: bv32 := 0xedb8_8320

  /** The n lowest bits of c, the lowest first. */
  function Digits(c: bv32, n: nat): (s: seq<bool>)
    ensures |s| == n
    decreases n
  {
    if n == 0 then [] else [c & 1 == 1] + Digits(c >> 1, n - 1)
  }

  function RegOf(c: bv32): (r: Reg) {
    Digits(c, 32)
  }

  lemma {:induction false} Cons(c: bv32, b: bool, s: seq<bool>, d: bv32) returns (r: seq<bool>)
    requires d == c >> 1 && b == (c & 1 == 1) && Digits(d, |s|) == s
    ensures r == [b] + s && Digits(c, |r|) == r
  {
    r := [b] + s;
  }

  lemma {:induction false} Poly3(s: seq<bool>) returns (r: seq<bool>)
    requires Digits(0x0, 0) == s
    ensures r == [true, false, true, true, false, true, true, true] + s && Digits(0xed, 8) == r
  {
    var s7 := Cons(0x1, true, s, 0x0);
    var s6 := Cons(0x3, true, s7, 0x1);
    var s5 := Cons(0x7, true, s6, 0x3);
    var s4 := Cons(0xe, false, s5, 0x7);
    var s3 := Cons(0x1d, true, s4, 0xe);
    var s2 := Cons(0x3b, true, s3, 0x1d);
    var s1 := Cons(0x76, false, s2, 0x3b);
    r := Cons(0xed, true, s1, 0x76);
  }

  lemma {:induction false} Poly2(s: seq<bool>) returns (r: seq<bool>)
    requires Digits(0xed, 8) == s
    ensures r == [false, false, false, true, true, true, false, true] + s && Digits(0xedb8, 16) == r
  {
    var s7 := Cons(0x1db, true, s, 0xed);
    var s6 := Cons(0x3b6, false, s7, 0x1db);
    var s5 := Cons(0x76d, true, s6, 0x3b6);
    var s4 := Cons(0xedb, true, s5, 0x76d);
    var s3 := Cons(0x1db7, true, s4, 0xedb);
    var s2 := Cons(0x3b6e, false, s3, 0x1db7);
    var s1 := Cons(0x76dc, false, s2, 0x3b6e);
    r := Cons(0xedb8, false, s1, 0x76dc);
  }

  lemma {:induction false} Poly1(s: seq<bool>) returns (r: seq<bool>)
    requires Digits(0xedb8, 16) == s
    ensures r == [true, true, false, false, false, false, false, true] + s && Digits(0xed_b883, 24) == r
  {
    var s7 := Cons(0x1_db71, true, s, 0xedb8);
    var s6 := Cons(0x3_b6e2, false, s7, 0x1_db71);
    var s5 := Cons(0x7_6dc4, false, s6, 0x3_b6e2);
    var s4 := Cons(0xe_db88, false, s5, 0x7_6dc4);
    var s3 := Cons(0x1d_b710, false, s4, 0xe_db88);
    var s2 := Cons(0x3b_6e20, false, s3, 0x1d_b710);
    var s1 := Cons(0x76_dc41, true, s2, 0x3b_6e20);
    r := Cons(0xed_b883, true, s1, 0x76_dc41);
  }

  lemma {:induction false} Poly0(s: seq<bool>) returns (r: seq<bool>)
    requires Digits(0xed_b883, 24) == s
    ensures r == [false, false, false, false, false, true, false, false] + s && Digits(0xedb8_8320, 32) == r
  {
    var s7 := Cons(0x1db_7106, false, s, 0xed_b883);
    var s6 := Cons(0x3b6_e20c, false, s7, 0x1db_7106);
    var s5 := Cons(0x76d_c419, true, s6, 0x3b6_e20c);
    var s4 := Cons(0xedb_8832, false, s5, 0x76d_c419);
    var s3 := Cons(0x1db7_1064, false, s4, 0xedb_8832);
    var s2 := Cons(0x3b6e_20c8, false, s3, 0x1db7_1064);
    var s1 := Cons(0x76dc_4190, false, s2, 0x3b6e_20c8);
    r := Cons(0xedb8_8320, false, s1, 0x76dc_4190);
  }

  lemma {:induction false} RegOfPoly()
    ensures RegOf(POLY) == Poly()
  {
    var p3 := Poly3([]);
    var p2 := Poly2(p3);
    var p1 := Poly1(p2);
    var p0 := Poly0(p1);
  }

  lemma {:induction false} Halved(c: bv32) returns (d: bv32)
    ensures d == c >> 1
  {
    d := c >> 1;
  }

  /** c has no digits from n on. */
  predicate Small(c: bv32, n: nat)
    decreases n
  {
    if n == 0 then c == 0 else Small(c >> 1, n - 1)
  }

  /** t is n ones. */
  predicate Full(t: bv32, n: nat)
    decreases n
  {
    if n == 0 then t == 0 else t & 1 == 1 && Full(t >> 1, n - 1)
  }

  lemma {:induction false} FullAbove(t: bv32, n: nat) returns (u: bv32)
    requires Full(t, n) && t <= 0x7fff_ffff
    ensures u == (t << 1) | 1 && Full(u, n + 1)
  {
    u := (t << 1) | 1;
    DoubledOnes(t);
  }

  lemma {:induction false} DoubledOnes(t: bv32)
    requires t <= 0x7fff_ffff
    ensures ((t << 1) | 1) >> 1 == t && ((t << 1) | 1) & 1 == 1
  {
  }

  lemma {:induction false} HalvedWithin(c: bv32, t: bv32) returns (d: bv32, u: bv32)
    requires c & t == c
    ensures d == c >> 1 && u == t >> 1 && d & u == d
  {
    d, u := c >> 1, t >> 1;
  }

  lemma {:induction false} WithinNothing(c: bv32)
    ensures c & 0 == c ==> c == 0
  {
  }

  lemma {:induction false} SmallWithin(c: bv32, t: bv32, n: nat)
    requires c & t == c && Full(t, n)
    ensures Small(c, n)
    decreases n
  {
    if n == 0 {
      WithinNothing(c);
    } else {
      var d, u := HalvedWithin(c, t);
      SmallWithin(d, u, n - 1);
    }
  }

  lemma {:induction false} FullByte()
    ensures Full(0xff, 8)
  {
    var t1 := FullAbove(0x0, 0);
    var t2 := FullAbove(0x1, 1);
    var t3 := FullAbove(0x3, 2);
    var t4 := FullAbove(0x7, 3);
    var t5 := FullAbove(0xf, 4);
    var t6 := FullAbove(0x1f, 5);
    var t7 := FullAbove(0x3f, 6);
    var t8 := FullAbove(0x7f, 7);
  }

  lemma {:induction false} FullWord()
    ensures Full(0xffff_ffff, 32)
  {
    var t1 := FullAbove(0x0, 0);
    var t2 := FullAbove(0x1, 1);
    var t3 := FullAbove(0x3, 2);
    var t4 := FullAbove(0x7, 3);
    var t5 := FullAbove(0xf, 4);
    var t6 := FullAbove(0x1f, 5);
    var t7 := FullAbove(0x3f, 6);
    var t8 := FullAbove(0x7f, 7);
    var t9 := FullAbove(0xff, 8);
    var t10 := FullAbove(0x1ff, 9);
    var t11 := FullAbove(0x3ff, 10);
    var t12 := FullAbove(0x7ff, 11);
    var t13 := FullAbove(0xfff, 12);
    var t14 := FullAbove(0x1fff, 13);
    var t15 := FullAbove(0x3fff, 14);
    var t16 := FullAbove(0x7fff, 15);
    var t17 := FullAbove(0xffff, 16);
    var t18 := FullAbove(0x1_ffff, 17);
    var t19 := FullAbove(0x3_ffff, 18);
    var t20 := FullAbove(0x7_ffff, 19);
    var t21 := FullAbove(0xf_ffff, 20);
    var t22 := FullAbove(0x1f_ffff, 21);
    var t23 := FullAbove(0x3f_ffff, 22);
    var t24 := FullAbove(0x7f_ffff, 23);
    var t25 := FullAbove(0xff_ffff, 24);
    var t26 := FullAbove(0x1ff_ffff, 25);
    var t27 := FullAbove(0x3ff_ffff, 26);
    var t28 := FullAbove(0x7ff_ffff, 27);
    var t29 := FullAbove(0xfff_ffff, 28);
    var t30 := FullAbove(0x1fff_ffff, 29);
    var t31 := FullAbove(0x3fff_ffff, 30);
    var t32 := FullAbove(0x7fff_ffff, 31);
  }

  lemma {:induction false} AllOnes(c: bv32)
    ensures c & 0xffff_ffff == c
  {
  }

  lemma {:induction false} SmallWord(c: bv32)
    ensures Small(c, 32)
  {
    FullWord();
    AllOnes(c);
    SmallWithin(c, 0xffff_ffff, 32);
  }

  lemma {:induction false} SameLowBit(a: bv32, b: bv32, c: bv32, d: bv32)
    requires (a & 1 == 1) == (b & 1 == 1) && c == a >> 1 && d == b >> 1 && c == d
    ensures a == b
  {
  }

  lemma {:induction false} DigitsInjective(a: bv32, b: bv32, n: nat)
    requires Small(a, n) && Small(b, n) && Digits(a, n) == Digits(b, n)
    ensures a == b
    decreases n
  {
    if n > 0 {
      var c := Halved(a);
      var d := Halved(b);
      assert Digits(a, n)[0] == Digits(b, n)[0] && Digits(a, n)[1..] == Digits(b, n)[1..];
      DigitsInjective(c, d, n - 1);
      SameLowBit(a, b, c, d);
    }
  }

  lemma {:induction false} ByteBitsInjective(a: bv8, b: bv8)
    requires ByteBits(a) == ByteBits(b)
    ensures a == b
  {
    FullByte();
    SmallWithin(a as bv32, 0xff, 8);
    SmallWithin(b as bv32, 0xff, 8);
    DigitsInjective(a as bv32, b as bv32, 8);
  }

  lemma {:induction false} ShiftXor(x: bv32, y: bv32)
    ensures (x ^ y) >> 1 == (x >> 1) ^ (y >> 1)
  {
  }

  lemma {:induction false} LowXor(x: bv32, y: bv32)
    ensures ((x ^ y) & 1 == 1) == ((x & 1 == 1) != (y & 1 == 1))
  {
  }

  lemma {:induction false} HalvedXor(a: bv32, b: bv32, z: bv32) returns (c: bv32, d: bv32, e: bv32)
    requires z == a ^ b
    ensures c == a >> 1 && d == b >> 1 && e == z >> 1 && e == c ^ d
  {
    ShiftXor(a, b);
    c, d, e := a >> 1, b >> 1, z >> 1;
  }

  lemma {:induction false} DigitsXor(a: bv32, b: bv32, z: bv32, n: nat, i: nat)
    requires i < n && z == a ^ b
    ensures Digits(z, n)[i] == (Digits(a, n)[i] != Digits(b, n)[i])
    decreases n
  {
    if i == 0 {
      LowXor(a, b);
    } else {
      var c, d, e := HalvedXor(a, b, z);
      DigitsXor(c, d, e, n - 1, i - 1);
    }
  }

  lemma {:induction false} RegOfXor(a: bv32, b: bv32, z: bv32)
    requires z == a ^ b
    ensures RegOf(z) == Xor(RegOf(a), RegOf(b))
  {
    forall i | 0 <= i < 32
      ensures RegOf(z)[i] == Xor(RegOf(a), RegOf(b))[i]
    {
      DigitsXor(a, b, z, 32, i);
    }
  }

  lemma {:induction false} DigitsBeyond(c: bv32, n: nat)
    requires Small(c, n)
    ensures Digits(c, n + 1) == Digits(c, n) + [false]
    decreases n
  {
    if n > 0 {
      var d := Halved(c);
      DigitsBeyond(d, n - 1);
    }
  }

  lemma {:induction false} RegOfShift(c: bv32) returns (d: bv32)
    ensures d == c >> 1 && RegOf(d) == Shift(RegOf(c))
  {
    SmallWord(c);
    d := Halved(c);
    DigitsBeyond(d, 31);
  }

  /** One step on a word. */
  function WordStep(c: bv32): (r: bv32) {
    if c & 1 == 1 then (c >> 1) ^ POLY else c >> 1
  }

  lemma {:induction false} WithPoly(e: bv32) returns (d: bv32)
    ensures d == e ^ POLY && RegOf(d) == Xor(RegOf(e), Poly())
  {
    d := e ^ POLY;
    RegOfPoly();
    RegOfXor(e, POLY, d);
  }

  lemma {:induction false} WordStepIs(c: bv32, e: bv32, d: bv32)
    requires e == c >> 1 && (if c & 1 == 1 then d == e ^ POLY else d == e)
    ensures d == WordStep(c)
  {
  }

  lemma {:induction false} FirstDigit(c: bv32)
    ensures RegOf(c)[0] == (c & 1 == 1)
  {
  }

  lemma {:induction false} RegOfStep(c: bv32) returns (d: bv32)
    ensures d == WordStep(c) && RegOf(d) == Step(RegOf(c))
  {
    var e := RegOfShift(c);
    FirstDigit(c);
    if RegOf(c)[0] {
      d := WithPoly(e);
    } else {
      d := e;
    }
    WordStepIs(c, e, d);
  }
}
