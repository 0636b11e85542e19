/**
 The geometry of the tree of bodies: cubes halved in each of three dimensions, integer coordinates whose bits choose
 the half, and what a tree holds.  Numbers are exact.
 */
module Octree {
  import opened Powers
  import opened Reals

  datatype Vec = Vec(x: real, y: real, z: real)

  const NSUB: nat := 8

  /** The highest bit of an integer coordinate: that of a number scaled to 1. */
  const IMAX: nat := 0x4000_0000

  /** The bits of an integer coordinate. */
  const BITS: nat := 30

  /** What a body or a cell keeps in memory. */
  class Node {
    const isCell: bool
    var mass: real
    var pos: Vec
    var subp: seq<Node?>

    constructor (isCell: bool, mass: real, pos: Vec)
      ensures this.isCell == isCell && this.mass == mass && this.pos == pos && subp == Nulls()
    {
      this.isCell, this.mass, this.pos, subp := isCell, mass, pos, Nulls();
    }
  }

  function Nulls(): (s: seq<Node?>)
    ensures |s| == NSUB && forall i :: 0 <= i < NSUB ==> s[i] == null
  {
    seq(NSUB, _ => null)
  }

  /** A body, with its mass and its place. */
  datatype Point = Point(n: Node, mass: real, pos: Vec)

  datatype Oct = None | Body(p: Point) | Cell(c: Node, subs: seq<Oct>)

  // ---------- Cubes ----------

  datatype Box = Box(lo: Vec, size: real)

  predicate Inside(p: Vec, b: Box) {
    && b.lo.x <= p.x < b.lo.x + b.size
    && b.lo.y <= p.y < b.lo.y + b.size
    && b.lo.z <= p.z < b.lo.z + b.size
  }

  /** The index of an octant: one bit for each dimension. */
  function Index(x: bool, y: bool, z: bool): (i: nat)
    ensures i < NSUB
  {
    (if x then 4 else 0) + (if y then 2 else 0) + (if z then 1 else 0)
  }

  function BitX(i: nat): (b: bool) {
    i / 4 % 2 == 1
  }

  function BitY(i: nat): (b: bool) {
    i / 2 % 2 == 1
  }

  function BitZ(i: nat): (b: bool) {
    i % 2 == 1
  }

  lemma {:induction false} IndexBits(x: bool, y: bool, z: bool)
    ensures BitX(Index(x, y, z)) == x && BitY(Index(x, y, z)) == y && BitZ(Index(x, y, z)) == z
  {
  }

  lemma {:induction false} BitsIndex(i: nat)
    requires i < NSUB
    ensures Index(BitX(i), BitY(i), BitZ(i)) == i
  {
  }

  function Shifted(lo: real, size: real, upper: bool): (r: real) {
    if upper then lo + size / 2.0 else lo
  }

  function Octant(b: Box, i: nat): (o: Box) {
    Box(Vec(Shifted(b.lo.x, b.size, BitX(i)), Shifted(b.lo.y, b.size, BitY(i)), Shifted(b.lo.z, b.size, BitZ(i))),
        b.size / 2.0)
  }

  /** The octant that holds a place. */
  function OctantOf(p: Vec, b: Box): (i: nat)
    ensures i < NSUB
  {
    Index(p.x >= b.lo.x + b.size / 2.0, p.y >= b.lo.y + b.size / 2.0, p.z >= b.lo.z + b.size / 2.0)
  }

  /** Every place of a cube is in exactly one octant: 4 to 7 are right, 2, 3, 6 and 7 up, the odd ones behind. */
  lemma {:induction false} OneOctant(p: Vec, b: Box, i: nat)
    requires Inside(p, b) && i < NSUB
    ensures Inside(p, Octant(b, i)) <==> i == OctantOf(p, b)
    ensures Inside(p, Octant(b, i)) <==> && (i in {4, 5, 6, 7} <==> p.x >= b.lo.x + b.size / 2.0)
                                         && (i in {2, 3, 6, 7} <==> p.y >= b.lo.y + b.size / 2.0)
                                         && (i in {1, 3, 5, 7} <==> p.z >= b.lo.z + b.size / 2.0)
  {
    IndexBits(p.x >= b.lo.x + b.size / 2.0, p.y >= b.lo.y + b.size / 2.0, p.z >= b.lo.z + b.size / 2.0);
    BitsIndex(i);
  }

  lemma {:induction false} OctantWithin(p: Vec, b: Box, i: nat)
    requires b.size > 0.0 && Inside(p, Octant(b, i))
    ensures Inside(p, b)
  {
  }

  /** The cube that a path of octants leads to. */
  function Cube(root: Box, path: seq<nat>): (b: Box) {
    if path == [] then root else Octant(Cube(root, path[..|path| - 1]), path[|path| - 1])
  }

  /** The number of a cube's place in one dimension, counted in cubes of its size. */
  function AddrX(path: seq<nat>): (a: nat) {
    if path == [] then 0 else 2 * AddrX(path[..|path| - 1]) + if BitX(path[|path| - 1]) then 1 else 0
  }

  function AddrY(path: seq<nat>): (a: nat) {
    if path == [] then 0 else 2 * AddrY(path[..|path| - 1]) + if BitY(path[|path| - 1]) then 1 else 0
  }

  function AddrZ(path: seq<nat>): (a: nat) {
    if path == [] then 0 else 2 * AddrZ(path[..|path| - 1]) + if BitZ(path[|path| - 1]) then 1 else 0
  }

  lemma {:induction false} PowersOfBits(d: nat) returns (p: nat, q: nat)
    requires d <= BITS
    ensures p == Pow2(d) && q == Pow2(BITS - d) && p * q == IMAX && p > 0 && q > 0
  {
    WordPowers();
    Pow2Sum(d, BITS - d);
    p, q := Pow2(d), Pow2(BITS - d);
  }

  /** A part of a whole interval at r, the a-th of p parts of this size. */
  ghost predicate IsPart(r: real, whole: real, lo: real, size: real, a: nat, p: nat) {
    lo == r + a as real * size && size * p as real == whole
  }

  lemma {:induction false} HalfIsPart(r: real, whole: real, lo: real, size: real, a: nat, p: nat, upper: bool)
    requires IsPart(r, whole, lo, size, a, p)
    ensures IsPart(r, whole, Shifted(lo, size, upper), size / 2.0, 2 * a + if upper then 1 else 0, 2 * p)
  {
    var h := size / 2.0;
    DoubledFactor(h, a);
    DoubledFactor(h, p);
    OneMore(h, (2 * a) as real);
    Commute(h, a, p, size);
  }

  lemma {:induction false} Commute(h: real, a: nat, p: nat, size: real)
    requires size == 2.0 * h
    ensures h * (2 * a) as real == (2 * a) as real * h && h * ((2 * a) as real + 1.0) == (2 * a + 1) as real * h
    ensures 2.0 * h * a as real == a as real * size && 2.0 * h * p as real == size * p as real
  {
    assert (2 * a + 1) as real == (2 * a) as real + 1.0;
  }

  lemma {:induction false} CubePlace(root: Box, path: seq<nat>)
    ensures var b := Cube(root, path);
            && IsPart(root.lo.x, root.size, b.lo.x, b.size, AddrX(path), Pow2(|path|))
            && IsPart(root.lo.y, root.size, b.lo.y, b.size, AddrY(path), Pow2(|path|))
            && IsPart(root.lo.z, root.size, b.lo.z, b.size, AddrZ(path), Pow2(|path|))
  {
    if path != [] {
      var (up, i) := (path[..|path| - 1], path[|path| - 1]);
      var b := Cube(root, up);
      CubePlace(root, up);
      HalfIsPart(root.lo.x, root.size, b.lo.x, b.size, AddrX(up), Pow2(|up|), BitX(i));
      HalfIsPart(root.lo.y, root.size, b.lo.y, b.size, AddrY(up), Pow2(|up|), BitY(i));
      HalfIsPart(root.lo.z, root.size, b.lo.z, b.size, AddrZ(up), Pow2(|up|), BitZ(i));
      assert Pow2(|path|) == 2 * Pow2(|up|);
    }
  }

  // ---------- Integer coordinates ----------

  datatype Coords = Coords(x: int, y: int, z: int)

  function Scaled(x: real, lo: real, size: real): (c: int)
    requires size > 0.0
  {
    (IMAX as real * ((x - lo) / size)).Floor
  }

  function IntCoord(p: Vec, root: Box): (c: Coords)
    requires root.size > 0.0
  {
    Coords(Scaled(p.x, root.lo.x, root.size), Scaled(p.y, root.lo.y, root.size), Scaled(p.z, root.lo.z, root.size))
  }

  /** The level of the cells at depth d: one bit, and none left below the last. */
  function Level(d: nat): (l: nat)
    ensures l == 0 <==> d >= BITS
  {
    if d < BITS then Pow2(BITS - 1 - d) else 0
  }

  function SubIndex(c: Coords, l: nat): (i: nat)
    requires l > 0
    ensures i < NSUB
  {
    Index(c.x / l % 2 == 1, c.y / l % 2 == 1, c.z / l % 2 == 1)
  }

  /** In one dimension the leading bits of a scaled number are the number of the interval it lies in. */
  lemma {:induction false} LeadingBits(x: real, lo: real, size: real, at: real, part: real, d: nat, a: nat)
    requires size > 0.0 && d <= BITS && IsPart(lo, size, at, part, a, Pow2(d)) && at <= x < at + part
    ensures Scaled(x, lo, size) / Pow2(BITS - d) == a
  {
    var p, q := PowersOfBits(d);
    var u, c := ScaledMeans(x, lo, size);
    InsidePart(u, x, lo, size, at, part, a, p);
    ScaledPart(u, size, part, p, q, IMAX, a, c);
  }

  lemma {:induction false} ScaledMeans(x: real, lo: real, size: real) returns (u: real, c: int)
    requires size > 0.0
    ensures u == x - lo && c == Scaled(x, lo, size)
    ensures c as real * size <= IMAX as real * u < c as real * size + size
  {
    u := x - lo;
    c := FloorOfScaled(u, size, IMAX);
  }

  lemma {:induction false} InsidePart(u: real, x: real, lo: real, size: real, at: real, part: real, a: nat, p: nat)
    requires IsPart(lo, size, at, part, a, p) && at <= x < at + part && u == x - lo
    ensures a as real * part <= u < a as real * part + part && part * p as real == size
  {
  }

  /** In one dimension the bit of a level chooses the half. */
  lemma {:induction false} BitChoosesHalf(x: real, lo: real, size: real, at: real, part: real, d: nat, a: nat)
    requires size > 0.0 && d < BITS && IsPart(lo, size, at, part, a, Pow2(d)) && at <= x < at + part
    ensures Scaled(x, lo, size) / Level(d) % 2 == 1 <==> x >= at + part / 2.0
  {
    var upper := x >= at + part / 2.0;
    var half := 2 * a + if upper then 1 else 0;
    HalfIsPart(lo, size, at, part, a, Pow2(d), upper);
    LeadingBits(x, lo, size, Shifted(at, part, upper), part / 2.0, d + 1, half);
    assert Level(d) == Pow2(BITS - (d + 1));
    LastBit(half, a, upper);
  }

  lemma {:induction false} LastBit(n: nat, a: nat, bit: bool)
    requires n == 2 * a + if bit then 1 else 0
    ensures n % 2 == 1 <==> bit
  {
  }

  /** The leading bits of the integer coordinates say which cube of that size a place is in. */
  lemma {:induction false} PathBits(p: Vec, root: Box, path: seq<nat>)
    requires root.size > 0.0 && |path| <= BITS && Inside(p, Cube(root, path))
    ensures var (c, q) := (IntCoord(p, root), Pow2(BITS - |path|));
            c.x / q == AddrX(path) && c.y / q == AddrY(path) && c.z / q == AddrZ(path)
  {
    var b := Cube(root, path);
    CubePlace(root, path);
    LeadingBits(p.x, root.lo.x, root.size, b.lo.x, b.size, |path|, AddrX(path));
    LeadingBits(p.y, root.lo.y, root.size, b.lo.y, b.size, |path|, AddrY(path));
    LeadingBits(p.z, root.lo.z, root.size, b.lo.z, b.size, |path|, AddrZ(path));
  }

  /** At every level the bit of the coordinates chooses the octant that holds the place. */
  lemma {:induction false} BitsChooseOctant(p: Vec, root: Box, path: seq<nat>)
    requires root.size > 0.0 && |path| < BITS && Inside(p, Cube(root, path))
    ensures SubIndex(IntCoord(p, root), Level(|path|)) == OctantOf(p, Cube(root, path))
    ensures Inside(p, Octant(Cube(root, path), OctantOf(p, Cube(root, path))))
  {
    var b := Cube(root, path);
    CubePlace(root, path);
    BitChoosesHalf(p.x, root.lo.x, root.size, b.lo.x, b.size, |path|, AddrX(path));
    BitChoosesHalf(p.y, root.lo.y, root.size, b.lo.y, b.size, |path|, AddrY(path));
    BitChoosesHalf(p.z, root.lo.z, root.size, b.lo.z, b.size, |path|, AddrZ(path));
    OneOctant(p, b, OctantOf(p, b));
  }

  /** All bits together name the last cube. */
  lemma {:induction false} AllBits(p: Vec, root: Box, path: seq<nat>)
    requires root.size > 0.0 && |path| == BITS && Inside(p, Cube(root, path))
    ensures IntCoord(p, root) == Coords(AddrX(path), AddrY(path), AddrZ(path))
  {
    PathBits(p, root, path);
    assert Pow2(0) == 1;
  }

  // ---------- Trees ----------

  function Points(t: Oct): (m: multiset<Point>) {
    match t
    case None => multiset{}
    case Body(p) => multiset{p}
    case Cell(_, subs) => PointsOf(subs)
  }

  function PointsOf(ts: seq<Oct>): (m: multiset<Point>) {
    if ts == [] then multiset{} else PointsOf(ts[..|ts| - 1]) + Points(ts[|ts| - 1])
  }

  /** Every body is in the cube that its path from the root names. */
  ghost predicate Placed(t: Oct, b: Box) {
    match t
    case None => true
    case Body(p) => Inside(p.pos, b)
    case Cell(_, subs) => |subs| == NSUB && forall i :: 0 <= i < NSUB ==> Placed(subs[i], Octant(b, i))
  }

  /** No cell is without bodies. */
  ghost predicate Occupied(t: Oct) {
    t.Cell? ==> Points(t) != multiset{} && forall i :: 0 <= i < |t.subs| ==> Occupied(t.subs[i])
  }

  lemma {:induction false} PointsAt(ts: seq<Oct>, p: Point)
    ensures p in PointsOf(ts) <==> exists i :: 0 <= i < |ts| && p in Points(ts[i])
  {
    if ts != [] {
      var us := ts[..|ts| - 1];
      PointsAt(us, p);
      assert p in PointsOf(ts) <==> p in PointsOf(us) || p in Points(ts[|us|]);
      assert forall i :: 0 <= i < |us| ==> us[i] == ts[i];
    }
  }

  lemma {:induction false} PointsOfPart(ts: seq<Oct>, i: nat)
    requires i < |ts|
    ensures forall p :: p in Points(ts[i]) ==> p in PointsOf(ts)
  {
    forall p | p in Points(ts[i])
      ensures p in PointsOf(ts)
    {
      PointsAt(ts, p);
    }
  }

  lemma {:induction false} PlacedInside(t: Oct, b: Box, p: Point)
    requires b.size > 0.0 && Placed(t, b) && p in Points(t)
    ensures Inside(p.pos, b)
  {
    if t.Cell? {
      PointsAt(t.subs, p);
      var i :| 0 <= i < |t.subs| && p in Points(t.subs[i]);
      PlacedInside(t.subs[i], Octant(b, i), p);
      OctantWithin(p.pos, b, i);
    }
  }

  lemma {:induction false} Regroup(a: multiset<Point>, b: multiset<Point>, c: multiset<Point>, d: multiset<Point>,
                                   e: multiset<Point>)
    requires a + b == c + d
    ensures (a + e) + b == (c + e) + d
  {
    assert (a + e) + b == (a + b) + e;
    assert (c + e) + d == (c + d) + e;
  }

  lemma {:induction false} PointsReplaced(ts: seq<Oct>, i: nat, u: Oct)
    requires i < |ts|
    ensures PointsOf(ts[i := u]) + Points(ts[i]) == PointsOf(ts) + Points(u)
  {
    var (us, vs, last) := (ts[..|ts| - 1], ts[i := u], ts[|ts| - 1]);
    if i < |us| {
      PointsReplaced(us, i, u);
      assert vs[..|vs| - 1] == us[i := u] && vs[|vs| - 1] == last;
      Regroup(PointsOf(us[i := u]), Points(ts[i]), PointsOf(us), Points(u), Points(last));
    } else {
      assert vs[..|vs| - 1] == us;
      Regroup(PointsOf(us), Points(last), PointsOf(us), Points(last), Points(u));
    }
  }

  // ---------- Adding a body ----------

  function Nones(): (s: seq<Oct>)
    ensures |s| == NSUB && forall i :: 0 <= i < NSUB ==> s[i] == None
  {
    seq(NSUB, _ => None)
  }

  lemma {:induction false} NonesEmpty(ts: seq<Oct>)
    requires forall i :: 0 <= i < |ts| ==> ts[i] == None
    ensures PointsOf(ts) == multiset{}
  {
    if ts != [] {
      NonesEmpty(ts[..|ts| - 1]);
    }
  }

  lemma {:induction false} SomePoint(t: Oct) returns (p: Point)
    requires Occupied(t) && t != None
    ensures p in Points(t)
  {
    if t.Body? {
      p := t.p;
    } else {
      var m := Points(t);
      assert m != multiset{};
      p :| p in m;
    }
  }

  lemma {:induction false} NonesBut(i: nat, t: Oct)
    requires i < NSUB
    ensures PointsOf(Nones()[i := t]) == Points(t)
  {
    NonesEmpty(Nones());
    PointsReplaced(Nones(), i, t);
    assert Points(Nones()[i]) == multiset{};
    assert PointsOf(Nones()[i := t]) == PointsOf(Nones()[i := t]) + multiset{};
    assert Points(t) == multiset{} + Points(t);
  }

  /** A new cell that holds only t. */
  lemma {:induction false} AloneInCell(c: Node, t: Oct, i: nat, b: Box)
    requires i < NSUB && Placed(t, Octant(b, i)) && Occupied(t) && t != None
    ensures var u := Cell(c, Nones()[i := t]);
            Placed(u, b) && Occupied(u) && Points(u) == Points(t)
  {
    var (u, subs) := (Cell(c, Nones()[i := t]), Nones()[i := t]);
    var p := SomePoint(t);
    NonesBut(i, t);
    assert forall j :: 0 <= j < NSUB ==> Placed(subs[j], Octant(b, j));
    assert forall j :: 0 <= j < NSUB ==> Occupied(subs[j]);
  }

  /** Where all bits are used up, an occupied slot holds a body with the same coordinates. */
  lemma {:induction false} NoBitsLeft(t: Oct, root: Box, path: seq<nat>, p: Vec) returns (y: Point)
    requires root.size > 0.0 && |path| == BITS && Placed(t, Cube(root, path)) && Occupied(t) && t != None
    requires Inside(p, Cube(root, path))
    ensures y in Points(t) && IntCoord(y.pos, root) == IntCoord(p, root)
  {
    y := SomePoint(t);
    PositiveSize(root, path);
    PlacedInside(t, Cube(root, path), y);
    AllBits(y.pos, root, path);
    AllBits(p, root, path);
  }

  lemma {:induction false} PositiveSize(root: Box, path: seq<nat>)
    requires root.size > 0.0
    ensures Cube(root, path).size > 0.0
  {
    if path != [] {
      PositiveSize(root, path[..|path| - 1]);
    }
  }

  /** A body with the same coordinates can only be in the same octant. */
  lemma {:induction false} SameCoordsSameOctant(t: Oct, root: Box, path: seq<nat>, p: Vec)
    requires root.size > 0.0 && |path| < BITS && t.Cell? && Placed(t, Cube(root, path)) && Inside(p, Cube(root, path))
    ensures var (i, c) := (OctantOf(p, Cube(root, path)), IntCoord(p, root));
            && i == SubIndex(c, Level(|path|))
            && ((exists y :: y in Points(t) && IntCoord(y.pos, root) == c) <==>
                exists y :: y in Points(t.subs[i]) && IntCoord(y.pos, root) == c)
  {
    var (b, c) := (Cube(root, path), IntCoord(p, root));
    var i := OctantOf(p, b);
    BitsChooseOctant(p, root, path);
    PositiveSize(root, path);
    if y :| y in Points(t) && IntCoord(y.pos, root) == c {
      PointsAt(t.subs, y);
      var j :| 0 <= j < |t.subs| && y in Points(t.subs[j]);
      PlacedInside(t.subs[j], Octant(b, j), y);
      OctantWithin(y.pos, b, j);
      BitsChooseOctant(y.pos, root, path);
      OneOctant(y.pos, b, j);
    }
    if y :| y in Points(t.subs[i]) && IntCoord(y.pos, root) == c {
      PointsAt(t.subs, y);
    }
  }

  // ---------- No cell for nothing ----------

  /** How many cells of t hold fewer than two bodies. */
  ghost function Spare(t: Oct): (n: nat) {
    if t.Cell? then (if |Points(t)| > 1 then 0 else 1) + SpareOf(t.subs) else 0
  }

  ghost function SpareOf(ts: seq<Oct>): (n: nat) {
    if ts == [] then 0 else SpareOf(ts[..|ts| - 1]) + Spare(ts[|ts| - 1])
  }

  lemma {:induction false} SpareReplaced(ts: seq<Oct>, i: nat, u: Oct)
    requires i < |ts|
    ensures SpareOf(ts[i := u]) + Spare(ts[i]) == SpareOf(ts) + Spare(u)
  {
    var (us, vs) := (ts[..|ts| - 1], ts[i := u]);
    if i < |us| {
      SpareReplaced(us, i, u);
      assert vs[..|vs| - 1] == us[i := u];
    } else {
      assert vs[..|vs| - 1] == us;
    }
  }

  lemma {:induction false} OneMorePoint(ts: seq<Oct>, i: nat, u: Oct, x: Point)
    requires i < |ts| && Points(u) == Points(ts[i]) + multiset{x}
    ensures |PointsOf(ts[i := u])| == |PointsOf(ts)| + 1
  {
    PointsReplaced(ts, i, u);
    var (m, n, p) := (PointsOf(ts), PointsOf(ts[i := u]), Points(ts[i]));
    assert |n| + |p| == |n + p| == |m + (p + multiset{x})| == |m| + |p| + 1;
  }

  /** A body more in a slot takes one off if the cell held one body before. */
  lemma {:induction false} SpareLess(t: Oct, i: nat, u: Oct, x: Point)
    requires t.Cell? && i < |t.subs| && Spare(u) <= Spare(t.subs[i])
    requires Points(u) == Points(t.subs[i]) + multiset{x}
    ensures var v := Cell(t.c, t.subs[i := u]);
            Spare(v) <= Spare(t) && (|Points(t)| == 1 ==> Spare(v) < Spare(t))
  {
    OneMorePoint(t.subs, i, u, x);
    SpareReplaced(t.subs, i, u);
  }

  lemma {:induction false} SpareNones(ts: seq<Oct>)
    requires forall i :: 0 <= i < |ts| ==> ts[i] == None
    ensures SpareOf(ts) == 0
  {
    if ts != [] {
      SpareNones(ts[..|ts| - 1]);
    }
  }

  /** A cell around one tree alone is one more. */
  lemma {:induction false} SpareAlone(c: Node, t: Oct, i: nat)
    requires i < NSUB
    ensures Spare(Cell(c, Nones()[i := t])) <= Spare(t) + 1
  {
    SpareNones(Nones());
    SpareReplaced(Nones(), i, t);
  }

  // ---------- Masses ----------

  function TotalMass(t: Oct): (m: real) {
    match t
    case None => 0.0
    case Body(p) => p.mass
    case Cell(_, subs) => MassOf(subs)
  }

  function MassOf(ts: seq<Oct>): (m: real) {
    if ts == [] then 0.0 else MassOf(ts[..|ts| - 1]) + TotalMass(ts[|ts| - 1])
  }

  function Add(u: Vec, v: Vec): (w: Vec) {
    Vec(u.x + v.x, u.y + v.y, u.z + v.z)
  }

  function Mul(u: Vec, s: real): (w: Vec) {
    Vec(u.x * s, u.y * s, u.z * s)
  }

  function Div(u: Vec, s: real): (w: Vec)
    requires s != 0.0
    ensures Mul(w, s) == u
  {
    Vec(u.x / s, u.y / s, u.z / s)
  }

  function Moment(t: Oct): (m: Vec) {
    match t
    case None => Vec(0.0, 0.0, 0.0)
    case Body(p) => Mul(p.pos, p.mass)
    case Cell(_, subs) => MomentOf(subs)
  }

  function MomentOf(ts: seq<Oct>): (m: Vec) {
    if ts == [] then Vec(0.0, 0.0, 0.0) else Add(MomentOf(ts[..|ts| - 1]), Moment(ts[|ts| - 1]))
  }

  /** No cell weighs nothing. */
  predicate Weighable(t: Oct) {
    t.Cell? ==> TotalMass(t) != 0.0 && AllWeighable(t.subs)
  }

  predicate AllWeighable(ts: seq<Oct>) {
    forall i :: 0 <= i < |ts| ==> Weighable(ts[i])
  }

  ghost predicate Massive(t: Oct) {
    forall p :: p in Points(t) ==> p.mass > 0.0
  }

  lemma {:induction false} MassPositive(t: Oct)
    requires Massive(t)
    ensures TotalMass(t) >= 0.0 && (Points(t) != multiset{} ==> TotalMass(t) > 0.0)
  {
    if t.Cell? {
      MassOfPositive(t.subs);
    }
  }

  lemma {:induction false} MassOfPositive(ts: seq<Oct>)
    requires forall p :: p in PointsOf(ts) ==> p.mass > 0.0
    ensures MassOf(ts) >= 0.0 && (PointsOf(ts) != multiset{} ==> MassOf(ts) > 0.0)
  {
    if ts != [] {
      MassOfPositive(ts[..|ts| - 1]);
      MassPositive(ts[|ts| - 1]);
    }
  }

  /** Bodies of positive mass make no cell that weighs nothing. */
  lemma {:induction false} MassiveWeighable(t: Oct)
    requires Massive(t) && Occupied(t)
    ensures Weighable(t)
  {
    MassPositive(t);
    if t.Cell? {
      forall i | 0 <= i < |t.subs|
        ensures Weighable(t.subs[i])
      {
        PointsOfPart(t.subs, i);
        MassiveWeighable(t.subs[i]);
      }
    }
  }

  // ---------- Growing the box ----------

  /** The number of doublings after which the size is no longer below 1000. */
  function Doublings(size: real): (n: nat)
    requires size > 0.0
    ensures n == 0 <==> size >= 1000.0
    decreases if size < 1000.0 then Fits(size) else 0
  {
    if size >= 1000.0 then 0
    else
      Halving(size);
      1 + Doublings(2.0 * size)
  }

  /** How often the size fits into 1000. */
  function Fits(size: real): (n: int)
    requires size > 0.0
    ensures n as real * size <= 1000.0 < n as real * size + size
  {
    FloorOfQuotient(1000.0, size);
    (1000.0 / size).Floor
  }

  lemma {:induction false} Halving(size: real)
    requires 0.0 < size < 1000.0
    ensures 0 <= Fits(2.0 * size) < Fits(size)
  {
    HalfAsOften(size, Fits(size), Fits(2.0 * size));
  }

  /** The doubled size fits into 1000 at most half as often as the size. */
  lemma {:induction false} HalfAsOften(size: real, c: int, h: int)
    requires 0.0 < size < 1000.0 && c as real * size <= 1000.0 < c as real * size + size
    requires h as real * (2.0 * size) <= 1000.0 < h as real * (2.0 * size) + 2.0 * size
    ensures 0 <= h < c
  {
    NextMultiple(c as real, size, c as real * size, c as real * size + size);
    Smallest(1.0, c as real + 1.0, size, 1000.0);
    Assoc(h as real, 2.0, size);
    Smallest(h as real * 2.0, c as real + 1.0, size, 1000.0);
    NextMultiple(h as real, 2.0 * size, h as real * (2.0 * size), h as real * (2.0 * size) + 2.0 * size);
    Smallest(0.0, h as real + 1.0, 2.0 * size, 1000.0);
  }

  function Lowered(x: real, lo: real, size: real): (r: real) {
    if x < lo + 0.5 * size then lo - size else lo
  }

  /** The box doubled, to the left in each dimension in which the place is left of the middle. */
  function Grown(b: Box, p: Vec): (g: Box) {
    Box(Vec(Lowered(p.x, b.lo.x, b.size), Lowered(p.y, b.lo.y, b.size), Lowered(p.z, b.lo.z, b.size)), 2.0 * b.size)
  }

  /** The size after n doublings. */
  function Doubled(size: real, n: nat): (d: real) {
    if n == 0 then size else 2.0 * Doubled(size, n - 1)
  }

  lemma {:induction false} DoubledTwice(size: real, m: nat, n: nat)
    ensures Doubled(Doubled(size, m), n) == Doubled(size, m + n)
  {
    if n > 0 {
      DoubledTwice(size, m, n - 1);
    }
  }

  lemma {:induction false} DoubledOnceMore(size: real, n: nat)
    requires size > 0.0
    ensures Doubled(2.0 * size, n) == Doubled(size, n + 1) && Doubled(size, n) >= size
  {
    if n > 0 {
      DoubledOnceMore(size, n - 1);
    }
  }

  /** Within reach of n doublings, to the left by all the sizes added, to the right by the last size. */
  predicate Reach(x: real, lo: real, size: real, n: nat) {
    lo - (Doubled(size, n) - size) <= x < lo + Doubled(size, n)
  }

  predicate InReach(p: Vec, b: Box, n: nat) {
    Reach(p.x, b.lo.x, b.size, n) && Reach(p.y, b.lo.y, b.size, n) && Reach(p.z, b.lo.z, b.size, n)
  }

  lemma {:induction false} SameReach(x: real, lo: real, size: real, d: real)
    requires size > 0.0 && d >= 2.0 * size
    ensures lo - (d - size) <= x < lo + d <==>
            Lowered(x, lo, size) - (d - 2.0 * size) <= x < Lowered(x, lo, size) + d
  {
  }

  /** One doubling takes one off. */
  lemma {:induction false} ReachGrows(x: real, lo: real, size: real, n: nat)
    requires size > 0.0
    ensures Reach(x, lo, size, n + 1) <==> Reach(x, Lowered(x, lo, size), 2.0 * size, n)
  {
    DoubledOnceMore(size, n);
    DoubledOnceMore(2.0 * size, n);
    SameReach(x, lo, size, Doubled(size, n + 1));
  }

  lemma {:induction false} InReachGrows(p: Vec, b: Box, n: nat)
    requires b.size > 0.0
    ensures InReach(p, b, n + 1) <==> InReach(p, Grown(b, p), n)
  {
    ReachGrows(p.x, b.lo.x, b.size, n);
    ReachGrows(p.y, b.lo.y, b.size, n);
    ReachGrows(p.z, b.lo.z, b.size, n);
  }

  /** What is inside is within reach of any number of doublings; of none, nothing else is. */
  lemma {:induction false} InsideReach(x: real, lo: real, size: real, n: nat)
    requires size > 0.0
    ensures lo <= x < lo + size ==> Reach(x, lo, size, n)
    ensures Reach(x, lo, size, 0) ==> lo <= x < lo + size
  {
    DoubledOnceMore(size, n);
  }

  lemma {:induction false} InsideInReach(p: Vec, b: Box, n: nat)
    requires b.size > 0.0
    ensures Inside(p, b) ==> InReach(p, b, n)
    ensures InReach(p, b, 0) ==> Inside(p, b)
  {
    InsideReach(p.x, b.lo.x, b.size, n);
    InsideReach(p.y, b.lo.y, b.size, n);
    InsideReach(p.z, b.lo.z, b.size, n);
  }

  /** The box can be doubled until it holds the place. */
  predicate Reachable(p: Vec, b: Box)
    requires b.size > 0.0
  {
    InReach(p, b, Doublings(b.size))
  }

  lemma {:induction false} InsideReachable(p: Vec, b: Box)
    requires b.size > 0.0 && Inside(p, b)
    ensures Reachable(p, b)
  {
    InsideInReach(p, b, Doublings(b.size));
  }

  /** Doubling the box changes nothing about whether it can reach the place. */
  lemma {:induction false} OneRound(p: Vec, b: Box)
    requires b.size > 0.0
    ensures if b.size >= 1000.0 then Reachable(p, b) ==> Inside(p, b)
            else Reachable(p, b) == Reachable(p, Grown(b, p)) && Doublings(2.0 * b.size) < Doublings(b.size)
  {
    if b.size >= 1000.0 {
      InsideInReach(p, b, 0);
    } else {
      InReachGrows(p, b, Doublings(2.0 * b.size));
    }
  }

  function Middle(b: Box): (m: Vec) {
    Vec(b.lo.x + 0.5 * b.size, b.lo.y + 0.5 * b.size, b.lo.z + 0.5 * b.size)
  }

  /** g is twice b and has it in the octant away from p: where p is left of b's middle, b is the right half of g. */
  predicate DoublesToward(g: Box, b: Box, p: Vec) {
    && g.size == b.size + b.size
    && Octant(g, Index(p.x < b.lo.x + b.size / 2.0, p.y < b.lo.y + b.size / 2.0, p.z < b.lo.z + b.size / 2.0)) == b
  }

  /** The box grows on the side on which the place is. */
  lemma {:induction false} GrowsToward(b: Box, p: Vec)
    ensures DoublesToward(Grown(b, p), b, p)
  {
    IndexBits(p.x < b.lo.x + b.size / 2.0, p.y < b.lo.y + b.size / 2.0, p.z < b.lo.z + b.size / 2.0);
  }

  lemma {:induction false} TopLevel()
    ensures Level(0) == IMAX / 2
  {
    WordPowers();
    assert Pow2(BITS) == 2 * Pow2(BITS - 1);
  }

  lemma {:induction false} OldHalf(x: real, lo: real, size: real)
    requires size > 0.0
    ensures var (g, m) := (Lowered(x, lo, size), lo + 0.5 * size);
            g <= m < g + 2.0 * size && Shifted(g, 2.0 * size, m >= g + 2.0 * size / 2.0) == lo
  {
  }

  /** The bits of the old middle choose the octant that the old box has become. */
  lemma {:induction false} OldOctant(b: Box, p: Vec) returns (k: nat)
    requires b.size > 0.0
    ensures Inside(Middle(b), Grown(b, p)) && k < NSUB && Octant(Grown(b, p), k) == b
    ensures k == SubIndex(IntCoord(Middle(b), Grown(b, p)), IMAX / 2)
  {
    var (g, m) := (Grown(b, p), Middle(b));
    OldHalf(p.x, b.lo.x, b.size);
    OldHalf(p.y, b.lo.y, b.size);
    OldHalf(p.z, b.lo.z, b.size);
    assert Cube(g, []) == g;
    BitsChooseOctant(m, g, []);
    TopLevel();
    IndexBits(m.x >= g.lo.x + g.size / 2.0, m.y >= g.lo.y + g.size / 2.0, m.z >= g.lo.z + g.size / 2.0);
    k := OctantOf(m, g);
  }
}
