/** Mass and moment of a tree as sums over its bodies, and where the centre of mass lies. */
module CentreOfMass {
  import opened Reals
  import opened Octree

  /** The sum of f over some bodies, in any order. */
  ghost function Sum(m: multiset<Point>, f: Point -> real): (s: real) {
    if m == multiset{} then 0.0 else
      var p :| p in m;
      f(p) + Sum(m - multiset{p}, f)
  }

  lemma {:induction false} SumWithout(m: multiset<Point>, f: Point -> real, p: Point)
    requires p in m
    ensures Sum(m, f) == f(p) + Sum(m - multiset{p}, f)
    decreases |m|
  {
    var q :| q in m && Sum(m, f) == f(q) + Sum(m - multiset{q}, f);
    if p != q {
      SumWithout(m - multiset{q}, f, p);
      SumWithout(m - multiset{p}, f, q);
      assert m - multiset{q} - multiset{p} == m - multiset{p} - multiset{q};
    }
  }

  lemma {:induction false} SumPlus(a: multiset<Point>, b: multiset<Point>, f: Point -> real)
    ensures Sum(a + b, f) == Sum(a, f) + Sum(b, f)
    decreases |b|
  {
    if b == multiset{} {
      assert a + b == a;
    } else {
      var p :| p in b;
      SumWithout(b, f, p);
      SumWithout(a + b, f, p);
      assert a + b - multiset{p} == a + (b - multiset{p});
      SumPlus(a, b - multiset{p}, f);
    }
  }

  lemma {:induction false} SumOfOne(p: Point, f: Point -> real)
    ensures Sum(multiset{p}, f) == f(p)
  {
    SumWithout(multiset{p}, f, p);
    assert multiset{p} - multiset{p} == multiset{};
  }

  ghost function MassOfBody(): (f: Point -> real) {
    (p: Point) => p.mass
  }

  ghost function MomentX(): (f: Point -> real) {
    (p: Point) => p.pos.x * p.mass
  }

  ghost function MomentY(): (f: Point -> real) {
    (p: Point) => p.pos.y * p.mass
  }

  ghost function MomentZ(): (f: Point -> real) {
    (p: Point) => p.pos.z * p.mass
  }

  /** The mass of a tree is the sum of the masses of its bodies. */
  lemma {:induction false} MassIsSum(t: Oct)
    ensures TotalMass(t) == Sum(Points(t), MassOfBody())
  {
    match t
    case None =>
    case Body(p) => SumOfOne(p, MassOfBody());
    case Cell(_, subs) => MassesAreSum(subs);
  }

  lemma {:induction false} MassesAreSum(ts: seq<Oct>)
    ensures MassOf(ts) == Sum(PointsOf(ts), MassOfBody())
  {
    if ts != [] {
      MassesAreSum(ts[..|ts| - 1]);
      MassIsSum(ts[|ts| - 1]);
      SumPlus(PointsOf(ts[..|ts| - 1]), Points(ts[|ts| - 1]), MassOfBody());
    }
  }

  ghost function MomentSum(m: multiset<Point>): (v: Vec) {
    Vec(Sum(m, MomentX()), Sum(m, MomentY()), Sum(m, MomentZ()))
  }

  lemma {:induction false} MomentPlus(a: multiset<Point>, b: multiset<Point>)
    ensures MomentSum(a + b) == Add(MomentSum(a), MomentSum(b))
  {
    SumPlus(a, b, MomentX());
    SumPlus(a, b, MomentY());
    SumPlus(a, b, MomentZ());
  }

  /** The moment of a tree is the sum of place times mass of its bodies, in each dimension. */
  lemma {:induction false} MomentIsSum(t: Oct)
    ensures Moment(t) == MomentSum(Points(t))
  {
    match t
    case None =>
    case Body(p) =>
      SumOfOne(p, MomentX());
      SumOfOne(p, MomentY());
      SumOfOne(p, MomentZ());
    case Cell(_, subs) => MomentsAreSum(subs);
  }

  lemma {:induction false} MomentsAreSum(ts: seq<Oct>)
    ensures MomentOf(ts) == MomentSum(PointsOf(ts))
  {
    if ts != [] {
      MomentsAreSum(ts[..|ts| - 1]);
      MomentIsSum(ts[|ts| - 1]);
      MomentPlus(PointsOf(ts[..|ts| - 1]), Points(ts[|ts| - 1]));
    }
  }

  // ---------- The centre of mass lies in the cube ----------

  /** What f is over c times the mass. */
  ghost function Over(f: Point -> real, c: real): (g: Point -> real) {
    (p: Point) => f(p) - c * p.mass
  }

  lemma {:induction false} OverAt(f: Point -> real, c: real, p: Point) returns (x: real)
    ensures x == c * p.mass && Over(f, c)(p) == f(p) - x
  {
    x := c * p.mass;
  }

  lemma {:induction false} Distribute(c: real, x: real, y: real, cx: real, cy: real) returns (s: real, z: real)
    requires cx == c * x && cy == c * y
    ensures s == x + y && z == c * s && z == cx + cy
  {
    s := x + y;
    z := c * s;
  }

  ghost function TimesMass(c: real): (g: Point -> real) {
    (p: Point) => c * p.mass
  }

  /** The bodies for which g is not c times the mass. */
  ghost function NotTimes(m: multiset<Point>, g: Point -> real, c: real): (s: set<Point>) {
    set p | p in m && g(p) != c * p.mass
  }

  lemma {:induction false} TimesAt(m: multiset<Point>, g: Point -> real, c: real, p: Point)
    requires NotTimes(m, g, c) == {} && p in m
    ensures g(p) == c * p.mass && NotTimes(m - multiset{p}, g, c) == {}
  {
    assert p !in NotTimes(m, g, c);
    assert NotTimes(m - multiset{p}, g, c) <= NotTimes(m, g, c);
  }

  lemma {:induction false} SumTimes(m: multiset<Point>, g: Point -> real, c: real) returns (s: real, x: real)
    requires NotTimes(m, g, c) == {}
    ensures s == Sum(m, MassOfBody()) && x == Sum(m, g) && x == c * s
    decreases |m|
  {
    if m == multiset{} {
      s, x := 0.0, 0.0;
    } else {
      var p :| p in m;
      SumWithout(m, MassOfBody(), p);
      SumWithout(m, g, p);
      TimesAt(m, g, c, p);
      s, x := SumTimes(m - multiset{p}, g, c);
      s, x := Distribute(c, p.mass, s, g(p), x);
    }
  }

  lemma {:induction false} SumMinus(m: multiset<Point>, f: Point -> real, g: Point -> real, h: Point -> real)
    requires forall p :: h(p) == f(p) - g(p)
    ensures Sum(m, h) == Sum(m, f) - Sum(m, g)
    decreases |m|
  {
    if m != multiset{} {
      var p :| p in m;
      SumWithout(m, f, p);
      SumWithout(m, g, p);
      SumWithout(m, h, p);
      SumMinus(m - multiset{p}, f, g, h);
    }
  }

  lemma {:induction false} SumOver(m: multiset<Point>, f: Point -> real, c: real) returns (x: real)
    ensures x == c * Sum(m, MassOfBody()) && Sum(m, Over(f, c)) == Sum(m, f) - x
  {
    SumMinus(m, f, TimesMass(c), Over(f, c));
    assert NotTimes(m, TimesMass(c), c) == {};
    var s, y := SumTimes(m, TimesMass(c), c);
    x := y;
  }

  lemma {:induction false} SumSign(m: multiset<Point>, g: Point -> real)
    ensures (forall p :: p in m ==> g(p) >= 0.0) ==> Sum(m, g) >= 0.0
    ensures (forall p :: p in m ==> g(p) > 0.0) && m != multiset{} ==> Sum(m, g) > 0.0
    ensures (forall p :: p in m ==> g(p) < 0.0) && m != multiset{} ==> Sum(m, g) < 0.0
    decreases |m|
  {
    if m != multiset{} {
      var p :| p in m;
      SumWithout(m, g, p);
      SumSign(m - multiset{p}, g);
    }
  }

  /** No body is under lo times its mass, all are under hi times it. */
  ghost predicate Between(m: multiset<Point>, f: Point -> real, lo: real, hi: real) {
    && (forall p :: p in m ==> MassOfBody()(p) > 0.0)
    && (forall p :: p in m ==> Over(f, lo)(p) >= 0.0)
    && (forall p :: p in m ==> Over(f, hi)(p) < 0.0)
  }

  /** Then the quotient of the sums lies between lo and hi. */
  lemma {:induction false} QuotientBetween(m: multiset<Point>, f: Point -> real, lo: real, hi: real, x: real,
                                           mass: real, moment: real)
    requires m != multiset{} && Between(m, f, lo, hi) && mass == Sum(m, MassOfBody()) && moment == Sum(m, f)
    requires moment == x * mass
    ensures lo <= x < hi
  {
    SumSign(m, MassOfBody());
    SumSign(m, Over(f, lo));
    SumSign(m, Over(f, hi));
    var l := SumOver(m, f, lo);
    var h := SumOver(m, f, hi);
    ProductOrder(lo, x, mass, l, moment);
    ProductOrder(x, hi, mass, moment, h);
  }

  lemma {:induction false} PlaceBetween(x: real, mass: real, lo: real, hi: real, moment: real, l: real, h: real)
    requires mass > 0.0 && lo <= x < hi && moment == x * mass && l == lo * mass && h == hi * mass
    ensures moment - l >= 0.0 && moment - h < 0.0
  {
    ProductOrder(lo, x, mass, l, moment);
    ProductOrder(x, hi, mass, moment, h);
  }

  /** f is a coordinate times the mass, and the coordinate lies between lo and hi. */
  lemma {:induction false} BodyBetween(f: Point -> real, p: Point, x: real, lo: real, hi: real)
    requires p.mass > 0.0 && f(p) == x * p.mass && lo <= x < hi
    ensures Over(f, lo)(p) >= 0.0 && Over(f, hi)(p) < 0.0
  {
    var l := OverAt(f, lo, p);
    var h := OverAt(f, hi, p);
    PlaceBetween(x, p.mass, lo, hi, f(p), l, h);
  }

  lemma {:induction false} BetweenX(t: Oct, b: Box)
    requires b.size > 0.0 && Placed(t, b) && Massive(t)
    ensures Between(Points(t), MomentX(), b.lo.x, b.lo.x + b.size)
  {
    forall p | p in Points(t)
      ensures p.mass > 0.0 && Over(MomentX(), b.lo.x)(p) >= 0.0 && Over(MomentX(), b.lo.x + b.size)(p) < 0.0
    {
      PlacedInside(t, b, p);
      BodyBetween(MomentX(), p, p.pos.x, b.lo.x, b.lo.x + b.size);
    }
  }

  lemma {:induction false} CentreX(t: Oct, b: Box, x: real, mass: real, moment: real)
    requires b.size > 0.0 && Placed(t, b) && Massive(t) && Points(t) != multiset{}
    requires mass == TotalMass(t) && moment == Moment(t).x && moment == x * mass
    ensures b.lo.x <= x < b.lo.x + b.size
  {
    MassIsSum(t);
    MomentIsSum(t);
    BetweenX(t, b);
    QuotientBetween(Points(t), MomentX(), b.lo.x, b.lo.x + b.size, x, mass, moment);
  }

  lemma {:induction false} BetweenY(t: Oct, b: Box)
    requires b.size > 0.0 && Placed(t, b) && Massive(t)
    ensures Between(Points(t), MomentY(), b.lo.y, b.lo.y + b.size)
  {
    forall p | p in Points(t)
      ensures p.mass > 0.0 && Over(MomentY(), b.lo.y)(p) >= 0.0 && Over(MomentY(), b.lo.y + b.size)(p) < 0.0
    {
      PlacedInside(t, b, p);
      BodyBetween(MomentY(), p, p.pos.y, b.lo.y, b.lo.y + b.size);
    }
  }

  lemma {:induction false} CentreY(t: Oct, b: Box, y: real, mass: real, moment: real)
    requires b.size > 0.0 && Placed(t, b) && Massive(t) && Points(t) != multiset{}
    requires mass == TotalMass(t) && moment == Moment(t).y && moment == y * mass
    ensures b.lo.y <= y < b.lo.y + b.size
  {
    MassIsSum(t);
    MomentIsSum(t);
    BetweenY(t, b);
    QuotientBetween(Points(t), MomentY(), b.lo.y, b.lo.y + b.size, y, mass, moment);
  }

  lemma {:induction false} BetweenZ(t: Oct, b: Box)
    requires b.size > 0.0 && Placed(t, b) && Massive(t)
    ensures Between(Points(t), MomentZ(), b.lo.z, b.lo.z + b.size)
  {
    forall p | p in Points(t)
      ensures p.mass > 0.0 && Over(MomentZ(), b.lo.z)(p) >= 0.0 && Over(MomentZ(), b.lo.z + b.size)(p) < 0.0
    {
      PlacedInside(t, b, p);
      BodyBetween(MomentZ(), p, p.pos.z, b.lo.z, b.lo.z + b.size);
    }
  }

  lemma {:induction false} CentreZ(t: Oct, b: Box, z: real, mass: real, moment: real)
    requires b.size > 0.0 && Placed(t, b) && Massive(t) && Points(t) != multiset{}
    requires mass == TotalMass(t) && moment == Moment(t).z && moment == z * mass
    ensures b.lo.z <= z < b.lo.z + b.size
  {
    MassIsSum(t);
    MomentIsSum(t);
    BetweenZ(t, b);
    QuotientBetween(Points(t), MomentZ(), b.lo.z, b.lo.z + b.size, z, mass, moment);
  }

  /** The centre of mass of bodies of positive mass lies in the cube that holds them. */
  lemma {:induction false} CentreInside(t: Oct, b: Box, c: Vec)
    requires b.size > 0.0 && Placed(t, b) && Massive(t) && Points(t) != multiset{}
    requires Mul(c, TotalMass(t)) == Moment(t)
    ensures Inside(c, b)
  {
    CentreX(t, b, c.x, TotalMass(t), Moment(t).x);
    CentreY(t, b, c.y, TotalMass(t), Moment(t).y);
    CentreZ(t, b, c.z, TotalMass(t), Moment(t).z);
  }
}
