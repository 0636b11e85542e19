/** Which bodies can be loaded one by one, and into what box. */
module OctreeLoading {
  import opened Octree

  // ---------- A place that is free ----------

  /** The bodies of t that have these integer coordinates. */
  ghost function At(t: Oct, box: Box, c: Coords): (s: set<Point>)
    requires box.size > 0.0
  {
    set y | y in Points(t) && IntCoord(y.pos, box) == c
  }

  /** No body of t has these integer coordinates. */
  ghost predicate Free(t: Oct, box: Box, c: Coords)
    requires box.size > 0.0
  {
    At(t, box, c) == {}
  }

  lemma {:induction false} FreeMeans(t: Oct, box: Box, c: Coords)
    requires box.size > 0.0
    ensures Free(t, box, c) <==> forall y :: y in Points(t) ==> IntCoord(y.pos, box) != c
  {
    if Free(t, box, c) {
      forall y | y in Points(t)
        ensures IntCoord(y.pos, box) != c
      {
        assert y !in At(t, box, c);
      }
    }
  }

  lemma {:induction false} SamePoints(t: Oct, u: Oct, box: Box, c: Coords)
    requires box.size > 0.0 && Points(t) == Points(u)
    ensures Free(t, box, c) <==> Free(u, box, c)
  {
    assert At(t, box, c) == At(u, box, c);
  }

  // ---------- One body ----------

  /** The box doubled until it holds the place, or may not be doubled any more. */
  function GrownTo(b: Box, p: Vec): (g: Box)
    requires b.size > 0.0
    ensures g.size > 0.0
    decreases Doublings(b.size)
  {
    if Inside(p, b) || b.size >= 1000.0 then b
    else
      OneRound(p, b);
      GrownTo(Grown(b, p), p)
  }

  lemma {:induction false} GrownHolds(b: Box, p: Vec)
    requires b.size > 0.0
    ensures Inside(p, GrownTo(b, p)) <==> Reachable(p, b)
    decreases Doublings(b.size)
  {
    OneRound(p, b);
    if Inside(p, b) {
      InsideReachable(p, b);
    } else if b.size < 1000.0 {
      GrownHolds(Grown(b, p), p);
    }
  }

  /** The boxes from b to g: each but the last does not hold p, is below 1000, and doubles toward p. */
  predicate Growth(boxes: seq<Box>, b: Box, g: Box, p: Vec) {
    && boxes != [] && boxes[0] == b && boxes[|boxes| - 1] == g
    && forall i :: 0 <= i < |boxes| - 1 ==>
         !Inside(p, boxes[i]) && boxes[i].size < 1000.0 && DoublesToward(boxes[i + 1], boxes[i], p)
  }

  /** The box grows step by step toward the place, until it holds it or is too large. */
  lemma {:induction false} GrowthOf(b: Box, p: Vec) returns (boxes: seq<Box>)
    requires b.size > 0.0
    ensures Growth(boxes, b, GrownTo(b, p), p)
    ensures Inside(p, GrownTo(b, p)) || GrownTo(b, p).size >= 1000.0
    decreases Doublings(b.size)
  {
    if Inside(p, b) || b.size >= 1000.0 {
      boxes := [b];
    } else {
      OneRound(p, b);
      GrowsToward(b, p);
      var more := GrowthOf(Grown(b, p), p);
      boxes := [b] + more;
    }
  }

  /** The box for one more body: without a tree it does not grow. */
  function NewBox(t: Oct, b: Box, p: Vec): (g: Box)
    requires b.size > 0.0
    ensures g.size > 0.0
  {
    if t == None then b else GrownTo(b, p)
  }

  /** One more body can be loaded: it is in the box for it, where no body has the same integer coordinates. */
  ghost predicate Admits(t: Oct, b: Box, p: Vec)
    requires b.size > 0.0
  {
    && (if t == None then Inside(p, b) else Reachable(p, b))
    && Free(t, NewBox(t, b, p), IntCoord(p, NewBox(t, b, p)))
  }

  // ---------- The loop that grows the box ----------

  /** Where the loop stands with box b, having begun with box a, with this many doublings left. */
  predicate Growing(t: Oct, a: Box, b: Box, p: Vec, inbox: bool, left: nat) {
    && a.size > 0.0 && b.size > 0.0 && left == Doublings(b.size)
    && if t == None then inbox == Inside(p, a) && (inbox ==> b == a)
       else inbox == Inside(p, b) && Reachable(p, b) == Reachable(p, a) && GrownTo(b, p) == GrownTo(a, p)
  }

  /** The boxes with which the loop may stand there. */
  ghost function Stages(t: Oct, a: Box, p: Vec, inbox: bool, left: nat): (bs: iset<Box>) {
    iset b | Growing(t, a, b, p, inbox, left)
  }

  lemma {:induction false} GrowsOn(t: Oct, a: Box, b: Box, p: Vec, left: nat)
    requires b in Stages(t, a, p, false, left) && b.size < 1000.0
    ensures left > 0 && b.size > 0.0 && Grown(b, p) in Stages(t, a, p, t != None && Inside(p, Grown(b, p)), left - 1)
  {
    OneRound(p, b);
  }

  lemma {:induction false} GrowingStarts(t: Oct, a: Box, p: Vec) returns (left: nat)
    requires a.size > 0.0
    ensures a in Stages(t, a, p, Inside(p, a), left)
  {
    left := Doublings(a.size);
  }

  /** The loop ends well with the new box, or fails with a box too large. */
  lemma {:induction false} GrowingEnds(t: Oct, a: Box, b: Box, p: Vec, inbox: bool, left: nat) returns (boxes: seq<Box>)
    requires b in Stages(t, a, p, inbox, left) && (inbox || b.size >= 1000.0)
    ensures inbox <==> if t == None then Inside(p, a) else Reachable(p, a)
    ensures inbox ==> b.size > 0.0 && Inside(p, b) && b == NewBox(t, a, p) && Growth(boxes, a, b, p)
  {
    boxes := GrowthOf(a, p);
    OneRound(p, b);
    if inbox {
      InsideReachable(p, b);
      if t == None {
        boxes := [a];
      }
    }
  }

  // ---------- All bodies ----------

  function Added(p: Point): (m: multiset<Point>) {
    if p.mass != 0.0 then multiset{p} else multiset{}
  }

  /** The bodies that have mass. */
  function WithMass(ps: seq<Point>): (m: multiset<Point>) {
    if ps == [] then multiset{}
    else WithMass(ps[..|ps| - 1]) + Added(ps[|ps| - 1])
  }

  lemma {:induction false} MoreMass(ps: seq<Point>, i: nat)
    requires i < |ps|
    ensures WithMass(ps[..i + 1]) == WithMass(ps[..i]) + Added(ps[i])
  {
    assert ps[..i + 1][..i] == ps[..i];
  }

  function NextBox(t: Oct, b: Box, p: Point): (g: Box)
    requires b.size > 0.0
    ensures g.size > 0.0
  {
    if p.mass == 0.0 then b else NewBox(t, b, p.pos)
  }

  /** The box after some bodies have been loaded: it grows for each with mass but the first. */
  function BoxAfter(ps: seq<Point>, b: Box): (g: Box)
    requires b.size > 0.0
    ensures g.size > 0.0
  {
    if ps == [] then b
    else
      var (qs, p) := (ps[..|ps| - 1], ps[|ps| - 1]);
      if p.mass == 0.0 || WithMass(qs) == multiset{} then BoxAfter(qs, b) else GrownTo(BoxAfter(qs, b), p.pos)
  }

  /** The bodies of ps with mass that have these integer coordinates. */
  function Taken(ps: seq<Point>, box: Box, c: Coords): (s: set<Point>)
    requires box.size > 0.0
  {
    set p | p in WithMass(ps) && IntCoord(p.pos, box) == c
  }

  /** The bodies can be loaded one by one: each with mass is in the box for it, alone with its integer coordinates. */
  predicate Loadable(ps: seq<Point>, b: Box)
    requires b.size > 0.0
  {
    ps == [] ||
    var (qs, p, g) := (ps[..|ps| - 1], ps[|ps| - 1], BoxAfter(ps, b));
    Loadable(qs, b) && (p.mass == 0.0 || (Inside(p.pos, g) && Taken(qs, g, IntCoord(p.pos, g)) == {}))
  }

  lemma {:induction false} LoadablePrefix(ps: seq<Point>, i: nat, b: Box)
    requires b.size > 0.0 && i <= |ps|
    ensures Loadable(ps, b) ==> Loadable(ps[..i], b)
    decreases |ps|
  {
    if i < |ps| {
      LoadablePrefix(ps[..|ps| - 1], i, b);
      assert ps[..|ps| - 1][..i] == ps[..i];
    } else {
      assert ps[..i] == ps;
    }
  }

  lemma {:induction false} NothingLoaded(t: Oct)
    requires Occupied(t)
    ensures Points(t) == multiset{} <==> t == None
  {
    if t != None {
      var p := SomePoint(t);
    }
  }

  lemma {:induction false} BoxMore(ps: seq<Point>, i: nat, t: Oct, b: Box)
    requires b.size > 0.0 && i < |ps| && Occupied(t) && Points(t) == WithMass(ps[..i])
    ensures BoxAfter(ps[..i + 1], b) == NextBox(t, BoxAfter(ps[..i], b), ps[i])
  {
    assert ps[..i + 1][..i] == ps[..i];
    NothingLoaded(t);
  }

  lemma {:induction false} LoadableUnfolds(ps: seq<Point>, i: nat, b: Box)
    requires b.size > 0.0 && i < |ps|
    ensures var (p, g) := (ps[i], BoxAfter(ps[..i + 1], b));
            Loadable(ps[..i + 1], b) <==>
            Loadable(ps[..i], b) &&
            (p.mass == 0.0 || (Inside(p.pos, g) && Taken(ps[..i], g, IntCoord(p.pos, g)) == {}))
  {
    assert ps[..i + 1][..i] == ps[..i];
  }

  lemma {:induction false} AdmitsMeans(t: Oct, b: Box, p: Vec, qs: seq<Point>)
    requires b.size > 0.0 && Points(t) == WithMass(qs)
    ensures var g := NewBox(t, b, p);
            Admits(t, b, p) <==> Inside(p, g) && Taken(qs, g, IntCoord(p, g)) == {}
  {
    GrownHolds(b, p);
    var g := NewBox(t, b, p);
    assert At(t, g, IntCoord(p, g)) == Taken(qs, g, IntCoord(p, g));
  }

  /** The next body is as good as the tree admitting it. */
  lemma {:induction false} LoadableMore(ps: seq<Point>, i: nat, t: Oct, b: Box)
    requires b.size > 0.0 && i < |ps| && Loadable(ps[..i], b) && Occupied(t) && Points(t) == WithMass(ps[..i])
    ensures WithMass(ps[..i + 1]) == Points(t) + Added(ps[i])
    ensures BoxAfter(ps[..i + 1], b) == NextBox(t, BoxAfter(ps[..i], b), ps[i])
    ensures Loadable(ps[..i + 1], b) <==> ps[i].mass == 0.0 || Admits(t, BoxAfter(ps[..i], b), ps[i].pos)
  {
    MoreMass(ps, i);
    BoxMore(ps, i, t, b);
    LoadableUnfolds(ps, i, b);
    AdmitsMeans(t, BoxAfter(ps[..i], b), ps[i].pos, ps[..i]);
  }

  // ---------- Bodies that are all in the box ----------

  /** The bodies with mass that are not in the box. */
  function Outside(ps: seq<Point>, box: Box): (s: set<int>) {
    set i | 0 <= i < |ps| && ps[i].mass != 0.0 && !Inside(ps[i].pos, box)
  }

  /** The bodies with mass are all in the box. */
  predicate AllInside(ps: seq<Point>, box: Box) {
    Outside(ps, box) == {}
  }

  lemma {:induction false} InsideAt(ps: seq<Point>, box: Box, i: nat)
    requires AllInside(ps, box) && i < |ps| && ps[i].mass != 0.0
    ensures Inside(ps[i].pos, box)
  {
    assert i !in Outside(ps, box);
  }

  /** The pairs of bodies with mass that have the same integer coordinates. */
  function Clashes(ps: seq<Point>, box: Box): (s: set<(int, int)>)
    requires box.size > 0.0
  {
    set i, j | 0 <= i < j < |ps| && ps[i].mass != 0.0 && ps[j].mass != 0.0
               && IntCoord(ps[i].pos, box) == IntCoord(ps[j].pos, box) :: (i, j)
  }

  /** No two bodies with mass have the same integer coordinates. */
  predicate CoordsDiffer(ps: seq<Point>, box: Box)
    requires box.size > 0.0
  {
    Clashes(ps, box) == {}
  }

  lemma {:induction false} DifferMeans(ps: seq<Point>, box: Box)
    requires box.size > 0.0
    ensures CoordsDiffer(ps, box) <==>
            forall i, j :: 0 <= i < j < |ps| && ps[i].mass != 0.0 && ps[j].mass != 0.0 ==>
              IntCoord(ps[i].pos, box) != IntCoord(ps[j].pos, box)
  {
    if CoordsDiffer(ps, box) {
      forall i, j | 0 <= i < j < |ps| && ps[i].mass != 0.0 && ps[j].mass != 0.0
        ensures IntCoord(ps[i].pos, box) != IntCoord(ps[j].pos, box)
      {
        assert (i, j) !in Clashes(ps, box);
      }
    }
  }

  lemma {:induction false} WithMassAre(ps: seq<Point>, p: Point)
    ensures p in WithMass(ps) <==> p.mass != 0.0 && p in ps
  {
    if ps != [] {
      var qs := ps[..|ps| - 1];
      WithMassAre(qs, p);
      assert p in WithMass(ps) <==> p in WithMass(qs) || (p.mass != 0.0 && p == ps[|qs|]);
    }
  }

  lemma {:induction false} DifferOneMore(ps: seq<Point>, i: nat, box: Box)
    requires box.size > 0.0 && i < |ps| && CoordsDiffer(ps[..i], box)
    ensures CoordsDiffer(ps[..i + 1], box) <==>
            ps[i].mass == 0.0 ||
            forall j :: 0 <= j < i && ps[j].mass != 0.0 ==> IntCoord(ps[j].pos, box) != IntCoord(ps[i].pos, box)
  {
    var (us, vs) := (ps[..i], ps[..i + 1]);
    assert forall j :: 0 <= j < i ==> us[j] == vs[j] == ps[j];
    assert vs[i] == ps[i];
    DifferMeans(us, box);
    DifferMeans(vs, box);
  }

  lemma {:induction false} PlacesTaken(ps: seq<Point>, box: Box, c: Coords)
    requires box.size > 0.0
    ensures Taken(ps, box, c) == {} <==>
            forall j :: 0 <= j < |ps| && ps[j].mass != 0.0 ==> IntCoord(ps[j].pos, box) != c
  {
    if Taken(ps, box, c) == {} {
      forall j | 0 <= j < |ps| && ps[j].mass != 0.0
        ensures IntCoord(ps[j].pos, box) != c
      {
        WithMassAre(ps, ps[j]);
        assert ps[j] !in Taken(ps, box, c);
      }
    } else {
      var p :| p in Taken(ps, box, c);
      WithMassAre(ps, p);
      var j :| 0 <= j < |ps| && ps[j] == p;
    }
  }

  lemma {:induction false} BoxStays(ps: seq<Point>, b: Box)
    requires b.size > 0.0 && AllInside(ps, b)
    ensures BoxAfter(ps, b) == b
  {
    if ps != [] {
      InsidePrefix(ps, b);
      BoxStays(ps[..|ps| - 1], b);
      if ps[|ps| - 1].mass != 0.0 {
        InsideAt(ps, b, |ps| - 1);
      }
    }
  }

  /** Bodies that are all in the box can be loaded exactly if no two with mass have the same integer coordinates. */
  lemma {:induction false} LoadableInBox(ps: seq<Point>, b: Box)
    requires b.size > 0.0 && AllInside(ps, b)
    ensures BoxAfter(ps, b) == b && (Loadable(ps, b) <==> CoordsDiffer(ps, b))
  {
    BoxStays(ps, b);
    if ps == [] {
      DifferMeans(ps, b);
    } else {
      var i := |ps| - 1;
      assert ps[..i + 1] == ps;
      InsidePrefix(ps, b);
      LoadableInBox(ps[..i], b);
      LoadableUnfolds(ps, i, b);
      NextInBox(ps, i, b);
    }
  }

  lemma {:induction false} NextInBox(ps: seq<Point>, i: nat, b: Box)
    requires b.size > 0.0 && AllInside(ps, b) && i < |ps|
    ensures CoordsDiffer(ps[..i + 1], b) <==>
            CoordsDiffer(ps[..i], b) &&
            (ps[i].mass == 0.0 || (Inside(ps[i].pos, b) && Taken(ps[..i], b, IntCoord(ps[i].pos, b)) == {}))
  {
    if ps[i].mass != 0.0 {
      InsideAt(ps, b, i);
    }
    PlacesTaken(ps[..i], b, IntCoord(ps[i].pos, b));
    if CoordsDiffer(ps[..i], b) {
      DifferOneMore(ps, i, b);
    } else {
      assert ps[..i + 1][..i] == ps[..i];
      DifferPrefix(ps[..i + 1], i, b);
    }
  }

  lemma {:induction false} InsidePrefix(ps: seq<Point>, box: Box)
    requires ps != [] && AllInside(ps, box)
    ensures AllInside(ps[..|ps| - 1], box)
  {
    forall i: nat | i < |ps| - 1 && ps[i].mass != 0.0
      ensures Inside(ps[i].pos, box)
    {
      InsideAt(ps, box, i);
    }
  }

  lemma {:induction false} DifferPrefix(ps: seq<Point>, i: nat, box: Box)
    requires box.size > 0.0 && i <= |ps|
    ensures CoordsDiffer(ps, box) ==> CoordsDiffer(ps[..i], box)
  {
    DifferMeans(ps, box);
    DifferMeans(ps[..i], box);
  }
}
