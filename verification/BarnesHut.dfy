/** The tree of bodies on the heap: growing the box, loading bodies, the centre-of-mass pass and the pruned walk. */
module BarnesHut {
  import opened Powers
  import opened Reals
  import opened Octree
  import opened OctreeLoading
  import opened CentreOfMass

  // ---------- The tree on the heap ----------

  ghost function Cells(t: Oct): (s: set<Node>) {
    if t.Cell? then {t.c} + CellsOf(t.subs) else {}
  }

  ghost function CellsOf(ts: seq<Oct>): (s: set<Node>) {
    set i, n | 0 <= i < |ts| && n in Cells(ts[i]) :: n
  }

  ghost function Leaves(t: Oct): (s: set<Node>) {
    match t
    case None => {}
    case Body(p) => {p.n}
    case Cell(_, subs) => LeavesOf(subs)
  }

  ghost function LeavesOf(ts: seq<Oct>): (s: set<Node>) {
    set i, n | 0 <= i < |ts| && n in Leaves(ts[i]) :: n
  }

  /** No cell occurs twice. */
  ghost predicate Unshared(t: Oct) {
    t.Cell? ==>
      && t.c.isCell && t.c !in CellsOf(t.subs)
      && (forall i :: 0 <= i < |t.subs| ==> Unshared(t.subs[i]))
      && (forall i, j :: 0 <= i < j < |t.subs| ==> Cells(t.subs[i]) !! Cells(t.subs[j]))
  }

  /** The links below q have the shape of t. */
  ghost predicate Linked(t: Oct, q: Node?)
    reads Cells(t)`subp
    decreases t
  {
    match t
    case None => q == null
    case Body(p) => q == p.n
    case Cell(c, subs) =>
      && q == c && |c.subp| == |subs| == NSUB
      && forall i :: 0 <= i < NSUB ==> assert Cells(subs[i]) <= CellsOf(subs); Linked(subs[i], c.subp[i])
  }

  /** The bodies have the masses and places that t says. */
  ghost predicate Held(t: Oct)
    reads Leaves(t)`mass, Leaves(t)`pos
    decreases t
  {
    match t
    case None => true
    case Body(p) => Holds(p)
    case Cell(_, subs) => forall i :: 0 <= i < |subs| ==> assert Leaves(subs[i]) <= LeavesOf(subs); Held(subs[i])
  }

  ghost predicate Holds(p: Point)
    reads p.n`mass, p.n`pos
  {
    !p.n.isCell && p.n.mass == p.mass && p.n.pos == p.pos
  }

  datatype Flaw = SharedCell | WrongLink | LostBody | WrongCube | EmptyCell

  /** What is wrong with the tree that hangs off q as a tree of this shape in the cube b. */
  ghost function Flaws(t: Oct, q: Node?, b: Box): (s: set<Flaw>)
    reads Cells(t)`subp, Leaves(t)`mass, Leaves(t)`pos
  {
    (if Unshared(t) then {} else {SharedCell}) + (if Linked(t, q) then {} else {WrongLink})
    + (if Held(t) then {} else {LostBody}) + (if Placed(t, b) then {} else {WrongCube})
    + if Occupied(t) then {} else {EmptyCell}
  }

  /** A tree of this shape hangs off q, with every body in its cube. */
  ghost predicate Good(t: Oct, q: Node?, b: Box)
    reads Cells(t)`subp, Leaves(t)`mass, Leaves(t)`pos
  {
    Flaws(t, q, b) == {}
  }

  lemma {:induction false} GoodMeans(t: Oct, q: Node?, b: Box)
    ensures Good(t, q, b) <==> Unshared(t) && Linked(t, q) && Held(t) && Placed(t, b) && Occupied(t)
  {
    var s := Flaws(t, q, b);
    assert SharedCell in s <==> !Unshared(t);
    assert WrongLink in s <==> !Linked(t, q);
    assert LostBody in s <==> !Held(t);
    assert WrongCube in s <==> !Placed(t, b);
    assert EmptyCell in s <==> !Occupied(t);
  }

  class BhTree {
    var rmin: Vec
    var rsize: real
    var root: Node?

    constructor (rmin: Vec, rsize: real)
      ensures this.rmin == rmin && this.rsize == rsize && root == null
    {
      this.rmin, this.rsize, root := rmin, rsize, null;
    }

    function Bounds(): (b: Box)
      reads this`rmin, this`rsize
    {
      Box(rmin, rsize)
    }
  }

  // ---------- Loading a body ----------

  lemma {:induction false} GoodPart(t: Oct, q: Node, b: Box, i: nat)
    requires Good(t, q, b) && t.Cell? && i < NSUB
    ensures t.c == q && |q.subp| == NSUB && Good(t.subs[i], q.subp[i], Octant(b, i))
    ensures q !in Cells(t.subs[i]) && Cells(t) == {q} + CellsOf(t.subs) && Cells(t.subs[i]) <= CellsOf(t.subs)
  {
    GoodMeans(t, q, b);
    GoodMeans(t.subs[i], q.subp[i], Octant(b, i));
  }

  /** A node's type tells what hangs off it. */
  lemma {:induction false} TypeTells(t: Oct, q: Node)
    requires Unshared(t) && Linked(t, q) && Held(t)
    ensures q.isCell <==> t.Cell?
    ensures t.Body? ==> t.p.n == q && Holds(t.p)
    ensures t.Cell? ==> t.c == q
  {
  }

  lemma {:induction false} GoodBody(x: Point, b: Box)
    requires Holds(x) && Inside(x.pos, b)
    ensures Good(Body(x), x.n, b) && Points(Body(x)) == multiset{x} && Cells(Body(x)) == {}
  {
    GoodMeans(Body(x), x.n, b);
  }

  lemma {:induction false} HeldReplaced(t: Oct, i: nat, u: Oct)
    requires t.Cell? && i < |t.subs| && Held(t) && Held(u)
    ensures Held(Cell(t.c, t.subs[i := u]))
  {
  }

  /** Slot i of a cell gets another tree. */
  lemma {:induction false} UnsharedReplaced(t: Oct, i: nat, u: Oct)
    requires Unshared(t) && t.Cell? && i < |t.subs| && Unshared(u) && t.c !in Cells(u)
    requires forall j :: 0 <= j < |t.subs| && j != i ==> Cells(t.subs[j]) !! Cells(u)
    ensures Unshared(Cell(t.c, t.subs[i := u]))
    ensures Cells(Cell(t.c, t.subs[i := u])) <= Cells(t) + Cells(u)
  {
    var vs := t.subs[i := u];
    forall j | 0 <= j < |vs|
      ensures Unshared(vs[j]) && t.c !in Cells(vs[j]) && Cells(vs[j]) <= CellsOf(t.subs) + Cells(u)
    {
      if j != i {
        assert vs[j] == t.subs[j];
        assert Cells(t.subs[j]) <= CellsOf(t.subs);
      }
    }
    assert t.c !in CellsOf(vs) && CellsOf(vs) <= CellsOf(t.subs) + Cells(u);
  }

  lemma {:induction false} PlacedReplaced(t: Oct, i: nat, u: Oct, b: Box, x: Point)
    requires Placed(t, b) && Occupied(t) && t.Cell? && i < NSUB && Placed(u, Octant(b, i)) && Occupied(u)
    requires Points(u) == Points(t.subs[i]) + multiset{x}
    ensures var v := Cell(t.c, t.subs[i := u]);
            Placed(v, b) && Occupied(v) && Points(v) == Points(t) + multiset{x}
  {
    var vs := t.subs[i := u];
    PointsReplaced(t.subs, i, u);
    AddedPoint(PointsOf(vs), Points(t.subs[i]), PointsOf(t.subs), x);
    assert x in PointsOf(vs);
    forall j | 0 <= j < NSUB
      ensures Placed(vs[j], Octant(b, j)) && Occupied(vs[j])
    {
    }
  }

  lemma {:induction false} AddedPoint(a: multiset<Point>, b: multiset<Point>, c: multiset<Point>, x: Point)
    requires a + b == c + (b + multiset{x})
    ensures a == c + multiset{x}
  {
    assert a == (a + b) - b;
    assert c + multiset{x} == (c + (b + multiset{x})) - b;
  }

  /** The link to the subtree is written. */
  method SetSub(q: Node, i: nat, r: Node?, ghost t: Oct, ghost u: Oct)
    requires t.Cell? && t.c == q && |t.subs| == |q.subp| == NSUB && i < NSUB && Unshared(Cell(q, t.subs[i := u]))
    requires Linked(u, r) && forall j :: 0 <= j < NSUB && j != i ==> Linked(t.subs[j], q.subp[j])
    modifies q`subp
    ensures Linked(Cell(q, t.subs[i := u]), q) && q.subp == old(q.subp)[i := r]
  {
    ghost var vs := t.subs[i := u];
    assert forall j :: 0 <= j < NSUB ==> q !in Cells(vs[j]) by {
      assert forall j :: 0 <= j < NSUB ==> Cells(vs[j]) <= CellsOf(vs);
    }
    assert forall j :: 0 <= j < NSUB ==> Linked(vs[j], if j == i then r else q.subp[j]);
    q.subp := q.subp[i := r];
  }

  /** A cell takes over a subtree with one more body. */
  method Attach(q: Node, i: nat, r: Node?, ghost t: Oct, ghost w: Oct, ghost x: Point, ghost b: Box,
                ghost news: set<Node>) returns (ghost u: Oct)
    requires t.Cell? && t.c == q && |t.subs| == |q.subp| == NSUB && i < NSUB && Unshared(t) && Unshared(w)
    requires Cells(w) <= Cells(t.subs[i]) + news && news !! Cells(t) && Held(t) && Held(w)
    requires Placed(t, b) && Occupied(t) && Placed(w, Octant(b, i)) && Occupied(w)
    requires Points(w) == Points(t.subs[i]) + multiset{x}
    requires Linked(w, r) && forall j :: 0 <= j < NSUB && j != i ==> Linked(t.subs[j], q.subp[j])
    modifies q`subp
    ensures Good(u, q, b) && Points(u) == Points(t) + multiset{x} && Cells(u) <= Cells(t) + news
    ensures u == Cell(q, t.subs[i := w])
  {
    u := Cell(q, t.subs[i := w]);
    OthersApart(t, i, w, news);
    assert Cells(t.subs[i]) <= CellsOf(t.subs);
    UnsharedReplaced(t, i, w);
    PlacedReplaced(t, i, w, b, x);
    HeldReplaced(t, i, w);
    assert allocated(Leaves(u));
    SetSub(q, i, r, t, w);
    GoodMeans(u, q, b);
  }

  function SubIndexOf(p: Vec, b: Box, l: nat): (i: nat)
    requires b.size > 0.0 && l > 0
    ensures i < NSUB
  {
    SubIndex(IntCoord(p, b), l)
  }

  /**
   A body goes in below a slot of the tree.  The bits run out exactly if a body with the same integer coordinates is
   there already.  New cells stand only where two bodies meet.
   */
  method LoadTree(p: Node, xpic: Coords, t: Node?, l: nat, tr: BhTree, ghost s: Oct, ghost x: Point,
                  ghost path: seq<nat>)
    returns (ok: bool, r: Node?, ghost u: Oct, ghost news: set<Node>)
    requires tr.rsize > 0.0 && |path| <= BITS && l == Level(|path|)
    requires Good(s, t, Cube(tr.Bounds(), path)) && Holds(x) && x.n == p
    requires Inside(x.pos, Cube(tr.Bounds(), path)) && xpic == IntCoord(x.pos, tr.Bounds())
    modifies Cells(s)`subp
    ensures ok <==> Free(s, tr.Bounds(), xpic)
    ensures ok ==> Good(u, r, Cube(tr.Bounds(), path)) && Points(u) == Points(s) + multiset{x}
    ensures ok ==> u != None && fresh(news) && Cells(u) <= Cells(s) + news && Spare(u) <= Spare(s)
    decreases BITS - |path|, 2
  {
    GoodMeans(s, t, Cube(tr.Bounds(), path));
    if t == null {
      GoodBody(x, Cube(tr.Bounds(), path));
      FreeMeans(s, tr.Bounds(), xpic);
      assert Points(s) + multiset{x} == multiset{x};
      return true, p, Body(x), {};
    }
    if l == 0 {
      ghost var y := NoBitsLeft(s, tr.Bounds(), path, x.pos);
      FreeMeans(s, tr.Bounds(), xpic);
      return false, null, None, {};
    }
    TypeTells(s, t);
    if t.isCell {
      r := t;
      ok, u, news := LoadCell(p, xpic, t, l, tr, s, x, path);
    } else {
      ok, r, u, news := LoadBeside(p, xpic, t, l, tr, s, x, path);
    }
  }

  /** A body meets another one: a new cell takes both. */
  method LoadBeside(p: Node, xpic: Coords, t: Node, l: nat, tr: BhTree, ghost s: Oct, ghost x: Point,
                    ghost path: seq<nat>)
    returns (ok: bool, r: Node?, ghost u: Oct, ghost news: set<Node>)
    requires tr.rsize > 0.0 && |path| < BITS && l == Level(|path|) && s.Body?
    requires Good(s, t, Cube(tr.Bounds(), path)) && Holds(x) && x.n == p
    requires Inside(x.pos, Cube(tr.Bounds(), path)) && xpic == IntCoord(x.pos, tr.Bounds())
    ensures ok <==> Free(s, tr.Bounds(), xpic)
    ensures ok ==> Good(u, r, Cube(tr.Bounds(), path)) && Points(u) == Points(s) + multiset{x}
    ensures ok ==> u != None && fresh(news) && Cells(u) <= news && Spare(u) == 0
    decreases BITS - |path|, 1
  {
    var c;
    ghost var v;
    c, v := NewCell(t, l, tr, s, path);
    FreeMeans(s, tr.Bounds(), xpic);
    FreeMeans(v, tr.Bounds(), xpic);
    r := c;
    ok, u, news := LoadCell(p, xpic, c, l, tr, v, x, path);
    news := news + {c};
  }

  /** A body in the way gets a cell of its own. */
  method NewCell(t: Node, l: nat, tr: BhTree, ghost s: Oct, ghost path: seq<nat>) returns (c: Node, ghost v: Oct)
    requires tr.rsize > 0.0 && |path| < BITS && l == Level(|path|) && Good(s, t, Cube(tr.Bounds(), path)) && s.Body?
    ensures fresh(c) && Good(v, c, Cube(tr.Bounds(), path)) && v.Cell? && Points(v) == Points(s) && Cells(v) == {c}
    ensures Spare(v) <= 1
  {
    GoodMeans(s, t, Cube(tr.Bounds(), path));
    TypeTells(s, t);
    c := new Node(true, 0.0, Vec(0.0, 0.0, 0.0));
    var si := SubIndexOf(t.pos, tr.Bounds(), l);
    BitsChooseOctant(t.pos, tr.Bounds(), path);
    AloneInCell(c, s, si, Cube(tr.Bounds(), path));
    v := Cell(c, Nones()[si := s]);
    AloneUnshared(c, s, si);
    SpareAlone(c, s, si);
    Fill(c, si, t, s);
    GoodMeans(v, c, Cube(tr.Bounds(), path));
  }

  lemma {:induction false} OthersApart(t: Oct, i: nat, u: Oct, news: set<Node>)
    requires Unshared(t) && t.Cell? && i < |t.subs| && Cells(u) <= Cells(t.subs[i]) + news && news !! Cells(t)
    ensures t.c !in Cells(u)
    ensures forall j :: 0 <= j < |t.subs| && j != i ==> Cells(t.subs[j]) !! Cells(u)
  {
    forall j | 0 <= j < |t.subs|
      ensures Cells(t.subs[j]) <= CellsOf(t.subs)
    {
    }
  }

  /** Loading into a slot of a cell leaves its other slots alone. */
  method LoadSlot(p: Node, xpic: Coords, t: Node, l: nat, si: nat, tr: BhTree, ghost s: Oct, ghost x: Point,
                  ghost path: seq<nat>) returns (ok: bool, r: Node?, ghost u: Oct, ghost news: set<Node>)
    requires tr.rsize > 0.0 && |path| <= BITS && l == Level(|path|)
    requires s.Cell? && |s.subs| == NSUB && si < NSUB && Unshared(s) && Linked(s, t) && Held(s)
    requires Good(s.subs[si], t.subp[si], Cube(tr.Bounds(), path)) && Holds(x) && x.n == p
    requires Inside(x.pos, Cube(tr.Bounds(), path)) && xpic == IntCoord(x.pos, tr.Bounds())
    modifies Cells(s.subs[si])`subp
    ensures ok <==> Free(s.subs[si], tr.Bounds(), xpic)
    ensures ok ==> Good(u, r, Cube(tr.Bounds(), path)) && Points(u) == Points(s.subs[si]) + multiset{x}
    ensures ok ==> fresh(news) && news !! Cells(s) && Cells(u) <= Cells(s.subs[si]) + news
    ensures ok ==> Spare(u) <= Spare(s.subs[si])
    ensures t.subp == old(t.subp) && forall j :: 0 <= j < NSUB && j != si ==> Linked(s.subs[j], t.subp[j])
    decreases BITS - |path|, 3
  {
    ghost var before := Cells(s);
    assert allocated(before);
    assert Cells(s.subs[si]) <= CellsOf(s.subs);
    ok, r, u, news := LoadTree(p, xpic, t.subp[si], l, tr, s.subs[si], x, path);
    forall j | 0 <= j < NSUB && j != si
      ensures Linked(s.subs[j], t.subp[j])
    {
      assert Cells(s.subs[j]) !! Cells(s.subs[si]);
      assert Cells(s.subs[j]) <= CellsOf(s.subs);
      assert old(Linked(s.subs[j], t.subp[j]));
    }
  }

  /** The slot that the bits choose is the one for the body, and the only one where its coordinates may be taken. */
  lemma {:induction false} SlotFor(t: Oct, q: Node, box: Box, path: seq<nat>, x: Point) returns (i: nat)
    requires box.size > 0.0 && |path| < BITS && t.Cell? && Good(t, q, Cube(box, path)) && Inside(x.pos, Cube(box, path))
    ensures Level(|path|) > 0 && i == SubIndex(IntCoord(x.pos, box), Level(|path|))
    ensures Level(|path|) / 2 == Level(|path + [i]|) && |path + [i]| == |path| + 1
    ensures Free(t, box, IntCoord(x.pos, box)) <==> Free(t.subs[i], box, IntCoord(x.pos, box))
    ensures t.c == q && |q.subp| == |t.subs| == NSUB && Good(t.subs[i], q.subp[i], Cube(box, path + [i]))
    ensures Cube(box, path + [i]) == Octant(Cube(box, path), i) && Inside(x.pos, Cube(box, path + [i]))
    ensures Cells(t.subs[i]) <= Cells(t)
  {
    i := SubIndex(IntCoord(x.pos, box), Level(|path|));
    GoodMeans(t, q, Cube(box, path));
    SameCoordsSameOctant(t, box, path, x.pos);
    FreeMeans(t, box, IntCoord(x.pos, box));
    FreeMeans(t.subs[i], box, IntCoord(x.pos, box));
    BitsChooseOctant(x.pos, box, path);
    assert (path + [i])[..|path|] == path;
    GoodPart(t, q, Cube(box, path), i);
  }

  /** The body goes in below a cell, into the octant that its coordinates choose. */
  method LoadCell(p: Node, xpic: Coords, t: Node, l: nat, tr: BhTree, ghost s: Oct, ghost x: Point,
                  ghost path: seq<nat>)
    returns (ok: bool, ghost u: Oct, ghost news: set<Node>)
    requires tr.rsize > 0.0 && |path| < BITS && l == Level(|path|) && s.Cell?
    requires Good(s, t, Cube(tr.Bounds(), path)) && Holds(x) && x.n == p
    requires Inside(x.pos, Cube(tr.Bounds(), path)) && xpic == IntCoord(x.pos, tr.Bounds())
    modifies Cells(s)`subp
    ensures ok <==> Free(s, tr.Bounds(), xpic)
    ensures ok ==> Good(u, t, Cube(tr.Bounds(), path)) && Points(u) == Points(s) + multiset{x}
    ensures ok ==> u != None && fresh(news) && Cells(u) <= Cells(s) + news
    ensures ok ==> Spare(u) <= Spare(s) && (|Points(s)| == 1 ==> Spare(u) < Spare(s))
    decreases BITS - |path|, 0
  {
    ghost var slot := SlotFor(s, t, tr.Bounds(), path, x);
    GoodMeans(s, t, Cube(tr.Bounds(), path));
    assert allocated(Leaves(s));
    var si := SubIndex(xpic, l);
    var r;
    ghost var w;
    u := s;
    ok, r, w, news := LoadSlot(p, xpic, t, l / 2, si, tr, s, x, path + [si]);
    if ok {
      GoodMeans(w, r, Cube(tr.Bounds(), path + [si]));
      SpareLess(s, si, w, x);
      u := Attach(t, si, r, s, w, x, Cube(tr.Bounds(), path), news);
    }
  }

  // ---------- Growing the box ----------

  predicate InUnit(xsc: real) {
    0.0 <= xsc < 1.0
  }

  /** The test whether a place is in the box. */
  predicate IcTest(p: Vec, b: Box)
    requires b.size > 0.0
    ensures IcTest(p, b) == Inside(p, b)
  {
    UnitInterval(p.x - b.lo.x, b.size);
    UnitInterval(p.y - b.lo.y, b.size);
    UnitInterval(p.z - b.lo.z, b.size);
    InUnit((p.x - b.lo.x) / b.size) && InUnit((p.y - b.lo.y) / b.size) && InUnit((p.z - b.lo.z) / b.size)
  }

  /** The box doubles. */
  method DoubleBox(p: Node, t: BhTree) returns (rmid: Vec)
    modifies t`rmin, t`rsize
    ensures t.Bounds() == Grown(old(t.Bounds()), p.pos) && rmid == Middle(old(t.Bounds()))
  {
    var rsize := t.rsize;
    rmid := Vec(t.rmin.x + 0.5 * rsize, t.rmin.y + 0.5 * rsize, t.rmin.z + 0.5 * rsize);
    if p.pos.x < rmid.x {
      t.rmin := t.rmin.(x := t.rmin.x - rsize);
    }
    if p.pos.y < rmid.y {
      t.rmin := t.rmin.(y := t.rmin.y - rsize);
    }
    if p.pos.z < rmid.z {
      t.rmin := t.rmin.(z := t.rmin.z - rsize);
    }
    t.rsize := 2.0 * rsize;
  }

  /** A new cell gets its one subtree. */
  method Fill(c: Node, k: nat, r: Node?, ghost s: Oct)
    requires k < NSUB && c.subp == Nulls() && Linked(s, r) && c !in Cells(s)
    modifies c`subp
    ensures Linked(Cell(c, Nones()[k := s]), c)
  {
    ghost var vs := Nones()[k := s];
    assert forall j :: 0 <= j < NSUB ==> c !in Cells(vs[j]);
    c.subp := c.subp[k := r];
  }

  /** The old tree becomes one octant of a new root. */
  method Repot(t: BhTree, k: nat, ghost s: Oct) returns (ghost u: Oct, ghost news: set<Node>)
    requires k < NSUB && s != None && Good(s, t.root, Octant(t.Bounds(), k))
    modifies t`root
    ensures Good(u, t.root, t.Bounds()) && Points(u) == Points(s) && u != None
    ensures fresh(news) && Cells(u) <= Cells(s) + news && u.Cell? && u.subs == Nones()[k := s]
  {
    assert allocated(Cells(s)) && allocated(Leaves(s));
    var newt := new Node(true, 0.0, Vec(0.0, 0.0, 0.0));
    assert Good(s, t.root, Octant(t.Bounds(), k));
    GoodMeans(s, t.root, Octant(t.Bounds(), k));
    AloneInCell(newt, s, k, t.Bounds());
    u := Cell(newt, Nones()[k := s]);
    AloneUnshared(newt, s, k);
    news := {newt};
    Fill(newt, k, t.root, s);
    t.root := newt;
    GoodMeans(u, newt, t.Bounds());
  }

  lemma {:induction false} AloneUnshared(c: Node, s: Oct, k: nat)
    requires k < NSUB && c.isCell && Unshared(s) && c !in Cells(s)
    ensures Unshared(Cell(c, Nones()[k := s])) && Cells(Cell(c, Nones()[k := s])) == {c} + Cells(s)
  {
    var vs := Nones()[k := s];
    assert forall j :: 0 <= j < NSUB ==> Cells(vs[j]) == if j == k then Cells(s) else {};
    forall n | n in Cells(s)
      ensures n in CellsOf(vs)
    {
      assert n in Cells(vs[k]);
    }
    assert CellsOf(vs) == Cells(s);
    assert forall j :: 0 <= j < NSUB ==> Unshared(vs[j]);
    assert forall i, j :: 0 <= i < j < NSUB ==> Cells(vs[i]) !! Cells(vs[j]);
  }

  lemma {:induction false} NoTree(t: Oct, q: Node?, b: Box)
    requires Good(t, q, b)
    ensures t == None <==> q == null
    ensures t == None ==> forall c {:trigger Good(t, q, c)} :: Good(t, q, c)
  {
    GoodMeans(t, q, b);
    forall c | t == None
      ensures Good(t, q, c)
    {
      GoodMeans(t, q, c);
    }
  }

  /** One round of the growing; the test is made anew only if there is a tree. */
  method GrowOnce(p: Node, t: BhTree, ghost s: Oct) returns (inbox: bool, ghost u: Oct, ghost news: set<Node>)
    requires t.rsize > 0.0 && Good(s, t.root, t.Bounds())
    modifies t
    ensures t.Bounds() == Grown(old(t.Bounds()), p.pos) && t.rsize == 2.0 * old(t.rsize)
    ensures DoublesToward(t.Bounds(), old(t.Bounds()), p.pos)
    ensures Good(u, t.root, t.Bounds()) && Outgrown(s, u, news, 1) && fresh(news)
    ensures inbox == (s != None && Inside(p.pos, t.Bounds()))
  {
    NoTree(s, t.root, t.Bounds());
    GrowsToward(t.Bounds(), p.pos);
    ghost var old_k := OldOctant(t.Bounds(), p.pos);
    assert allocated(Cells(s)) && allocated(Leaves(s));
    u, inbox, news := s, false, {};
    var rmid := DoubleBox(p, t);
    if t.root != null {
      var k := SubIndex(IntCoord(rmid, t.Bounds()), IMAX / 2);
      assert k == old_k && Good(s, t.root, Octant(t.Bounds(), k));
      u, news := Repot(t, k, s);
      OneCellMore(s, u, k);
      inbox := IcTest(p.pos, t.Bounds());
    }
    OutgrownMeans(s, u, news, 1);
  }

  lemma {:induction false} OneCellMore(s: Oct, u: Oct, k: nat)
    requires k < NSUB && u.Cell? && u.subs == Nones()[k := s]
    ensures Spare(u) <= Spare(s) + 1
  {
    SpareAlone(u.c, s, k);
  }

  /** What n doublings with the cells news have spoilt in the tree s. */
  ghost function Spoilt(s: Oct, u: Oct, news: set<Node>, n: nat): (f: set<Flaw>) {
    (if Points(u) == Points(s) && (u == None <==> s == None) then {} else {LostBody})
    + (if Cells(u) <= Cells(s) + news then {} else {SharedCell}) + if Spare(u) <= Spare(s) + n then {} else {EmptyCell}
  }

  ghost predicate Outgrown(s: Oct, u: Oct, news: set<Node>, n: nat) {
    Spoilt(s, u, news, n) == {}
  }

  lemma {:induction false} OutgrownMeans(s: Oct, u: Oct, news: set<Node>, n: nat)
    ensures Outgrown(s, u, news, n) <==> && Points(u) == Points(s) && (u == None <==> s == None)
                                         && Cells(u) <= Cells(s) + news && Spare(u) <= Spare(s) + n
  {
    var f := Spoilt(s, u, news, n);
    assert LostBody in f <==> !(Points(u) == Points(s) && (u == None <==> s == None));
    assert SharedCell in f <==> !(Cells(u) <= Cells(s) + news);
    assert EmptyCell in f <==> !(Spare(u) <= Spare(s) + n);
  }

  lemma {:induction false} OutgrownOn(s: Oct, u: Oct, news: set<Node>, n: nat, v: Oct, more: set<Node>)
    requires Outgrown(s, u, news, n) && Outgrown(u, v, more, 1)
    ensures Outgrown(s, v, news + more, n + 1)
  {
    OutgrownMeans(s, u, news, n);
    OutgrownMeans(u, v, more, 1);
    OutgrownMeans(s, v, news + more, n + 1);
  }

  /** One turn of the loop, with where it stands afterwards. */
  method GrowTurn(p: Node, t: BhTree, ghost s: Oct, ghost u: Oct, ghost a: Box, ghost news: set<Node>, ghost n: nat,
                  ghost left: nat)
    returns (inbox: bool, ghost v: Oct, ghost all: set<Node>)
    requires Good(u, t.root, t.Bounds()) && Outgrown(s, u, news, n) && t.Bounds() in Stages(s, a, p.pos, false, left)
    requires t.rsize < 1000.0
    modifies t
    ensures Good(v, t.root, t.Bounds()) && Outgrown(s, v, all, n + 1) && fresh(all - news) && left > 0
    ensures t.Bounds() in Stages(s, a, p.pos, inbox, left - 1) && t.rsize == 2.0 * old(t.rsize)
  {
    GrowsOn(s, a, t.Bounds(), p.pos, left);
    OutgrownMeans(s, u, news, n);
    inbox, v, all := GrowOnce(p, t, u);
    OutgrownOn(s, u, news, n, v, all);
    all := news + all;
  }

  /**
   The box grows until it holds the body.  That ends well exactly if the body is in the box at once, or there is a tree
   already and the body is within reach of the doublings allowed; without a tree the loop never looks again.  One cell
   is added for each doubling.
   */
  method ExpandBox(p: Node, t: BhTree, ghost s: Oct)
    returns (ok: bool, ghost u: Oct, ghost news: set<Node>, ghost n: nat)
    requires t.rsize > 0.0 && Good(s, t.root, t.Bounds())
    modifies t
    ensures ok <==> if s == None then old(Inside(p.pos, t.Bounds()))
                    else old(Reachable(p.pos, t.Bounds()))
    ensures ok ==> t.rsize > 0.0 && Inside(p.pos, t.Bounds()) && Good(u, t.root, t.Bounds())
    ensures Points(u) == Points(s) && (u == None <==> s == None) && fresh(news) && Cells(u) <= Cells(s) + news
    ensures ok ==> t.Bounds() == NewBox(s, old(t.Bounds()), p.pos)
    ensures ok ==> exists boxes :: Growth(boxes, old(t.Bounds()), t.Bounds(), p.pos)
    ensures ok ==> Spare(u) <= Spare(s) + n && t.rsize == Doubled(old(t.rsize), n)
  {
    ghost var (a, q) := (t.Bounds(), p.pos);
    u, news, n := s, {}, 0;
    OutgrownMeans(s, s, {}, 0);
    var inbox := IcTest(p.pos, t.Bounds());
    ghost var left := GrowingStarts(s, a, q);
    while !inbox
      invariant Good(u, t.root, t.Bounds()) && Outgrown(s, u, news, n) && fresh(news)
      invariant t.Bounds() in Stages(s, a, q, inbox, left) && t.rsize == Doubled(a.size, n)
      decreases left
    {
      if !(t.rsize < 1000.0) {
        ghost var none := GrowingEnds(s, a, t.Bounds(), q, false, left);
        OutgrownMeans(s, u, news, n);
        return false, u, news, n;
      }
      inbox, u, news := GrowTurn(p, t, s, u, a, news, n, left);
      n, left := n + 1, left - 1;
    }
    OutgrownMeans(s, u, news, n);
    ghost var boxes := GrowingEnds(s, a, t.Bounds(), q, true, left);
    return true, u, news, n;
  }

  // ---------- The centre-of-mass pass ----------

  /**
   What a node holds after the pass: the mass below it and, when no cell below it weighs nothing, so that nothing is
   divided by 0, the centre of mass.
   */
  ghost predicate Weighs(q: Node, t: Oct)
    reads q`mass, q`pos
  {
    q.mass == TotalMass(t) && (Weighable(t) ==> Mul(q.pos, q.mass) == Moment(t))
  }

  ghost predicate Weighed(t: Oct)
    reads Cells(t)`mass, Cells(t)`pos
    decreases t
  {
    t.Cell? ==>
      Weighs(t.c, t) && forall i :: 0 <= i < |t.subs| ==> assert Cells(t.subs[i]) <= CellsOf(t.subs); Weighed(t.subs[i])
  }

  ghost predicate AllWeighed(ts: seq<Oct>)
    reads CellsOf(ts)`mass, CellsOf(ts)`pos
  {
    forall i :: 0 <= i < |ts| ==> assert Cells(ts[i]) <= CellsOf(ts); Weighed(ts[i])
  }

  lemma {:induction false} CellsAreCells(t: Oct)
    requires Unshared(t)
    ensures forall n :: n in Cells(t) ==> n.isCell
  {
    if t.Cell? {
      forall i | 0 <= i < |t.subs|
        ensures forall n :: n in Cells(t.subs[i]) ==> n.isCell
      {
        CellsAreCells(t.subs[i]);
      }
    }
  }

  lemma {:induction false} LeavesAreBodies(t: Oct)
    requires Held(t)
    ensures forall n :: n in Leaves(t) ==> !n.isCell
  {
    if t.Cell? {
      forall i | 0 <= i < |t.subs|
        ensures forall n :: n in Leaves(t.subs[i]) ==> !n.isCell
      {
        LeavesAreBodies(t.subs[i]);
      }
    }
  }

  lemma {:induction false} BodiesAreNoCells(t: Oct)
    requires Unshared(t) && Held(t)
    ensures Cells(t) !! Leaves(t)
  {
    CellsAreCells(t);
    LeavesAreBodies(t);
  }

  /** Every cell gets the mass and the centre of mass of the bodies below it. */
  method HackCofM(q: Node, ghost t: Oct, ghost b: Box) returns (mq: real)
    requires Good(t, q, b)
    modifies Cells(t)`mass, Cells(t)`pos
    ensures Good(t, q, b) && Weighed(t) && Weighs(q, t) && mq == TotalMass(t)
    decreases t, 3
  {
    GoodMeans(t, q, b);
    BodiesAreNoCells(t);
    TypeTells(t, q);
    if !q.isCell {
      return q.mass;
    }
    var tmpPos;
    mq, tmpPos := SumSubs(q, t, b);
    q.mass := mq;
    if q.mass != 0.0 {
      q.pos := Div(tmpPos, q.mass);
    }
  }

  /** With positive masses, what the pass writes as the centre of a tree lies in its cube. */
  lemma {:induction false} WeighedInside(q: Node, t: Oct, b: Box)
    requires Good(t, q, b) && Weighs(q, t) && Massive(t) && b.size > 0.0
    ensures Inside(q.pos, b)
  {
    GoodMeans(t, q, b);
    MassiveWeighable(t);
    var p := SomePoint(t);
    CentreInside(t, b, q.pos);
  }

  lemma {:induction false} EarlierApart(t: Oct, i: nat)
    requires Unshared(t) && t.Cell? && i < |t.subs|
    ensures CellsOf(t.subs[..i]) !! Cells(t.subs[i]) && CellsOf(t.subs[..i]) <= CellsOf(t.subs)
  {
    forall j | 0 <= j < i
      ensures Cells(t.subs[..i][j]) !! Cells(t.subs[i])
    {
    }
  }

  /** The pass on one subtree of a cell does not disturb the others. */
  method WeighSub(r: Node, q: Node, i: nat, ghost t: Oct, ghost b: Box) returns (mr: real, tmpv: Vec)
    requires Good(t, q, b) && t.Cell? && i < NSUB
    requires |q.subp| == |t.subs| == NSUB && r == q.subp[i] && AllWeighed(t.subs[..i])
    modifies Cells(t.subs[i])`mass, Cells(t.subs[i])`pos
    ensures Good(t, q, b) && AllWeighed(t.subs[..i + 1]) && mr == TotalMass(t.subs[i])
    ensures Weighable(t.subs[i]) ==> tmpv == Moment(t.subs[i])
    decreases t, 0
  {
    GoodPart(t, q, b, i);
    GoodMeans(t, q, b);
    EarlierApart(t, i);
    BodiesAreNoCells(t);
    assert allocated(Cells(t)) && allocated(Leaves(t)) && allocated(CellsOf(t.subs[..i]));
    mr := HackCofM(r, t.subs[i], Octant(b, i));
    tmpv := Mul(r.pos, mr);
    assert AllWeighed(t.subs[..i]);
    assert t.subs[..i + 1] == t.subs[..i] + [t.subs[i]];
  }

  lemma {:induction false} WeighedNone(ts: seq<Oct>, i: nat)
    requires i < |ts| && ts[i] == None && AllWeighed(ts[..i])
    ensures AllWeighed(ts[..i + 1])
  {
  }

  /** What the loop has summed up before slot i. */
  ghost predicate Summed(ts: seq<Oct>, i: nat, mq: real, tmpPos: Vec)
    requires i <= |ts|
  {
    mq == MassOf(ts[..i]) && (AllWeighable(ts[..i]) ==> tmpPos == MomentOf(ts[..i]))
  }

  /** One slot of a cell. */
  method SumSub(q: Node, i: nat, mass: real, moment: Vec, ghost t: Oct, ghost b: Box) returns (mq: real, tmpPos: Vec)
    requires Good(t, q, b) && t.Cell? && i < |t.subs| == NSUB && AllWeighed(t.subs[..i])
    requires Summed(t.subs, i, mass, moment)
    modifies Cells(t.subs[i])`mass, Cells(t.subs[i])`pos
    ensures Good(t, q, b) && AllWeighed(t.subs[..i + 1]) && Summed(t.subs, i + 1, mq, tmpPos)
    decreases t, 1
  {
    GoodPart(t, q, b, i);
    mq, tmpPos := mass, moment;
    var r := q.subp[i];
    NoTree(t.subs[i], r, Octant(b, i));
    if r != null {
      var mr, tmpv := WeighSub(r, q, i, t, b);
      SumsNext(t.subs, i, mass, moment, mr, tmpv);
      mq := mr + mq;
      tmpPos := Add(tmpPos, tmpv);
    } else {
      WeighedNone(t.subs, i);
      SumsNext(t.subs, i, mass, moment, 0.0, Vec(0.0, 0.0, 0.0));
    }
  }

  /** The loop over the subtrees of a cell. */
  method SumSubs(q: Node, ghost t: Oct, ghost b: Box) returns (mq: real, tmpPos: Vec)
    requires Good(t, q, b) && t.Cell?
    modifies CellsOf(t.subs)`mass, CellsOf(t.subs)`pos
    ensures Good(t, q, b) && AllWeighed(t.subs) && mq == TotalMass(t)
    ensures Weighable(t) ==> tmpPos == Moment(t)
    decreases t, 2
  {
    mq, tmpPos := 0.0, Vec(0.0, 0.0, 0.0);
    GoodMeans(t, q, b);
    assert t.subs[..0] == [];
    for i := 0 to NSUB
      invariant Good(t, q, b) && |t.subs| == NSUB && AllWeighed(t.subs[..i]) && Summed(t.subs, i, mq, tmpPos)
    {
      assert Cells(t.subs[i]) <= CellsOf(t.subs);
      mq, tmpPos := SumSub(q, i, mq, tmpPos, t, b);
    }
    assert t.subs[..NSUB] == t.subs;
  }

  lemma {:induction false} SumsNext(ts: seq<Oct>, i: nat, mq: real, tmpPos: Vec, mr: real, tmpv: Vec)
    requires i < |ts| && Summed(ts, i, mq, tmpPos) && mr == TotalMass(ts[i])
    requires Weighable(ts[i]) ==> tmpv == Moment(ts[i])
    ensures Summed(ts, i + 1, mr + mq, Add(tmpPos, tmpv))
  {
    var us := ts[..i + 1];
    assert us[..i] == ts[..i] && us[i] == ts[i];
    assert forall j :: 0 <= j < i ==> ts[..i][j] == us[j];
  }

  // ---------- The walk ----------

  /** What the walk carries; of the interactions only with which nodes they are. */
  datatype Hg = Hg(pskip: Node, pos0: Vec, accepted: seq<Node>)

  function DotSelf(v: Vec): (d: real) {
    v.x * v.x + v.y * v.y + v.z * v.z
  }

  /** Should the node be opened? */
  predicate SubDivP(p: Node, dsq: real, tolsq: real, hg: Hg)
    reads p
  {
    p.isCell && tolsq * DotSelf(Add(p.pos, Mul(hg.pos0, -1.0))) < dsq
  }

  function Repeated(m: real, k: nat): (r: real) {
    if k == 0 then 0.0 else Repeated(m, k - 1) + m
  }

  /** The trees hang off these nodes, and none is the body left out. */
  ghost predicate Tops(parts: seq<Oct>, nodes: seq<Node>, skip: Node) {
    |parts| == |nodes| && forall i :: 0 <= i < |parts| ==>
      (parts[i].Cell? && parts[i].c == nodes[i]) || (parts[i].Body? && parts[i].p.n == nodes[i] && nodes[i] != skip)
  }

  /** The bodies of which ts has not just as many as the parts, or k more if they are the one left out. */
  ghost function Miscounted(ts: seq<Oct>, parts: seq<Oct>, z: Point, k: nat): (s: set<Point>) {
    var (m, n) := (PointsOf(ts), PointsOf(parts));
    set p | p in m + n + multiset{z} && m[p] != n[p] + if p == z then k else 0
  }

  /** The parts are all of the trees ts but k times the body left out, in bodies and in mass. */
  ghost predicate Covers(ts: seq<Oct>, parts: seq<Oct>, z: Point, k: nat) {
    Miscounted(ts, parts, z, k) == {} && MassOf(ts) == MassOf(parts) + Repeated(z.mass, k)
  }

  lemma {:induction false} CoversCount(ts: seq<Oct>, parts: seq<Oct>, z: Point, k: nat, p: Point)
    requires Covers(ts, parts, z, k)
    ensures PointsOf(ts)[p] == PointsOf(parts)[p] + if p == z then k else 0
  {
    assert p !in Miscounted(ts, parts, z, k);
  }

  lemma {:induction false} SumsJoin(a: seq<Oct>, b: seq<Oct>)
    ensures PointsOf(a + b) == PointsOf(a) + PointsOf(b) && MassOf(a + b) == MassOf(a) + MassOf(b)
  {
    if b == [] {
      assert a + b == a;
    } else {
      assert (a + b)[..|a + b| - 1] == a + b[..|b| - 1];
      SumsJoin(a, b[..|b| - 1]);
    }
  }

  lemma {:induction false} CoversJoin(ts: seq<Oct>, a: seq<Oct>, j: nat, us: seq<Oct>, b: seq<Oct>, k: nat, z: Point)
    requires Covers(ts, a, z, j) && Covers(us, b, z, k)
    ensures Covers(ts + us, a + b, z, j + k)
  {
    SumsJoin(ts, us);
    SumsJoin(a, b);
    JoinMasses(z.mass, j, k);
    forall p
      ensures PointsOf(ts + us)[p] == PointsOf(a + b)[p] + if p == z then j + k else 0
    {
      CoversCount(ts, a, z, j, p);
      CoversCount(us, b, z, k, p);
    }
    assert Miscounted(ts + us, a + b, z, j + k) == {};
  }

  lemma {:induction false} JoinMasses(m: real, j: nat, k: nat)
    ensures Repeated(m, j + k) == Repeated(m, j) + Repeated(m, k)
  {
    if k > 0 {
      JoinMasses(m, j, k - 1);
    }
  }

  lemma {:induction false} SumsOne(t: Oct)
    ensures PointsOf([t]) == Points(t) && MassOf([t]) == TotalMass(t)
  {
    assert [t][..0] == [];
    assert PointsOf([]) + Points(t) == Points(t);
  }

  lemma {:induction false} CoversItself(ts: seq<Oct>, z: Point)
    ensures Covers(ts, ts, z, 0) && Covers([], [], z, 0) && Covers([None], [], z, 0)
  {
    assert Miscounted(ts, ts, z, 0) == {} && Miscounted([], [], z, 0) == {};
    SumsOne(None);
    assert Miscounted([None], [], z, 0) == {};
  }

  lemma {:induction false} CoversSkipped(z: Point)
    ensures Covers([Body(z)], [], z, 1)
  {
    SumsOne(Body(z));
    assert Miscounted([Body(z)], [], z, 1) == {};
    assert Repeated(z.mass, 1) == z.mass;
  }

  lemma {:induction false} CoversCell(t: Oct, parts: seq<Oct>, z: Point, k: nat)
    requires t.Cell? && Covers(t.subs, parts, z, k)
    ensures Covers([t], parts, z, k)
  {
    SumsOne(t);
    assert Miscounted([t], parts, z, k) == Miscounted(t.subs, parts, z, k);
  }

  /** Is u t itself or a tree below it? */
  ghost predicate Below(u: Oct, t: Oct) {
    u == t || (t.Cell? && exists i :: 0 <= i < |t.subs| && Below(u, t.subs[i]))
  }

  ghost function Strays(parts: seq<Oct>, t: Oct): (s: set<int>) {
    set i | 0 <= i < |parts| && !Below(parts[i], t)
  }

  /** All parts are trees within t. */
  ghost predicate Within(parts: seq<Oct>, t: Oct) {
    Strays(parts, t) == {}
  }

  lemma {:induction false} WithinJoin(a: seq<Oct>, b: seq<Oct>, t: Oct)
    requires Within(a, t) && Within(b, t)
    ensures Within(a + b, t)
  {
    forall i | 0 <= i < |a + b|
      ensures Below((a + b)[i], t)
    {
      if i < |a| {
        assert i !in Strays(a, t);
      } else {
        assert i - |a| !in Strays(b, t);
      }
    }
    assert Strays(a + b, t) == {};
  }

  lemma {:induction false} WithinUp(a: seq<Oct>, t: Oct, i: nat)
    requires t.Cell? && i < |t.subs| && Within(a, t.subs[i])
    ensures Within(a, t)
  {
    forall j | 0 <= j < |a|
      ensures Below(a[j], t)
    {
      assert j !in Strays(a, t.subs[i]);
    }
    assert Strays(a, t) == {};
  }

  lemma {:induction false} WithinItself(t: Oct)
    ensures Within([t], t) && Within([], t)
  {
    assert Strays([t], t) == {} && Strays([], t) == {};
  }

  /** From h to r the walk has accepted the tops of these trees, all of them within t. */
  ghost predicate Accepts(h: Hg, r: Hg, parts: seq<Oct>, t: Oct) {
    && r == h.(accepted := r.accepted) && h.accepted <= r.accepted
    && Tops(parts, r.accepted[|h.accepted|..], h.pskip) && Within(parts, t)
  }

  // ---------- Which cells are opened ----------

  /** From where the walk looks: the place, the square of the tolerance and that of the size of the first cell. */
  datatype View = View(pos0: Vec, tolsq: real, dsq: real)

  function DistanceSq(u: Vec, v: Vec): (d: real) {
    (u.x - v.x) * (u.x - v.x) + (u.y - v.y) * (u.y - v.y) + (u.z - v.z) * (u.z - v.z)
  }

  /** The node at depth d is nearer than the size of its cube over the tolerance. */
  ghost predicate Near(n: Node, v: View, d: nat)
    reads n`pos
  {
    v.tolsq * DistanceSq(n.pos, v.pos0) < v.dsq / Pow2(2 * d) as real
  }

  /** The tree that a path of slots leads to. */
  ghost function SubAt(t: Oct, path: seq<nat>): (u: Oct)
    ensures Cells(u) <= Cells(t)
  {
    if path == [] then t
    else if t.Cell? && path[0] < |t.subs| then
      assert Cells(t.subs[path[0]]) <= CellsOf(t.subs);
      SubAt(t.subs[path[0]], path[1..])
    else None
  }

  /** The cells above u on this way from t are all near; u itself, if it is a cell, is not. */
  ghost predicate Judged(t: Oct, way: seq<nat>, u: Oct, v: View)
    reads Cells(t)`pos
  {
    && u == SubAt(t, way)
    && (forall d: nat :: d < |way| ==> var a := SubAt(t, way[..d]); a.Cell? && Near(a.c, v, d))
    && (u.Cell? ==> !Near(u.c, v, |way|))
  }

  ghost function Misjudged(t: Oct, ways: seq<seq<nat>>, us: seq<Oct>, v: View): (s: set<int>)
    reads Cells(t)`pos
  {
    set k | 0 <= k < |ways| && k < |us| && !Judged(t, ways[k], us[k], v)
  }

  ghost predicate AllJudged(t: Oct, ways: seq<seq<nat>>, us: seq<Oct>, v: View)
    reads Cells(t)`pos
  {
    |ways| == |us| && Misjudged(t, ways, us, v) == {}
  }

  /** The ways the walk took to the nodes accepted, and to the body left out. */
  datatype Trail = Trail(ways: seq<seq<nat>>, skips: seq<seq<nat>>)

  ghost function Copies(z: Point, k: nat): (us: seq<Oct>)
    ensures |us| == k
  {
    seq(k, _ => Body(z))
  }

  /** The walk opened exactly the near cells on its way to the parts and, k times, to z. */
  ghost predicate Trailed(t: Oct, tr: Trail, parts: seq<Oct>, z: Point, k: nat, v: View)
    reads Cells(t)`pos
  {
    AllJudged(t, tr.ways, parts, v) && AllJudged(t, tr.skips, Copies(z, k), v)
  }

  lemma {:induction false} NearFirst(n: Node, v: View)
    ensures Near(n, v, 0) <==> v.tolsq * DistanceSq(n.pos, v.pos0) < v.dsq
  {
    assert Pow2(0) == 1;
  }

  /** The test of the program is whether the cell is near. */
  lemma {:induction false} NearIsOpened(p: Node, dsq: real, tolsq: real, hg: Hg)
    ensures SubDivP(p, dsq, tolsq, hg) <==> p.isCell && Near(p, View(hg.pos0, tolsq, dsq), 0)
  {
    NearFirst(p, View(hg.pos0, tolsq, dsq));
    var (d, q, r) := (Add(p.pos, Mul(hg.pos0, -1.0)), p.pos, hg.pos0);
    assert d == Vec(q.x - r.x, q.y - r.y, q.z - r.z);
  }

  lemma {:induction false} NearDown(n: Node, v: View, d: nat)
    ensures Near(n, v.(dsq := v.dsq / 4.0), d) <==> Near(n, v, d + 1)
  {
    var p := Pow2(2 * d);
    assert Pow2(2 * (d + 1)) == 4 * p;
    assert (4 * p) as real == 4.0 * p as real;
    QuarterOver(v.dsq, p as real);
  }

  /** A near node at the end of a path is nearer than the size of the cube there over the tolerance. */
  lemma {:induction false} NearIsAngle(n: Node, pos0: Vec, tolsq: real, b: Box, path: seq<nat>)
    ensures var c := Cube(b, path);
            Near(n, View(pos0, tolsq, b.size * b.size), |path|) <==>
            tolsq * DistanceSq(n.pos, pos0) < c.size * c.size
  {
    CubeSquare(b, path, b.size * b.size);
  }

  /** The square of a cube's size is that of the whole box, quartered at every level. */
  lemma {:induction false} CubeSquare(b: Box, path: seq<nat>, dsq: real)
    requires dsq == b.size * b.size
    ensures dsq / Pow2(2 * |path|) as real == Cube(b, path).size * Cube(b, path).size
  {
    if path == [] {
      assert Pow2(0) as real == 1.0;
    } else {
      var up := path[..|path| - 1];
      CubeSquare(b, up, dsq);
      OneLevel(Cube(b, up).size, dsq, Pow2(2 * |up|));
      assert Pow2(2 * |path|) == 4 * Pow2(2 * |up|);
    }
  }

  lemma {:induction false} OneLevel(size: real, dsq: real, p: nat)
    requires p > 0 && dsq / p as real == size * size
    ensures dsq / (4 * p) as real == size / 2.0 * (size / 2.0)
  {
    assert (4 * p) as real == 4.0 * p as real;
    QuarterOver(dsq, p as real);
    QuarterBefore(dsq, p as real);
    HalfSquared(size, size * size);
  }

  lemma {:induction false} JudgedItself(t: Oct, v: View)
    requires t.Cell? ==> !Near(t.c, v, 0)
    ensures Judged(t, [], t, v)
  {
  }

  lemma {:induction false} JudgedUp(t: Oct, i: nat, way: seq<nat>, u: Oct, v: View)
    requires t.Cell? && i < |t.subs| && Near(t.c, v, 0)
    requires Judged(t.subs[i], way, u, v.(dsq := v.dsq / 4.0))
    ensures Judged(t, [i] + way, u, v)
  {
    var long := [i] + way;
    assert long[1..] == way;
    forall d: nat | d < |long|
      ensures var a := SubAt(t, long[..d]); a.Cell? && Near(a.c, v, d)
    {
      if d > 0 {
        assert long[..d][1..] == way[..d - 1];
        NearDown(SubAt(t, long[..d]).c, v, d - 1);
      }
    }
    if u.Cell? {
      NearDown(u.c, v, |way|);
    }
  }

  ghost function Longer(i: nat, ways: seq<seq<nat>>): (r: seq<seq<nat>>)
    ensures |r| == |ways|
  {
    seq(|ways|, k requires 0 <= k < |ways| => [i] + ways[k])
  }

  lemma {:induction false} AllJudgedUp(t: Oct, i: nat, ways: seq<seq<nat>>, us: seq<Oct>, v: View)
    requires t.Cell? && i < |t.subs| && Near(t.c, v, 0)
    requires AllJudged(t.subs[i], ways, us, v.(dsq := v.dsq / 4.0))
    ensures AllJudged(t, Longer(i, ways), us, v)
  {
    forall k: nat | k < |ways|
      ensures Judged(t, Longer(i, ways)[k], us[k], v)
    {
      assert k !in Misjudged(t.subs[i], ways, us, v.(dsq := v.dsq / 4.0));
      JudgedUp(t, i, ways[k], us[k], v);
    }
    assert Misjudged(t, Longer(i, ways), us, v) == {};
  }

  lemma {:induction false} AllJudgedJoin(t: Oct, a: seq<seq<nat>>, us: seq<Oct>, b: seq<seq<nat>>, ws: seq<Oct>,
                                         v: View)
    requires AllJudged(t, a, us, v) && AllJudged(t, b, ws, v)
    ensures AllJudged(t, a + b, us + ws, v)
  {
    forall k: nat | k < |a + b|
      ensures Judged(t, (a + b)[k], (us + ws)[k], v)
    {
      if k < |a| {
        assert k !in Misjudged(t, a, us, v);
      } else {
        assert k - |a| !in Misjudged(t, b, ws, v);
      }
    }
    assert Misjudged(t, a + b, us + ws, v) == {};
  }

  lemma {:induction false} TrailItself(t: Oct, z: Point, v: View)
    requires t.Cell? ==> !Near(t.c, v, 0)
    ensures Trailed(t, Trail([[]], []), [t], z, 0, v)
    ensures t == Body(z) ==> Trailed(t, Trail([], [[]]), [], z, 1, v)
  {
    JudgedItself(t, v);
    assert Misjudged(t, [[]], [t], v) == {};
    assert Copies(z, 1) == [Body(z)];
  }

  lemma {:induction false} TrailNone(t: Oct, z: Point, v: View)
    ensures Trailed(t, Trail([], []), [], z, 0, v)
  {
  }

  /** The trail of one slot goes on behind that of the slots before. */
  lemma {:induction false} TrailOn(t: Oct, i: nat, a: Trail, us: seq<Oct>, j: nat, b: Trail, ws: seq<Oct>, k: nat,
                                   z: Point, v: View)
    returns (c: Trail)
    requires t.Cell? && i < |t.subs| && Near(t.c, v, 0) && Trailed(t, a, us, z, j, v)
    requires Trailed(t.subs[i], b, ws, z, k, v.(dsq := v.dsq / 4.0))
    ensures Trailed(t, c, us + ws, z, j + k, v)
  {
    AllJudgedUp(t, i, b.ways, ws, v);
    AllJudgedUp(t, i, b.skips, Copies(z, k), v);
    AllJudgedJoin(t, a.ways, us, Longer(i, b.ways), ws, v);
    AllJudgedJoin(t, a.skips, Copies(z, j), Longer(i, b.skips), Copies(z, k), v);
    assert Copies(z, j) + Copies(z, k) == Copies(z, j + k);
    c := Trail(a.ways + Longer(i, b.ways), a.skips + Longer(i, b.skips));
  }

  // ---------- The walk itself ----------

  /**
   The nodes accepted are those of trees below t that together hold every body of t once, except the one left out, as
   often as the walk came down to it; on the way there it opened the cells that are near, and accepted none of those.
   */
  method WalkSub(p: Node, dsq: real, tolsq: real, hg: Hg, ghost t: Oct, ghost z: Point)
    returns (r: Hg, ghost parts: seq<Oct>, ghost k: nat, ghost tr: Trail)
    requires Unshared(t) && Linked(t, p) && Held(t) && z.n == hg.pskip && Holds(z)
    ensures r == hg.(accepted := r.accepted) && hg.accepted <= r.accepted
    ensures Accepts(hg, r, parts, t)
    ensures Covers([t], parts, z, k) && Trailed(t, tr, parts, z, k, View(hg.pos0, tolsq, dsq))
    decreases t, 3
  {
    WithinItself(t);
    TypeTells(t, p);
    NearIsOpened(p, dsq, tolsq, hg);
    if SubDivP(p, dsq, tolsq, hg) {
      WalkableMeans(t, p, z);
      r, parts, k, tr := WalkSubs(p, dsq, tolsq, hg, t, z);
    } else if p != hg.pskip {
      CoversItself([t], z);
      TrailItself(t, z, View(hg.pos0, tolsq, dsq));
      r := hg.(accepted := hg.accepted + [p]);
      parts, k, tr := [t], 0, Trail([[]], []);
    } else {
      CoversSkipped(z);
      TrailItself(t, z, View(hg.pos0, tolsq, dsq));
      r, parts, k, tr := hg, [], 1, Trail([], [[]]);
    }
  }

  /** What is wrong with the tree that hangs off p, and with z. */
  ghost function Defects(t: Oct, p: Node, z: Point): (s: set<Flaw>)
    reads Cells(t)`subp, Leaves(t)`mass, Leaves(t)`pos, z.n`mass, z.n`pos
  {
    (if Unshared(t) then {} else {SharedCell}) + (if Linked(t, p) then {} else {WrongLink})
    + if Held(t) && Holds(z) then {} else {LostBody}
  }

  /** A cell with a tree below it, as the loop over its slots finds it every time. */
  ghost predicate Walkable(t: Oct, p: Node, z: Point)
    reads Cells(t)`subp, Leaves(t)`mass, Leaves(t)`pos, z.n`mass, z.n`pos
  {
    t.Cell? && |t.subs| == NSUB && Defects(t, p, z) == {}
  }

  lemma {:induction false} WalkableMeans(t: Oct, p: Node, z: Point)
    requires t.Cell?
    ensures Walkable(t, p, z) <==> Unshared(t) && Linked(t, p) && Held(t) && Holds(z)
  {
    var s := Defects(t, p, z);
    assert SharedCell in s <==> !Unshared(t);
    assert WrongLink in s <==> !Linked(t, p);
    assert LostBody in s <==> !(Held(t) && Holds(z));
  }

  /** One slot of a cell. */
  method WalkSlot(p: Node, i: nat, dsq: real, tolsq: real, hg: Hg, ghost t: Oct, ghost z: Point)
    returns (r: Hg, ghost parts: seq<Oct>, ghost k: nat, ghost tr: Trail)
    requires Walkable(t, p, z) && i < NSUB && z.n == hg.pskip
    ensures Accepts(hg, r, parts, t) && Covers([t.subs[i]], parts, z, k)
    ensures Trailed(t.subs[i], tr, parts, z, k, View(hg.pos0, tolsq, dsq))
    ensures Walkable(t, p, z)
    decreases t, 0
  {
    WalkableMeans(t, p, z);
    var q := p.subp[i];
    assert allocated(Cells(t)) && allocated(Leaves(t)) && allocated(z.n);
    if q != null {
      r, parts, k, tr := WalkSub(q, dsq, tolsq, hg, t.subs[i], z);
      WithinUp(parts, t, i);
    } else {
      r, parts, k, tr := hg, [], 0, Trail([], []);
      WithinItself(t);
      CoversItself([t], z);
      TrailNone(t.subs[i], z, View(hg.pos0, tolsq, dsq));
    }
    WalkableMeans(t, p, z);
  }

  /** The first i slots of a cell have been walked. */
  ghost predicate Walked(h: Hg, r: Hg, parts: seq<Oct>, t: Oct, i: nat, z: Point, k: nat)
    requires t.Cell? && i <= |t.subs|
  {
    Accepts(h, r, parts, t) && Covers(t.subs[..i], parts, z, k)
  }

  lemma {:induction false} SlotWalked(h: Hg, r: Hg, s: Hg, a: seq<Oct>, b: seq<Oct>, t: Oct, i: nat, z: Point, j: nat,
                                      k: nat)
    requires t.Cell? && i < |t.subs| && Walked(h, r, a, t, i, z, j)
    requires Accepts(r, s, b, t) && Covers([t.subs[i]], b, z, k)
    ensures Walked(h, s, a + b, t, i + 1, z, j + k)
  {
    AcceptsJoin(h, r, s, a, b, t);
    CoversNext(t.subs, i, a, j, b, k, z);
  }

  lemma {:induction false} AcceptsJoin(h: Hg, r: Hg, s: Hg, a: seq<Oct>, b: seq<Oct>, t: Oct)
    requires Accepts(h, r, a, t) && Accepts(r, s, b, t)
    ensures Accepts(h, s, a + b, t)
  {
    WithinJoin(a, b, t);
    assert s.accepted[|h.accepted|..] == r.accepted[|h.accepted|..] + s.accepted[|r.accepted|..];
  }

  lemma {:induction false} CoversNext(ts: seq<Oct>, i: nat, a: seq<Oct>, j: nat, b: seq<Oct>, k: nat, z: Point)
    requires i < |ts| && Covers(ts[..i], a, z, j) && Covers([ts[i]], b, z, k)
    ensures Covers(ts[..i + 1], a + b, z, j + k)
  {
    CoversJoin(ts[..i], a, j, [ts[i]], b, k, z);
    assert ts[..i + 1] == ts[..i] + [ts[i]];
  }

  lemma {:induction false} NoneWalked(h: Hg, t: Oct, z: Point)
    requires t.Cell?
    ensures Walked(h, h, [], t, 0, z, 0)
  {
    CoversItself([t], z);
    WithinItself(t);
    assert t.subs[..0] == [];
  }

  lemma {:induction false} AllWalked(h: Hg, r: Hg, parts: seq<Oct>, t: Oct, z: Point, k: nat)
    requires t.Cell? && Walked(h, r, parts, t, |t.subs|, z, k)
    ensures Accepts(h, r, parts, t) && Covers([t], parts, z, k)
  {
    assert t.subs[..|t.subs|] == t.subs;
    CoversCell(t, parts, z, k);
  }

  /** The next slot of a cell that is near. */
  method WalkNext(p: Node, i: nat, dsq: real, tolsq: real, hg: Hg, ghost t: Oct, ghost z: Point,
                  ghost parts: seq<Oct>, ghost k: nat, ghost tr: Trail)
    returns (r: Hg, ghost more: seq<Oct>, ghost n: nat, ghost on: Trail)
    requires Walkable(t, p, z) && i < NSUB && z.n == hg.pskip && Near(t.c, View(hg.pos0, tolsq, dsq), 0)
    requires Trailed(t, tr, parts, z, k, View(hg.pos0, tolsq, dsq))
    ensures Walkable(t, p, z) && Near(t.c, View(hg.pos0, tolsq, dsq), 0)
    ensures Accepts(hg, r, more, t) && Covers([t.subs[i]], more, z, n) && r.pskip == hg.pskip && r.pos0 == hg.pos0
    ensures Trailed(t, on, parts + more, z, k + n, View(hg.pos0, tolsq, dsq))
    decreases t, 1
  {
    ghost var v := View(hg.pos0, tolsq, dsq);
    assert allocated(Cells(t)) && allocated(Leaves(t)) && allocated(z.n);
    r, more, n, on := WalkSlot(p, i, dsq / 4.0, tolsq, hg, t, z);
    on := TrailOn(t, i, tr, parts, k, on, more, n, z, v);
  }

  /** The loop over the subcells. */
  method WalkSubs(p: Node, dsq: real, tolsq: real, hg: Hg, ghost t: Oct, ghost z: Point)
    returns (r: Hg, ghost parts: seq<Oct>, ghost k: nat, ghost tr: Trail)
    requires Walkable(t, p, z) && z.n == hg.pskip && Near(t.c, View(hg.pos0, tolsq, dsq), 0)
    ensures r == hg.(accepted := r.accepted) && hg.accepted <= r.accepted
    ensures Accepts(hg, r, parts, t)
    ensures Covers([t], parts, z, k) && Trailed(t, tr, parts, z, k, View(hg.pos0, tolsq, dsq))
    decreases t, 2
  {
    ghost var v := View(hg.pos0, tolsq, dsq);
    r, parts, k, tr := hg, [], 0, Trail([], []);
    NoneWalked(hg, t, z);
    TrailNone(t, z, v);
    for i := 0 to NSUB
      invariant Walkable(t, p, z) && r.pskip == hg.pskip && r.pos0 == hg.pos0
      invariant Walked(hg, r, parts, t, i, z, k) && Trailed(t, tr, parts, z, k, v) && Near(t.c, v, 0)
    {
      ghost var before, more, n := r, [], 0;
      r, more, n, tr := WalkNext(p, i, dsq, tolsq, r, t, z, parts, k, tr);
      SlotWalked(hg, before, r, parts, more, t, i, z, k, n);
      parts, k := parts + more, k + n;
      assert Walked(hg, r, parts, t, i + 1, z, k) && Trailed(t, tr, parts, z, k, v);
    }
    AllWalked(hg, r, parts, t, z, k);
  }

  ghost function Elements(bs: seq<Node>): (s: set<Node>) {
    set b | b in bs
  }

  /** The mass of all the nodes, one by one. */
  ghost function SumMass(ns: seq<Node>): (m: real)
    reads Elements(ns)`mass
  {
    if ns == [] then 0.0
    else
      assert Elements(ns[..|ns| - 1]) <= Elements(ns);
      SumMass(ns[..|ns| - 1]) + ns[|ns| - 1].mass
  }

  lemma {:induction false} BelowWeighed(u: Oct, t: Oct)
    requires Below(u, t) && Weighed(t) && Held(t)
    ensures Weighed(u) && Held(u)
  {
    if u != t {
      var i :| 0 <= i < |t.subs| && Below(u, t.subs[i]);
      assert Cells(t.subs[i]) <= CellsOf(t.subs);
      BelowWeighed(u, t.subs[i]);
    }
  }

  /** After the centre-of-mass pass the accepted nodes weigh what the trees below them do. */
  lemma {:induction false} AcceptedMass(parts: seq<Oct>, ns: seq<Node>, skip: Node, t: Oct)
    requires Tops(parts, ns, skip) && Within(parts, t) && Weighed(t) && Held(t)
    ensures SumMass(ns) == MassOf(parts)
  {
    if ns != [] {
      var (qs, ms, i) := (parts[..|parts| - 1], ns[..|ns| - 1], |ns| - 1);
      assert i !in Strays(parts, t);
      BelowWeighed(parts[i], t);
      forall j | 0 <= j < i
        ensures Below(qs[j], t)
      {
        assert j !in Strays(parts, t);
      }
      assert Strays(qs, t) == {};
      AcceptedMass(qs, ms, skip, t);
    }
  }

  ghost function PointOf(b: Node): (p: Point)
    reads b`mass, b`pos
  {
    Point(b, b.mass, b.pos)
  }

  /** The parts hold every body of t just as often as t does, but z once less if the walk has come down to it. */
  ghost predicate Counted(t: Oct, parts: seq<Oct>, z: Point, reached: bool) {
    var (m, n) := (Points(t), PointsOf(parts));
    && (forall y :: y in m + n && y != z ==> n[y] == m[y])
    && m[z] == n[z] + if reached then 1 else 0
  }

  lemma {:induction false} CoversCounted(t: Oct, parts: seq<Oct>, z: Point, k: nat)
    requires Covers([t], parts, z, k) && Points(t)[z] <= 1
    ensures k <= 1 && Counted(t, parts, z, k > 0)
    ensures TotalMass(t) == MassOf(parts) + if k > 0 then z.mass else 0.0
  {
    SumsOne(t);
    CoversCount([t], parts, z, k, z);
    var (m, n) := (Points(t), PointsOf(parts));
    forall y | y in m + n && y != z
      ensures n[y] == m[y]
    {
      CoversCount([t], parts, z, k, y);
    }
    assert m[z] == n[z] + k;
    assert Counted(t, parts, z, k > 0);
    assert Repeated(z.mass, 1) == z.mass && Repeated(z.mass, 0) == 0.0;
  }

  /**
   The accepted nodes are the tops of these parts of t, which hold every body but p just as t does; p is missing exactly
   if the walk has come down to it, and the nodes weigh what the root does, or that less p.
   */
  ghost predicate Reckoned(accepted: seq<Node>, p: Node, rt: Node, t: Oct, parts: seq<Oct>, reached: bool)
    reads p`mass, p`pos, rt`mass, Elements(accepted)`mass
  {
    && Tops(parts, accepted, p) && Within(parts, t) && Counted(t, parts, PointOf(p), reached)
    && SumMass(accepted) == rt.mass - if reached then p.mass else 0.0
  }

  /** What the walk for the force on p has accepted, and how it came there. */
  ghost predicate Guided(accepted: seq<Node>, p: Node, rt: Node, t: Oct, parts: seq<Oct>, reached: bool, tr: Trail,
                         v: View)
    reads p`mass, p`pos, rt`mass, Elements(accepted)`mass, Cells(t)`pos
  {
    Reckoned(accepted, p, rt, t, parts, reached) && Trailed(t, tr, parts, PointOf(p), if reached then 1 else 0, v)
  }

  /** The walk from the root for the force on a body. */
  method HackGrav(p: Node, rsize: real, tol: real, rt: Node, ghost t: Oct, ghost b: Box) returns (hg: Hg)
    requires Good(t, rt, b) && Weighed(t) && Weighs(rt, t) && !p.isCell && Points(t)[PointOf(p)] <= 1
    ensures var v := View(p.pos, tol * tol, rsize * rsize);
            exists parts, reached, tr :: Guided(hg.accepted, p, rt, t, parts, reached, tr, v)
  {
    GoodMeans(t, rt, b);
    ghost var z := PointOf(p);
    ghost var parts, k, tr;
    hg := Hg(p, p.pos, []);
    assert allocated(Cells(t)) && allocated(Leaves(t));
    hg, parts, k, tr := WalkSub(rt, rsize * rsize, tol * tol, hg, t, z);
    CoversCounted(t, parts, z, k);
    AcceptedMass(parts, hg.accepted, p, t);
    assert Guided(hg.accepted, p, rt, t, parts, k > 0, tr, View(p.pos, tol * tol, rsize * rsize));
  }

  // ---------- Making the tree ----------

  ghost function Changed(bs: seq<Node>, ps: seq<Point>): (s: set<int>)
    requires |bs| == |ps|
    reads Elements(bs)`mass, Elements(bs)`pos
  {
    set i | 0 <= i < |bs| && (assert bs[i] in Elements(bs); PointOf(bs[i]) != ps[i])
  }

  /** The bodies have the masses and places ps, and none is a cell. */
  ghost predicate Are(bs: seq<Node>, ps: seq<Point>)
    reads Elements(bs)`mass, Elements(bs)`pos
  {
    |bs| == |ps| && Changed(bs, ps) == {} && forall b :: b in Elements(bs) ==> !b.isCell
  }

  lemma {:induction false} AreAt(bs: seq<Node>, ps: seq<Point>, i: nat)
    requires Are(bs, ps) && i < |bs|
    ensures ps[i] == PointOf(bs[i]) && !bs[i].isCell
  {
    assert i !in Changed(bs, ps) && bs[i] in Elements(bs);
  }

  /** One body: the box grows to hold it, by n doublings, then it goes into the tree. */
  method LoadOne(q: Node, t: BhTree, ghost s: Oct)
    returns (ok: bool, ghost u: Oct, ghost news: set<Node>, ghost n: nat)
    requires t.rsize > 0.0 && Good(s, t.root, t.Bounds()) && !q.isCell
    modifies t, Cells(s)`subp
    ensures ok <==> Admits(s, old(t.Bounds()), old(q.pos))
    ensures ok ==> t.Bounds() == NewBox(s, old(t.Bounds()), old(q.pos)) && t.rsize > 0.0
    ensures ok ==> Good(u, t.root, t.Bounds()) && Points(u) == Points(s) + multiset{old(PointOf(q))}
    ensures ok ==> fresh(news) && Cells(u) <= Cells(s) + news
    ensures ok ==> Spare(u) <= Spare(s) + n && t.rsize == Doubled(old(t.rsize), n)
  {
    ok, u, news, n := ExpandBox(q, t, s);
    if ok {
      SamePoints(s, u, t.Bounds(), IntCoord(q.pos, t.Bounds()));
      ghost var more;
      ok, u, more := Plant(q, t, u);
      news := news + more;
    }
  }

  lemma {:induction false} AtRoot(b: Box)
    ensures Cube(b, []) == b && IMAX / 2 == Level(0)
  {
    TopLevel();
  }

  /** The call at the root. */
  method Plant(q: Node, t: BhTree, ghost s: Oct) returns (ok: bool, ghost u: Oct, ghost news: set<Node>)
    requires t.rsize > 0.0 && Good(s, t.root, t.Bounds()) && !q.isCell && Inside(q.pos, t.Bounds())
    modifies t`root, Cells(s)`subp
    ensures ok <==> Free(s, t.Bounds(), IntCoord(q.pos, t.Bounds()))
    ensures ok ==> Good(u, t.root, t.Bounds()) && Points(u) == Points(s) + multiset{old(PointOf(q))}
    ensures ok ==> fresh(news) && Cells(u) <= Cells(s) + news && Spare(u) <= Spare(s)
  {
    ghost var x := PointOf(q);
    AtRoot(t.Bounds());
    var r;
    var xqic := IntCoord(q.pos, t.Bounds());
    ok, r, u, news := LoadTree(q, xqic, t.root, IMAX / 2, t, s, x, []);
    if ok {
      t.root := r;
    }
  }

  /** The next body, if it has mass. */
  method LoadNext(q: Node, t: BhTree, ghost s: Oct)
    returns (ok: bool, ghost u: Oct, ghost news: set<Node>, ghost n: nat)
    requires !q.isCell && t.rsize > 0.0 && Good(s, t.root, t.Bounds())
    modifies t, Cells(s)`subp
    ensures ok <==> old(q.mass) == 0.0 || Admits(s, old(t.Bounds()), old(q.pos))
    ensures ok ==> t.Bounds() == NextBox(s, old(t.Bounds()), old(PointOf(q))) && t.rsize > 0.0
    ensures ok ==> Good(u, t.root, t.Bounds()) && Points(u) == Points(s) + Added(old(PointOf(q)))
    ensures ok ==> fresh(news) && Cells(u) <= Cells(s) + news
    ensures ok ==> Spare(u) <= Spare(s) + n && t.rsize == Doubled(old(t.rsize), n)
  {
    ok, u, news, n := true, s, {}, 0;
    if q.mass != 0.0 {
      ok, u, news, n := LoadOne(q, t, s);
    } else {
      assert Points(s) + multiset{} == Points(s);
    }
  }

  /** The next of the bodies ps. */
  method LoadStep(q: Node, t: BhTree, ghost s: Oct, ghost ps: seq<Point>, ghost i: nat, ghost box: Box, ghost m: nat)
    returns (ok: bool, ghost u: Oct, ghost news: set<Node>, ghost n: nat)
    requires Spare(s) <= m && t.rsize == Doubled(box.size, m)
    requires i < |ps| && !q.isCell && ps[i] == PointOf(q) && box.size > 0.0
    requires t.rsize > 0.0 && Good(s, t.root, t.Bounds()) && Points(s) == WithMass(ps[..i])
    requires t.Bounds() == BoxAfter(ps[..i], box) && Loadable(ps[..i], box)
    modifies t, Cells(s)`subp
    ensures ok <==> Loadable(ps[..i + 1], box)
    ensures ok ==> t.Bounds() == BoxAfter(ps[..i + 1], box) && t.rsize > 0.0
    ensures ok ==> Good(u, t.root, t.Bounds()) && Points(u) == WithMass(ps[..i + 1])
    ensures ok ==> fresh(news) && Cells(u) <= Cells(s) + news
    ensures ok ==> Spare(u) <= n && t.rsize == Doubled(box.size, n)
  {
    GoodMeans(s, t.root, t.Bounds());
    LoadableMore(ps, i, s, box);
    ok, u, news, n := LoadNext(q, t, s);
    DoubledTwice(box.size, m, n);
    n := m + n;
  }

  /** The loop over the bodies. */
  method LoadAll(bodies: seq<Node>, t: BhTree, ghost ps: seq<Point>)
    returns (ok: bool, ghost u: Oct, ghost news: set<Node>, ghost n: nat)
    requires t.rsize > 0.0 && t.root == null && Are(bodies, ps)
    modifies t
    ensures ok <==> Loadable(ps, old(t.Bounds()))
    ensures ok ==> t.Bounds() == BoxAfter(ps, old(t.Bounds())) && t.rsize > 0.0
    ensures ok ==> Good(u, t.root, t.Bounds()) && Points(u) == WithMass(ps)
    ensures ok ==> fresh(news) && Cells(u) <= news && Are(bodies, ps)
    ensures ok ==> Spare(u) <= n && t.rsize == Doubled(old(t.rsize), n)
  {
    u, news, n := None, {}, 0;
    GoodMeans(u, t.root, t.Bounds());
    ghost var box := t.Bounds();
    assert ps[..0] == [];
    assert allocated(Elements(bodies));
    for i := 0 to |bodies|
      invariant t.rsize > 0.0 && Good(u, t.root, t.Bounds()) && Points(u) == WithMass(ps[..i])
      invariant fresh(news) && Cells(u) <= news && Are(bodies, ps)
      invariant t.Bounds() == BoxAfter(ps[..i], box) && Loadable(ps[..i], box)
      invariant Spare(u) <= n && t.rsize == Doubled(box.size, n)
    {
      ghost var more;
      AreAt(bodies, ps, i);
      ok, u, more, n := LoadStep(bodies[i], t, u, ps, i, box, n);
      if !ok {
        LoadablePrefix(ps, i + 1, box);
        return false, u, news, n;
      }
      news := news + more;
    }
    assert ps[..|bodies|] == ps;
    ok := true;
  }

  /**
   Loading the bodies that have mass, then the centre-of-mass pass.  The tree is made exactly if the bodies can be
   loaded one by one; `OctreeLoading.LoadableInBox` says what that comes to if they are all in the box to begin with.
   Every cell holds two bodies or more, but for one at most for each time that the box has doubled.
   */
  method MakeTree(bodies: seq<Node>, t: BhTree, ghost ps: seq<Point>) returns (ok: bool, ghost u: Oct)
    requires t.rsize > 0.0 && Are(bodies, ps) && exists p :: p in ps && p.mass != 0.0
    modifies t
    ensures ok <==> Loadable(ps, old(t.Bounds()))
    ensures ok ==> t.rsize > 0.0 && t.Bounds() == BoxAfter(ps, old(t.Bounds()))
    ensures ok ==> Good(u, t.root, t.Bounds()) && Points(u) == WithMass(ps)
    ensures ok ==> t.root != null && Weighed(u) && Weighs(t.root, u)
    ensures ok ==> exists n: nat :: Spare(u) <= n && t.rsize == Doubled(old(t.rsize), n)
  {
    t.root := null;
    assert allocated(Elements(bodies));
    ghost var news, n;
    ok, u, news, n := LoadAll(bodies, t, ps);
    if ok {
      SomeMass(ps, u);
      NoTree(u, t.root, t.Bounds());
      var m := HackCofM(t.root, u, t.Bounds());
    }
  }

  lemma {:induction false} SomeMass(ps: seq<Point>, t: Oct)
    requires Points(t) == WithMass(ps) && exists p :: p in ps && p.mass != 0.0
    ensures t != None
  {
    var p :| p in ps && p.mass != 0.0;
    WithMassAre(ps, p);
    assert p in Points(t);
  }
}
