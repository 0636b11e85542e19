/**
 Spanning trees of a weighted graph over integer vertices, and the exchange argument behind Prim's
 algorithm: adding the lightest edge that leaves the tree built so far never loses the minimum.
 */
module SpanningTrees {

  type Edge = (int, int)

  predicate Crosses(e: Edge, side: set<int>) {
    (e.0 in side) != (e.1 in side)
  }

  ghost predicate CutCovered(t: set<Edge>, side: set<int>) {
    exists e :: e in t && Crosses(e, side)
  }

  /** Every way of cutting the vertices in two is crossed by an edge. */
  ghost predicate Connected(vertices: set<int>, t: set<Edge>) {
    forall side: set<int> {:trigger CutCovered(t, side)} :: side < vertices && side != {} ==> CutCovered(t, side)
  }

  predicate Within(vertices: set<int>, t: set<Edge>) {
    forall e :: e in t ==> e.0 in vertices && e.1 in vertices
  }

  /** A connected set of |V| - 1 edges between the vertices V. */
  ghost predicate SpanningTree(vertices: set<int>, t: set<Edge>) {
    Within(vertices, t) && Connected(vertices, t) && |t| == |vertices| - 1
  }

  // ---------- Cuts and paths say the same about connectedness ----------

  predicate IsPath(p: seq<int>, t: set<Edge>) {
    && |p| > 0
    && forall i :: 0 <= i < |p| - 1 ==> (p[i], p[i + 1]) in t || (p[i + 1], p[i]) in t
  }

  ghost predicate HasPath(a: int, b: int, t: set<Edge>) {
    exists p :: IsPath(p, t) && p[0] == a && p[|p| - 1] == b
  }

  lemma {:induction false} Member<T>(s: set<T>) returns (x: T)
    requires s != {}
    ensures x in s
  {
    x :| x in s;
  }

  lemma {:induction false} PathExtends(a: int, b: int, c: int, t: set<Edge>)
    requires HasPath(a, b, t) && ((b, c) in t || (c, b) in t)
    ensures HasPath(a, c, t)
  {
    var p :| IsPath(p, t) && p[0] == a && p[|p| - 1] == b;
    assert IsPath(p + [c], t);
  }

  lemma {:induction false} PathCrosses(p: seq<int>, t: set<Edge>, side: set<int>)
    requires IsPath(p, t) && (p[0] in side) != (p[|p| - 1] in side)
    ensures CutCovered(t, side)
  {
    if (p[0] in side) != (p[1] in side) {
      var e := if (p[0], p[1]) in t then (p[0], p[1]) else (p[1], p[0]);
      assert e in t && Crosses(e, side);
    } else {
      PathCrosses(p[1..], t, side);
    }
  }

  /** Connected by cuts is connected by paths. */
  lemma {:induction false} ConnectedIffPaths(vertices: set<int>, t: set<Edge>)
    requires Within(vertices, t)
    ensures Connected(vertices, t) <==> forall a, b :: a in vertices && b in vertices ==> HasPath(a, b, t)
  {
    if Connected(vertices, t) {
      forall a, b | a in vertices && b in vertices
        ensures HasPath(a, b, t)
      {
        var reached := set x | x in vertices && HasPath(a, x, t);
        assert IsPath([a], t);
        if b !in reached {
          assert a in reached && reached < vertices;
          assert CutCovered(t, reached);
          var e :| e in t && Crosses(e, reached);
          PathExtends(a, if e.0 in reached then e.0 else e.1, if e.0 in reached then e.1 else e.0, t);
        }
      }
    }
    if forall a, b :: a in vertices && b in vertices ==> HasPath(a, b, t) {
      forall side: set<int> | side < vertices && side != {}
        ensures CutCovered(t, side)
      {
        var a := Member(side);
        assert vertices != side + {} && vertices == side + (vertices - side);
        var b := Member(vertices - side);
        var p :| IsPath(p, t) && p[0] == a && p[|p| - 1] == b;
        PathCrosses(p, t, side);
      }
    }
  }

  // ---------- Weights ----------

  ghost function Weight(t: set<Edge>, w: Edge -> int): (n: int)
  {
    if t == {} then 0 else
      var e :| e in t;
      w(e) + Weight(t - {e}, w)
  }

  lemma {:induction false} WeightWithout(t: set<Edge>, e: Edge, w: Edge -> int)
    requires e in t
    ensures Weight(t, w) == w(e) + Weight(t - {e}, w)
    decreases |t|
  {
    var f :| f in t && Weight(t, w) == w(f) + Weight(t - {f}, w);
    if f != e {
      WeightWithout(t - {f}, e, w);
      WeightWithout(t - {e}, f, w);
      assert t - {f} - {e} == t - {e} - {f};
    }
  }

  // ---------- Growing connected sets ----------

  /** Attaching one vertex by an edge keeps a set of vertices connected. */
  lemma {:induction false} ConnectedGrows(c: set<int>, t: set<Edge>, e: Edge, u: int, v: int)
    requires Within(c, t) && Connected(c, t) && u in c && v !in c && (e == (u, v) || e == (v, u))
    ensures Within(c + {v}, t + {e}) && Connected(c + {v}, t + {e})
  {
    forall side: set<int> | side < c + {v} && side != {}
      ensures CutCovered(t + {e}, side)
    {
      var inner := side * c;
      if inner == {} || inner == c {
        assert v in side <==> inner == {};
        assert e in t + {e} && Crosses(e, side);
      } else {
        assert CutCovered(t, inner);
        var f :| f in t && Crosses(f, inner);
        assert f in t + {e} && Crosses(f, side);
      }
    }
  }

  function EdgesInside(c: set<int>, t: set<Edge>): (r: set<Edge>) {
    set e | e in t && e.0 in c && e.1 in c
  }

  /** c holds v, hangs together inside itself, and no edge leaves it for the rest of outside. */
  ghost predicate Component(c: set<int>, outside: set<int>, t: set<Edge>, v: int) {
    && v in c && c <= outside
    && Connected(c, EdgesInside(c, t))
    && forall e :: e in t && e.0 in outside && e.1 in outside ==> !Crosses(e, c)
  }

  lemma {:induction false} GrowComponent(c: set<int>, outside: set<int>, t: set<Edge>, v: int) returns (d: set<int>)
    requires v in c && c <= outside && Connected(c, EdgesInside(c, t))
    ensures Component(d, outside, t, v)
    decreases |outside - c|
  {
    if e :| e in t && e.0 in outside && e.1 in outside && Crosses(e, c) {
      var (x, y) := if e.0 in c then (e.0, e.1) else (e.1, e.0);
      ConnectedGrows(c, EdgesInside(c, t), e, x, y);
      ConnectedMonotone(c + {y}, EdgesInside(c, t) + {e}, EdgesInside(c + {y}, t));
      assert outside - (c + {y}) == outside - c - {y};
      d := GrowComponent(c + {y}, outside, t, v);
    } else {
      d := c;
    }
  }

  lemma {:induction false} ConnectedMonotone(c: set<int>, t: set<Edge>, u: set<Edge>)
    requires Connected(c, t) && t <= u
    ensures Connected(c, u)
  {
    forall side: set<int> | side < c && side != {}
      ensures CutCovered(u, side)
    {
      assert CutCovered(t, side);
    }
  }

  // ---------- The exchange argument ----------

  /** e leaves `inside` for the rest of the vertices and no edge between them is lighter. */
  ghost predicate LightestCrossing(inside: set<int>, vertices: set<int>, e: Edge, w: Edge -> int) {
    && e.0 in vertices && e.1 in vertices && Crosses(e, inside)
    && forall f: Edge :: f.0 in vertices && f.1 in vertices && Crosses(f, inside) ==> w(e) <= w(f)
  }

  /** If every cut that only f covers is crossed by e, then e may replace f. */
  lemma {:induction false} ReplaceEdge(vertices: set<int>, t: set<Edge>, f: Edge, e: Edge, w: Edge -> int)
    requires SpanningTree(vertices, t) && f in t && e !in t && e.0 in vertices && e.1 in vertices && w(e) <= w(f)
    requires forall side: set<int> ::
               side < vertices && Crosses(f, side) && !CutCovered(t - {f}, side) ==> Crosses(e, side)
    ensures SpanningTree(vertices, t - {f} + {e}) && Weight(t - {f} + {e}, w) <= Weight(t, w)
  {
    var u := t - {f} + {e};
    forall side: set<int> | side < vertices && side != {}
      ensures CutCovered(u, side)
    {
      assert CutCovered(t, side);
      if g :| g in t - {f} && Crosses(g, side) {
        assert g in u;
      } else {
        var g :| g in t && Crosses(g, side);
        assert g == f;
        assert e in u && Crosses(e, side);
      }
    }
    WeightWithout(t, f, w);
    WeightWithout(u, e, w);
    assert u - {e} == t - {f};
  }

  /**
   Any spanning tree t that contains the edges chosen so far can be turned into one that also
   contains the lightest edge e leaving `inside`, and is no heavier.
   */
  lemma {:induction false} ExchangeEdge(vertices: set<int>, inside: set<int>, chosen: set<Edge>, t: set<Edge>,
                                        e: Edge, w: Edge -> int)
    returns (u: set<Edge>)
    requires SpanningTree(vertices, t) && chosen <= t
    requires inside < vertices && Within(inside, chosen) && Connected(inside, chosen)
    requires LightestCrossing(inside, vertices, e, w)
    ensures SpanningTree(vertices, u) && chosen + {e} <= u && Weight(u, w) <= Weight(t, w)
  {
    if e in t {
      u := t;
      return;
    }
    var outside := vertices - inside;
    var v := if e.0 in inside then e.1 else e.0;
    assert Connected({v}, EdgesInside({v}, t));
    var c := GrowComponent({v}, outside, t, v);
    assert c < vertices && CutCovered(t, c);
    var f :| f in t && Crosses(f, c);
    assert Crosses(f, inside) && f !in chosen;
    u := t - {f} + {e};
    forall side: set<int> | side < vertices && Crosses(f, side) && !CutCovered(t - {f}, side)
      ensures Crosses(e, side)
    {
      OneSide(inside, chosen, t - {f}, side);
      assert EdgesInside(c, t) <= t - {f};
      OneSide(c, EdgesInside(c, t), t - {f}, side);
    }
    ReplaceEdge(vertices, t, f, e, w);
  }

  /** A connected set lies wholly on one side of a cut that none of its edges crosses. */
  lemma {:induction false} OneSide(c: set<int>, inner: set<Edge>, t: set<Edge>, side: set<int>)
    requires Connected(c, inner) && Within(c, inner) && inner <= t && !CutCovered(t, side)
    ensures c <= side || c !! side
  {
    var x := c * side;
    if x == {} {
      assert forall v :: v in c && v in side ==> v in x;
    } else if x == c {
      assert c <= side;
    } else {
      assert x < c && CutCovered(inner, x);
      var g :| g in inner && Crosses(g, x);
      assert g in t && Crosses(g, side);
    }
  }

  // ---------- What Prim's loop keeps ----------

  /** Every spanning tree can be matched by one that contains the chosen edges and is no heavier. */
  ghost predicate Promising(vertices: set<int>, chosen: set<Edge>, w: Edge -> int) {
    forall t {:trigger Improves(vertices, chosen, t, w)} ::
      SpanningTree(vertices, t) ==> Improves(vertices, chosen, t, w)
  }

  ghost predicate Improves(vertices: set<int>, chosen: set<Edge>, t: set<Edge>, w: Edge -> int) {
    exists u :: SpanningTree(vertices, u) && chosen <= u && Weight(u, w) <= Weight(t, w)
  }

  /** The state of Prim's algorithm: a tree on the vertices inside, part of a minimum spanning tree. */
  ghost predicate PrimState(vertices: set<int>, inside: set<int>, chosen: set<Edge>, w: Edge -> int) {
    inside <= vertices && SpanningTree(inside, chosen) && Promising(vertices, chosen, w)
  }

  ghost predicate MinimumSpanningTree(vertices: set<int>, t: set<Edge>, w: Edge -> int) {
    SpanningTree(vertices, t) && forall u :: SpanningTree(vertices, u) ==> Weight(t, w) <= Weight(u, w)
  }

  lemma {:induction false} PrimStart(vertices: set<int>, v: int, w: Edge -> int)
    requires v in vertices
    ensures PrimState(vertices, {v}, {}, w) && Weight({}, w) == 0
  {
    assert |{v}| == 1;
    forall t | SpanningTree(vertices, t)
      ensures Improves(vertices, {}, t, w)
    {
      assert {} <= t;
    }
  }

  lemma {:induction false} PrimStep(vertices: set<int>, inside: set<int>, chosen: set<Edge>, e: Edge, u: int, v: int,
                                    w: Edge -> int)
    requires PrimState(vertices, inside, chosen, w) && LightestCrossing(inside, vertices, e, w)
    requires u in inside && v !in inside && (e == (u, v) || e == (v, u))
    ensures PrimState(vertices, inside + {v}, chosen + {e}, w)
    ensures Weight(chosen + {e}, w) == Weight(chosen, w) + w(e)
  {
    ConnectedGrows(inside, chosen, e, u, v);
    assert e !in chosen;
    WeightWithout(chosen + {e}, e, w);
    assert chosen + {e} - {e} == chosen;
    forall t | SpanningTree(vertices, t)
      ensures Improves(vertices, chosen + {e}, t, w)
    {
      assert Improves(vertices, chosen, t, w);
      var t' :| SpanningTree(vertices, t') && chosen <= t' && Weight(t', w) <= Weight(t, w);
      var t'' := ExchangeEdge(vertices, inside, chosen, t', e, w);
    }
  }

  lemma {:induction false} SubsetOfSameSize(a: set<Edge>, b: set<Edge>)
    requires a <= b && |a| == |b|
    ensures a == b
  {
    assert b == a + (b - a);
    assert |b - a| == 0;
  }

  /** When everything is inside, the chosen edges are a minimum spanning tree. */
  lemma {:induction false} PrimEnd(vertices: set<int>, chosen: set<Edge>, w: Edge -> int)
    requires PrimState(vertices, vertices, chosen, w)
    ensures MinimumSpanningTree(vertices, chosen, w)
  {
    forall t | SpanningTree(vertices, t)
      ensures Weight(chosen, w) <= Weight(t, w)
    {
      assert Improves(vertices, chosen, t, w);
      var u :| SpanningTree(vertices, u) && chosen <= u && Weight(u, w) <= Weight(t, w);
      SubsetOfSameSize(chosen, u);
    }
  }

  // ---------- Only edges between different vertices matter ----------

  /** A connected set of edges grows from the vertices c, with as many edges as it takes. */
  lemma {:induction false} EdgesNeeded(vertices: set<int>, t: set<Edge>, c: set<int>, inner: set<Edge>)
    requires Within(vertices, t) && Connected(vertices, t) && c <= vertices && c != {}
    requires Within(c, inner) && inner <= t && |inner| >= |c| - 1
    ensures |t| >= |vertices| - 1
    decreases |vertices - c|
  {
    if c == vertices {
      assert t == inner + (t - inner);
    } else {
      assert CutCovered(t, c);
      var e :| e in t && Crosses(e, c);
      var y := if e.0 in c then e.1 else e.0;
      assert vertices - (c + {y}) == vertices - c - {y};
      EdgesNeeded(vertices, t, c + {y}, inner + {e});
    }
  }

  /** A spanning tree has no edge from a vertex to itself. */
  lemma {:induction false} NoLoop(vertices: set<int>, t: set<Edge>, e: Edge)
    requires SpanningTree(vertices, t) && e in t
    ensures e.0 != e.1
  {
    if e.0 == e.1 {
      forall side: set<int> | side < vertices && side != {}
        ensures CutCovered(t - {e}, side)
      {
        assert CutCovered(t, side);
      }
      EdgesNeeded(vertices, t - {e}, {e.0}, {});
    }
  }

  lemma {:induction false} SameWeight(t: set<Edge>, w: Edge -> int, x: Edge -> int)
    requires forall e :: e in t ==> w(e) == x(e)
    ensures Weight(t, w) == Weight(t, x)
    decreases |t|
  {
    if t != {} {
      var e :| e in t;
      WeightWithout(t, e, w);
      WeightWithout(t, e, x);
      SameWeight(t - {e}, w, x);
    }
  }

  lemma {:induction false} SameTreeWeight(vertices: set<int>, t: set<Edge>, w: Edge -> int, x: Edge -> int)
    requires SpanningTree(vertices, t)
    requires forall e: Edge :: e.0 in vertices && e.1 in vertices && e.0 != e.1 ==> w(e) == x(e)
    ensures Weight(t, w) == Weight(t, x)
  {
    forall e | e in t
      ensures w(e) == x(e)
    {
      NoLoop(vertices, t, e);
    }
    SameWeight(t, w, x);
  }

  /** Weights that agree on the edges between different vertices have the same minimum spanning trees. */
  lemma {:induction false} SameMinimum(vertices: set<int>, t: set<Edge>, w: Edge -> int, x: Edge -> int)
    requires MinimumSpanningTree(vertices, t, w)
    requires forall e: Edge :: e.0 in vertices && e.1 in vertices && e.0 != e.1 ==> w(e) == x(e)
    ensures MinimumSpanningTree(vertices, t, x) && Weight(t, w) == Weight(t, x)
  {
    SameTreeWeight(vertices, t, w, x);
    forall u | SpanningTree(vertices, u)
      ensures Weight(t, x) <= Weight(u, x)
    {
      SameTreeWeight(vertices, u, w, x);
    }
  }
}
