/**
 Prim's algorithm on a linked list of vertices with cached distances.  A vertex is known to the hash
 tables by an integer, as the program knows it by its address.
 */
module Mst {
  import opened SpanningTrees

  const INFINITE: int := 9999999

  class Vertex {
    const id: int
    const edgehash: map<int, int>
    var mindist: int
    var next: Vertex?

    constructor (id: int, edgehash: map<int, int>)
      ensures this.id == id && this.edgehash == edgehash && mindist == INFINITE && next == null
    {
      this.id, this.edgehash := id, edgehash;
      mindist, next := INFINITE, null;
    }
  }

  /** The entry for a key, or 0 when there is none. */
  function HashLookup(key: int, hash: map<int, int>): (n: int) {
    if key in hash then hash[key] else 0
  }

  /** A cached distance after seeing an entry; a missing entry leaves it alone. */
  function Relax(mindist: int, dist: int): (n: int) {
    if dist != 0 && dist < mindist then dist else mindist
  }

  /** The hash tables of all vertices. */
  type Graph = map<int, map<int, int>>

  /** An edge with no entry, or one past the initial distance, weighs as much as the initial distance. */
  function EdgeWeight(g: Graph, e: Edge): (n: int) {
    if e.0 in g && e.1 in g[e.0] && g[e.0][e.1] != 0 && g[e.0][e.1] < INFINITE then g[e.0][e.1] else INFINITE
  }

  ghost function Weights(g: Graph): (r: Edge -> int) {
    e => EdgeWeight(g, e)
  }

  ghost predicate Symmetric(g: Graph) {
    forall a, b :: EdgeWeight(g, (a, b)) == EdgeWeight(g, (b, a))
  }

  /** Any two of these vertices have an entry for each other, below the initial distance. */
  ghost predicate Complete(ids: set<int>, g: Graph) {
    forall a, b :: a in ids && b in ids && a != b ==> a in g && b in g[a] && g[a][b] != 0 && g[a][b] < INFINITE
  }

  /** The entries themselves. */
  ghost function Entries(g: Graph): (r: Edge -> int) {
    (e: Edge) => if e.0 in g && e.1 in g[e.0] then g[e.0][e.1] else 0
  }

  /** In a complete graph a minimum spanning tree is one for the entries. */
  lemma {:induction false} EntriesWeigh(ids: set<int>, t: set<Edge>, g: Graph)
    requires Complete(ids, g) && MinimumSpanningTree(ids, t, Weights(g))
    ensures MinimumSpanningTree(ids, t, Entries(g)) && Weight(t, Weights(g)) == Weight(t, Entries(g))
  {
    SameMinimum(ids, t, Weights(g), Entries(g));
  }

  // ---------- The vertex list ----------

  function HeadOf(vs: seq<Vertex>, i: nat): (r: Vertex?) {
    if i < |vs| then vs[i] else null
  }

  /** vs are the vertices of the list from p on. */
  ghost predicate IsList(p: Vertex?, vs: seq<Vertex>)
    reads vs
  {
    p == HeadOf(vs, 0) && forall i {:trigger vs[i].next} :: 0 <= i < |vs| ==> vs[i].next == HeadOf(vs, i + 1)
  }

  ghost predicate NoRepeats(vs: seq<Vertex>) {
    forall i, j :: 0 <= i < j < |vs| ==> vs[i].id != vs[j].id
  }

  ghost function Ids(vs: seq<Vertex>): (s: set<int>) {
    set v | v in vs :: v.id
  }

  /** The list without the vertex at position r; all of it when r is past the end. */
  function Without(vs: seq<Vertex>, r: nat): (ws: seq<Vertex>) {
    if r < |vs| then vs[..r] + vs[r + 1..] else vs
  }

  /** r is where the inserted vertex stands in the list, or the length of the list. */
  ghost predicate StandsAt(vs: seq<Vertex>, inserted: Vertex, r: nat) {
    r <= |vs| && (if r < |vs| then vs[r] == inserted else inserted !in vs)
  }

  lemma {:induction false} ListWithout(p: Vertex?, vs: seq<Vertex>, r: nat)
    requires vs != [] && p == vs[0] && 0 < r <= |vs|
    requires forall i {:trigger vs[i].next} :: 0 <= i < |vs| ==>
               vs[i].next == HeadOf(vs, if i + 1 == r && r < |vs| then i + 2 else i + 1)
    ensures IsList(p, Without(vs, r))
  {
    var ws := Without(vs, r);
    forall i | 0 <= i < |ws|
      ensures ws[i].next == HeadOf(ws, i + 1)
    {
      assert vs[if i < r then i else i + 1].next == ws[i].next;
    }
  }

  // ---------- One round ----------

  datatype BlueReturn = BlueReturn(vert: Vertex?, dist: int)

  /** Lower the cached distance of v to its entry for the inserted vertex, if there is one and it is less. */
  method RelaxVertex(v: Vertex, inserted: Vertex) returns (dist2: int)
    modifies v`mindist
    ensures v.mindist == dist2 == Relax(old(v.mindist), HashLookup(inserted.id, v.edgehash))
  {
    dist2 := v.mindist;
    var dist := HashLookup(inserted.id, v.edgehash);
    if dist != 0 {
      if dist < dist2 {
        v.mindist := dist;
        dist2 := dist;
      }
    }
  }

  /**
   Relax the distances of all vertices but the inserted one against it, take it out of the list, and
   return the nearest of the others.  The inserted vertex is not the first of the list.
   */
  method BlueRule(inserted: Vertex, vlist: Vertex?, ghost vs: seq<Vertex>, ghost r: nat) returns (retval: BlueReturn)
    requires IsList(vlist, vs) && NoRepeats(vs) && StandsAt(vs, inserted, r) && (vs == [] || r > 0)
    modifies set v | v in vs
    ensures IsList(vlist, Without(vs, r))
    ensures forall v :: v in vs && v != inserted ==>
              v.mindist == Relax(old(v.mindist), HashLookup(inserted.id, v.edgehash))
    ensures vs == [] ==> retval == BlueReturn(null, 999999)
    ensures vs != [] ==> retval.vert in vs && retval.vert != inserted && retval.dist == retval.vert.mindist
    ensures forall v :: v in vs && v != inserted ==> retval.dist <= v.mindist
  {
    if vlist == null {
      return BlueReturn(null, 999999);
    }
    var prev := vlist;
    var vert := vlist;
    var best := RelaxVertex(vlist, inserted);
    var tmp := vlist.next;
    ghost var j, b := 1, 0;
    while tmp != null
      invariant 1 <= j <= |vs| && tmp == HeadOf(vs, j) && prev == vs[j - 1]
      invariant forall i {:trigger vs[i].next} :: 0 <= i < |vs| ==>
                  vs[i].next == HeadOf(vs, if i + 1 == r && r < j then i + 2 else i + 1)
      invariant forall i {:trigger vs[i].mindist} :: 0 <= i < |vs| ==>
                  vs[i].mindist == if i < j && i != r
                                   then Relax(old(vs[i].mindist), HashLookup(inserted.id, vs[i].edgehash))
                                   else old(vs[i].mindist)
      invariant 0 <= b < j && b != r && vs[b] == vert
      invariant best == vert.mindist
      invariant forall i {:trigger vs[i].mindist} :: 0 <= i < j && i != r ==> best <= vs[i].mindist
      decreases |vs| - j
    {
      if tmp == inserted {
        var next := tmp.next;
        prev.next := next;
      } else {
        var dist2 := RelaxVertex(tmp, inserted);
        if dist2 < best {
          vert := tmp;
          b := j;
          best := dist2;
        }
      }
      prev, tmp := tmp, tmp.next;
      j := j + 1;
    }
    retval := BlueReturn(vert, best);
    ListWithout(vlist, vs, r);
  }

  // ---------- All rounds ----------

  /** The hash tables of the listed vertices are those of the graph. */
  ghost predicate Describes(g: Graph, vs: seq<Vertex>) {
    forall v :: v in vs ==> v.id in g && g[v.id] == v.edgehash
  }

  /** The cached distance of v is its lightest edge to the vertices inside, or the initial distance. */
  ghost predicate CachedLightest(v: Vertex, inside: set<int>, g: Graph)
    reads v
  {
    && (forall s :: s in inside ==> v.mindist <= EdgeWeight(g, (v.id, s)))
    && v.mindist <= INFINITE
    && if inside == {} then v.mindist == INFINITE
       else exists s :: s in inside && v.mindist == EdgeWeight(g, (v.id, s))
  }

  lemma {:induction false} RelaxKeepsLightest(m: int, v: int, inside: set<int>, s: int, g: Graph)
    requires v in g && m <= INFINITE
    requires forall x :: x in inside - {s} ==> m <= EdgeWeight(g, (v, x))
    requires if inside - {s} == {} then m == INFINITE
             else exists x :: x in inside - {s} && m == EdgeWeight(g, (v, x))
    requires s in inside
    ensures var m' := Relax(m, HashLookup(s, g[v]));
            && m' <= INFINITE
            && (forall x :: x in inside ==> m' <= EdgeWeight(g, (v, x)))
            && exists x :: x in inside && m' == EdgeWeight(g, (v, x))
  {
    var m' := Relax(m, HashLookup(s, g[v]));
    assert EdgeWeight(g, (v, s)) == Relax(INFINITE, HashLookup(s, g[v]));
    if m' == m && inside - {s} != {} {
      var x :| x in inside - {s} && m == EdgeWeight(g, (v, x));
      assert x in inside && m' == EdgeWeight(g, (v, x));
    } else {
      assert s in inside && m' == EdgeWeight(g, (v, s));
    }
  }

  lemma {:induction false} HeadStandsFirst(vs: seq<Vertex>, r: nat)
    requires NoRepeats(vs) && r < |vs|
    ensures forall v :: v in Without(vs, r) <==> v in vs && v != vs[r]
    ensures NoRepeats(Without(vs, r))
  {
    var ws := Without(vs, r);
    forall v | v in vs && v != vs[r]
      ensures v in ws
    {
      var i :| 0 <= i < |vs| && vs[i] == v;
      assert v == ws[if i < r then i else i - 1];
    }
    forall i | 0 <= i < |ws|
      ensures ws[i] in vs && ws[i] != vs[r]
    {
      assert ws[i] == vs[if i < r then i else i + 1];
    }
  }

  lemma {:induction false} TailOfListDistinct(vs: seq<Vertex>)
    requires NoRepeats(vs) && vs != []
    ensures NoRepeats(vs[1..]) && forall v :: v in vs[1..] <==> v in vs && v != vs[0]
  {
    HeadStandsFirst(vs, 0);
    assert Without(vs, 0) == vs[1..];
  }

  lemma {:induction false} TailOfList(p: Vertex?, vs: seq<Vertex>)
    requires IsList(p, vs) && NoRepeats(vs) && p != null
    ensures vs != [] && vs[0] == p && IsList(p.next, vs[1..]) && NoRepeats(vs[1..])
    ensures forall v :: v in vs[1..] <==> v in vs && v != p
  {
    assert vs[0].next == HeadOf(vs, 1);
    TailOfListDistinct(vs);
    assert forall i :: 0 <= i < |vs| - 1 ==> vs[1..][i] == vs[i + 1];
  }

  lemma {:induction false} FindInserted(vs: seq<Vertex>, inserted: Vertex) returns (r: nat)
    requires NoRepeats(vs)
    ensures StandsAt(vs, inserted, r) && NoRepeats(Without(vs, r))
    ensures forall v :: v in Without(vs, r) <==> v in vs && v != inserted
  {
    if i: nat :| i < |vs| && vs[i] == inserted {
      r := i;
      HeadStandsFirst(vs, r);
    } else {
      r := |vs|;
    }
  }

  /** The listed vertices that are not inserted yet. */
  ghost function Rest(cur: seq<Vertex>, inserted: Vertex): (s: set<Vertex>) {
    set v | v in cur && v != inserted
  }

  ghost predicate Separates(vs: seq<Vertex>, rest: set<Vertex>, inside: set<int>) {
    && inside <= Ids(vs)
    && (forall v :: v in rest ==> v in vs)
    && forall v :: v in vs ==> (v.id in inside <==> v !in rest)
  }

  /** Between rounds: n vertices are left, with distances up to date but for the vertex inserted last. */
  ghost predicate Round(vs: seq<Vertex>, cur: seq<Vertex>, inserted: Vertex, inside: set<int>, n: nat, g: Graph)
    reads cur
  {
    var rest := Rest(cur, inserted);
    && Separates(vs, rest, inside) && |rest| == n && inserted.id in inside && Describes(g, cur)
    && forall v :: v in rest ==> CachedLightest(v, inside - {inserted.id}, g)
  }

  lemma {:induction false} SizeOfList(vs: seq<Vertex>)
    requires NoRepeats(vs)
    ensures |set v | v in vs| == |vs|
  {
    if vs != [] {
      SizeOfList(vs[1..]);
      assert (set v | v in vs) == {vs[0]} + (set v | v in vs[1..]);
      assert vs[0] !in vs[1..];
    }
  }

  lemma {:induction false} SameId(vs: seq<Vertex>, v: Vertex, w: Vertex)
    requires NoRepeats(vs) && v in vs && w in vs
    ensures v.id == w.id <==> v == w
  {
    var i, j :| 0 <= i < |vs| && 0 <= j < |vs| && vs[i] == v && vs[j] == w;
  }

  lemma {:induction false} RoundStart(vs: seq<Vertex>, g: Graph)
    requires vs != [] && NoRepeats(vs) && Describes(g, vs)
    requires forall v :: v in vs ==> v.mindist == INFINITE
    ensures Round(vs, vs[1..], vs[0], {vs[0].id}, |vs| - 1, g)
  {
    TailOfListDistinct(vs);
    SizeOfList(vs[1..]);
    assert Rest(vs[1..], vs[0]) == set v | v in vs[1..];
    assert vs[0] in vs;
    forall v | v in vs
      ensures v.id == vs[0].id <==> v == vs[0]
    {
      SameId(vs, v, vs[0]);
    }
    assert {vs[0].id} - {vs[0].id} == {};
  }

  /** The nearest remaining vertex hangs on the lightest edge that leaves the vertices inside. */
  lemma {:induction false} NextEdge(vs: seq<Vertex>, cur: seq<Vertex>, rest: set<Vertex>, vert: Vertex,
                                    inside: set<int>, g: Graph)
    returns (e: Edge)
    requires Separates(vs, rest, inside) && rest == (set v | v in cur) && inside != {} && Symmetric(g)
    requires forall v :: v in cur ==> CachedLightest(v, inside, g)
    requires vert in cur && forall v :: v in cur ==> vert.mindist <= v.mindist
    ensures e.0 == vert.id && e.0 !in inside && e.1 in inside && EdgeWeight(g, e) == vert.mindist
    ensures LightestCrossing(inside, Ids(vs), e, Weights(g))
  {
    assert CachedLightest(vert, inside, g);
    var s :| s in inside && vert.mindist == EdgeWeight(g, (vert.id, s));
    e := (vert.id, s);
    forall f: Edge | f.0 in Ids(vs) && f.1 in Ids(vs) && Crosses(f, inside)
      ensures Weights(g)(e) <= Weights(g)(f)
    {
      var (a, b) := if f.0 in inside then (f.1, f.0) else (f.0, f.1);
      var v :| v in vs && v.id == a;
      assert CachedLightest(v, inside, g);
      assert EdgeWeight(g, (a, b)) == EdgeWeight(g, (b, a));
    }
  }

  lemma {:induction false} NextRound(vs: seq<Vertex>, cur: seq<Vertex>, rest: set<Vertex>, vert: Vertex,
                                     inside: set<int>, m: nat, g: Graph)
    requires NoRepeats(vs) && Separates(vs, rest, inside) && rest == (set v | v in cur) && Describes(g, cur)
    requires forall v :: v in cur ==> CachedLightest(v, inside, g)
    requires vert in cur && |rest| == m + 1
    ensures Round(vs, cur, vert, inside + {vert.id}, m, g)
  {
    assert Rest(cur, vert) == rest - {vert};
    assert vert in rest;
    assert inside + {vert.id} - {vert.id} == inside;
    forall v | v in vs
      ensures v.id == vert.id <==> v == vert
    {
      SameId(vs, v, vert);
    }
  }

  lemma {:induction false} RestNotEmpty(cur: seq<Vertex>, rest: set<Vertex>)
    requires (forall v :: v in cur <==> v in rest) && |rest| > 0
    ensures cur != []
  {
    var v :| v in rest;
  }

  /** The vertices inserted so far and the tree on them. */
  datatype Progress = Progress(inside: set<int>, tree: set<Edge>)

  /** The invariant of the main loop: n vertices are left, and the tree is optimal for all others. */
  ghost function Optimal(list: Vertex?, vs: seq<Vertex>, cur: seq<Vertex>, inserted: Vertex, n: nat, g: Graph)
    : (r: iset<Progress>)
    reads cur
  {
    iset p: Progress | Listed(list, cur, vs) && RunningWith(vs, cur, inserted, p.inside, p.tree, n, g)
  }

  ghost predicate RunningWith(vs: seq<Vertex>, cur: seq<Vertex>, inserted: Vertex, inside: set<int>, tree: set<Edge>,
                              n: nat, g: Graph)
    reads cur
  {
    Round(vs, cur, inserted, inside, n, g) && PrimState(Ids(vs), inside, tree, Weights(g)) && Symmetric(g)
  }

  /** The list from p on holds some of the vertices vs. */
  ghost predicate Listed(p: Vertex?, cur: seq<Vertex>, vs: seq<Vertex>)
    reads cur
  {
    IsList(p, cur) && NoRepeats(cur) && NoRepeats(vs) && forall v :: v in cur ==> v in vs
  }

  lemma {:induction false} IsOptimal(list: Vertex?, vs: seq<Vertex>, cur: seq<Vertex>, inserted: Vertex, p: Progress,
                                     n: nat, g: Graph)
    requires Listed(list, cur, vs) && RunningWith(vs, cur, inserted, p.inside, p.tree, n, g)
    ensures p in Optimal(list, vs, cur, inserted, n, g)
  {
  }

  /** Inserting the nearest vertex takes the state from one round to the next. */
  lemma {:induction false} Advance(list: Vertex?, vs: seq<Vertex>, cur: seq<Vertex>, rest: set<Vertex>, vert: Vertex,
                                   p: Progress, m: nat, g: Graph)
    returns (q: Progress)
    requires Listed(list, cur, vs) && Describes(g, cur) && Symmetric(g)
    requires Separates(vs, rest, p.inside) && (forall v :: v in cur <==> v in rest) && p.inside != {}
    requires forall v :: v in cur ==> CachedLightest(v, p.inside, g)
    requires vert in cur && forall v :: v in cur ==> vert.mindist <= v.mindist
    requires PrimState(Ids(vs), p.inside, p.tree, Weights(g)) && |rest| == m + 1
    ensures q in Optimal(list, vs, cur, vert, m, g)
    ensures Weight(q.tree, Weights(g)) == Weight(p.tree, Weights(g)) + vert.mindist
  {
    assert rest == set v | v in cur;
    var e := NextEdge(vs, cur, rest, vert, p.inside, g);
    PrimStep(Ids(vs), p.inside, p.tree, e, e.1, vert.id, Weights(g));
    NextRound(vs, cur, rest, vert, p.inside, m, g);
    q := Progress(p.inside + {vert.id}, p.tree + {e});
    IsOptimal(list, vs, cur, vert, q, m, g);
  }

  lemma {:induction false} RunningStart(p: Vertex?, vs: seq<Vertex>, g: Graph)
    requires IsList(p, vs) && p != null && NoRepeats(vs) && Describes(g, vs) && Symmetric(g)
    requires forall v :: v in vs ==> v.mindist == INFINITE
    ensures vs != [] && p == vs[0] && Weight({}, Weights(g)) == 0
    ensures Progress({p.id}, {}) in Optimal(p.next, vs, vs[1..], p, |vs| - 1, g)
  {
    TailOfList(p, vs);
    PrimStart(Ids(vs), vs[0].id, Weights(g));
    RoundStart(vs, g);
    IsOptimal(p.next, vs, vs[1..], p, Progress({vs[0].id}, {}), |vs| - 1, g);
  }

  lemma {:induction false} RunningEnd(list: Vertex?, vs: seq<Vertex>, cur: seq<Vertex>, inserted: Vertex, p: Progress,
                                      g: Graph)
    requires p in Optimal(list, vs, cur, inserted, 0, g)
    ensures MinimumSpanningTree(Ids(vs), p.tree, Weights(g))
    ensures Complete(Ids(vs), g) ==>
              MinimumSpanningTree(Ids(vs), p.tree, Entries(g)) &&
              Weight(p.tree, Weights(g)) == Weight(p.tree, Entries(g))
  {
    assert p.inside == Ids(vs);
    PrimEnd(Ids(vs), p.tree, Weights(g));
    if Complete(Ids(vs), g) {
      EntriesWeigh(Ids(vs), p.tree, g);
    }
  }

  class Prim {
    var MyVertexList: Vertex?

    /**
     One round: take the inserted vertex out of the list wherever it stands, bring the distances of the
     others up to date and return the nearest.
     */
    method DoAllBlueRule(inserted: Vertex, ghost vs: seq<Vertex>, ghost inside: set<int>, ghost g: Graph)
      returns (br: BlueReturn, ghost ws: seq<Vertex>)
      requires IsList(MyVertexList, vs) && NoRepeats(vs) && Describes(g, vs) && inserted.id in inside
      requires forall v :: v in vs && v != inserted ==> CachedLightest(v, inside - {inserted.id}, g)
      modifies this, set v | v in vs
      ensures IsList(MyVertexList, ws) && NoRepeats(ws) && forall v :: v in ws <==> v in vs && v != inserted
      ensures forall v :: v in ws ==> CachedLightest(v, inside, g)
      ensures ws != [] ==> br.vert in ws && br.dist == br.vert.mindist
      ensures forall v :: v in ws ==> br.dist <= v.mindist
    {
      ghost var us := vs;
      if inserted == MyVertexList {
        TailOfList(MyVertexList, vs);
        MyVertexList := MyVertexList.next;
        us := vs[1..];
      }
      ghost var r := FindInserted(us, inserted);
      br := BlueRule(inserted, MyVertexList, us, r);
      ws := Without(us, r);
      forall v | v in ws
        ensures CachedLightest(v, inside, g)
      {
        RelaxKeepsLightest(old(v.mindist), v.id, inside, inserted.id, g);
      }
    }

    /** One round of the main loop, with what it does to the tree under construction. */
    method NextInserted(inserted: Vertex, ghost vs: seq<Vertex>, ghost cur: seq<Vertex>, ghost p: Progress,
                        ghost n: nat, ghost g: Graph)
      returns (vert: Vertex, dist: int, ghost next: seq<Vertex>, ghost q: Progress, ghost m: nat)
      requires n > 0 && p in Optimal(MyVertexList, vs, cur, inserted, n, g)
      modifies this, set v | v in vs
      ensures q in Optimal(MyVertexList, vs, next, vert, m, g) && m == n - 1
      ensures Weight(q.tree, Weights(g)) == Weight(p.tree, Weights(g)) + dist
    {
      ghost var rest := Rest(cur, inserted);
      var br;
      br, next := DoAllBlueRule(inserted, cur, p.inside, g);
      RestNotEmpty(next, rest);
      vert := br.vert;
      dist := br.dist;
      m := n - 1;
      q := Advance(MyVertexList, vs, next, rest, vert, p, m, g);
    }

    /**
     On the vertices vs, listed from vlist on, the returned cost is the weight of a minimum spanning tree
     of the graph; if the graph is complete, its edges weigh what the hash tables hold.
     */
    method ComputeMst(vlist: Vertex, numvert: nat, ghost vs: seq<Vertex>, ghost g: Graph)
      returns (cost: int, ghost tree: set<Edge>)
      requires IsList(vlist, vs) && NoRepeats(vs) && Describes(g, vs) && Symmetric(g) && |vs| == numvert
      requires forall v :: v in vs ==> v.mindist == INFINITE
      modifies this, set v | v in vs
      ensures MinimumSpanningTree(Ids(vs), tree, Weights(g)) && cost == Weight(tree, Weights(g))
      ensures Complete(Ids(vs), g) ==>
                MinimumSpanningTree(Ids(vs), tree, Entries(g)) && cost == Weight(tree, Entries(g))
    {
      cost := 0;
      var inserted: Vertex := vlist;
      var tmp := inserted.next;
      MyVertexList := tmp;
      RunningStart(vlist, vs, g);
      cost, tree := InsertRest(inserted, numvert - 1, vs, vs[1..], g);
    }

    /** The loop that inserts all vertices after the first. */
    method InsertRest(first: Vertex, numvert: nat, ghost vs: seq<Vertex>, ghost others: seq<Vertex>, ghost g: Graph)
      returns (cost: int, ghost tree: set<Edge>)
      requires Progress({first.id}, {}) in Optimal(MyVertexList, vs, others, first, numvert, g)
      requires Weight({}, Weights(g)) == 0
      modifies this, set v | v in vs
      ensures MinimumSpanningTree(Ids(vs), tree, Weights(g)) && cost == Weight(tree, Weights(g))
      ensures Complete(Ids(vs), g) ==>
                MinimumSpanningTree(Ids(vs), tree, Entries(g)) && cost == Weight(tree, Entries(g))
    {
      cost := 0;
      var n: nat := numvert;
      var inserted := first;
      ghost var cur, p, left := others, Progress({first.id}, {}), n;
      while n > 0
        invariant p in Optimal(MyVertexList, vs, cur, inserted, left, g) && left == n
        invariant cost == Weight(p.tree, Weights(g))
      {
        var dist;
        inserted, dist, cur, p, left := NextInserted(inserted, vs, cur, p, left, g);
        n := n - 1;
        cost := cost + dist;
      }
      RunningEnd(MyVertexList, vs, cur, inserted, p, g);
      tree := p.tree;
    }
  }
}
