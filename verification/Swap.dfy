/**
 Exchanging the values of two subtrees with three explicit stacks and a fixed buffer: the traversals stay in
 lockstep, batch after batch, and no stack outgrows its array.
 */
module Swap {
  import opened Bitonic
  import opened Bisort

  const COLLECT_SIZE: nat := 256
  const DFS_SIZE: nat := 20

  /** A stack of nodes; ghostly, of the trees below them, in a tree of height h. */
  class Stack {
    var top: int
    const handles: array<HNode?>
    ghost const h: nat
    ghost var ts: seq<Shape>
    ghost var ks: seq<nat>

    /** The stack of one whole tree. */
    constructor (t: HNode, ghost a: Shape, ghost h: nat)
      requires h <= DFS_SIZE && Full(a, h) && Linked(a, t)
      ensures Valid() && fresh(handles) && Rest(ts) == Pre(a)
    {
      handles := new HNode?[DFS_SIZE](_ => null);
      top := -1;
      this.h := h;
      ts, ks := [a], [h];
      new;
      assert allocated(Nodes(a));
      AloneStacked(a, t, h);
      Push(t);
    }

    ghost predicate InBounds()
      reads this
    {
      handles.Length == DFS_SIZE && -1 <= top < DFS_SIZE
    }

    /** The nodes on the stack, the top last. */
    ghost function Contents(): (s: seq<HNode?>)
      reads this, handles
      requires InBounds()
      ensures |s| == top + 1
    {
      handles[..top + 1]
    }

    ghost predicate Valid()
      reads this, handles, NodesOf(ts)`left, NodesOf(ts)`right
    {
      InBounds() && h <= DFS_SIZE && Stacked(ts, ks, Contents(), h)
    }

    method Push(v: HNode?)
      requires InBounds() && top < DFS_SIZE - 1
      modifies `top, handles
      ensures InBounds() && Contents() == old(Contents()) + [v]
    {
      top := top + 1;
      handles[top] := v;
    }

    method Pop() returns (v: HNode?)
      requires InBounds() && top >= 0
      modifies `top
      ensures InBounds() && v == old(Contents())[old(top)] && Contents() == old(Contents())[..old(top)]
    {
      v := handles[top];
      top := top - 1;
    }
  }

  // ---------- What is still to be visited ----------

  /** The nodes of a tree, each before those below it, the left ones first. */
  ghost function Pre(t: Shape): (s: seq<HNode>) {
    match t
    case Empty => []
    case At(l, n, r) => [n] + Pre(l) + Pre(r)
  }

  /** A perfect shape of height k. */
  ghost predicate Full(t: Shape, k: nat) {
    if k == 0 then t.Empty? else t.At? && Full(t.l, k - 1) && Full(t.r, k - 1)
  }

  ghost function Of(r: seq<HNode>): (s: set<HNode>) {
    set n | n in r
  }

  /** The nodes below a stack of trees, the topmost tree first. */
  ghost function Rest(ts: seq<Shape>): (s: seq<HNode>) {
    if ts == [] then [] else Pre(ts[|ts| - 1]) + Rest(ts[..|ts| - 1])
  }

  ghost function NodesOf(ts: seq<Shape>): (s: set<HNode>) {
    set i, n | 0 <= i < |ts| && n in Nodes(ts[i]) :: n
  }

  /** The tree at place i is perfect and hangs off the node there; the higher up the stack, the lower it is. */
  ghost predicate Fits(t: Shape, k: nat, p: HNode?, i: nat, last: bool, h: nat)
    reads Nodes(t)`left, Nodes(t)`right
  {
    k > 0 && Full(t, k) && Linked(t, p) && k + i <= if last then h else h - 1
  }

  ghost function Misfits(ts: seq<Shape>, ks: seq<nat>, s: seq<HNode?>, h: nat): (r: set<int>)
    requires |ts| == |ks| == |s|
    reads NodesOf(ts)`left, NodesOf(ts)`right
  {
    set i | 0 <= i < |ts| && !Fits(ts[i], ks[i], s[i], i, i == |ts| - 1, h)
  }

  /** The trees below the nodes of a stack.  Their heights keep the stack within the height h of the whole tree. */
  ghost predicate Stacked(ts: seq<Shape>, ks: seq<nat>, s: seq<HNode?>, h: nat)
    reads NodesOf(ts)`left, NodesOf(ts)`right
  {
    |ts| == |ks| == |s| && Misfits(ts, ks, s, h) == {}
  }

  lemma {:induction false} StackedFits(ts: seq<Shape>, ks: seq<nat>, s: seq<HNode?>, h: nat, i: nat)
    requires Stacked(ts, ks, s, h) && i < |ts|
    ensures Fits(ts[i], ks[i], s[i], i, i == |ts| - 1, h)
  {
    assert i !in Misfits(ts, ks, s, h);
  }

  /** What popping a node and pushing its children leaves. */
  ghost function Popped(ts: seq<Shape>, ks: seq<nat>): (r: (seq<Shape>, seq<nat>))
    requires |ts| == |ks| > 0 && ts[|ts| - 1].At?
    ensures |r.0| == |r.1|
  {
    var (m, t, k) := (|ts| - 1, ts[|ts| - 1], ks[|ts| - 1]);
    if k <= 1 then (ts[..m], ks[..m]) else (ts[..m] + [t.r, t.l], ks[..m] + [k - 1, k - 1])
  }

  lemma {:induction false} PoppedStacked(ts: seq<Shape>, ks: seq<nat>, s: seq<HNode?>, h: nat)
    requires Stacked(ts, ks, s, h) && ts != []
    ensures ts[|ts| - 1].At? && s[|s| - 1] == ts[|ts| - 1].n && |ts| <= h && ks[|ts| - 1] > 0
    ensures var (m, v, r) := (|ts| - 1, ts[|ts| - 1].n, Popped(ts, ks));
            && (ks[m] == 1 ==> v.left == null && Stacked(r.0, r.1, s[..m], h))
            && (ks[m] > 1 ==> v.left != null && |ts| < h && Stacked(r.0, r.1, s[..m] + [v.right, v.left], h))
  {
    StackedFits(ts, ks, s, h, |ts| - 1);
    var (m, t, r) := (|ts| - 1, ts[|ts| - 1], Popped(ts, ks));
    assert Full(t.l, ks[m] - 1) && Linked(t.l, t.n.left);
    var s' := if ks[m] == 1 then s[..m] else s[..m] + [t.n.right, t.n.left];
    forall i | 0 <= i < |r.0|
      ensures Fits(r.0[i], r.1[i], s'[i], i, i == |r.0| - 1, h)
    {
      if i < m {
        StackedFits(ts, ks, s, h, i);
        assert r.0[i] == ts[i] && r.1[i] == ks[i] && s'[i] == s[i];
      }
    }
    assert Misfits(r.0, r.1, s', h) == {};
  }

  lemma {:induction false} PoppedRest(ts: seq<Shape>, ks: seq<nat>)
    requires |ts| == |ks| > 0 && ks[|ts| - 1] > 0 && Full(ts[|ts| - 1], ks[|ts| - 1])
    ensures ts[|ts| - 1].At? && Rest(ts) == [ts[|ts| - 1].n] + Rest(Popped(ts, ks).0)
  {
    var (m, t, k) := (|ts| - 1, ts[|ts| - 1], ks[|ts| - 1]);
    if k == 1 {
      assert Pre(t) == [t.n];
    } else {
      var u := ts[..m] + [t.r, t.l];
      assert u[..m + 1] == ts[..m] + [t.r] && (ts[..m] + [t.r])[..m] == ts[..m];
      assert Rest(u) == Pre(t.l) + (Pre(t.r) + Rest(ts[..m]));
    }
  }

  lemma {:induction false} SomeRest(ts: seq<Shape>, ks: seq<nat>, s: seq<HNode?>, h: nat)
    requires Stacked(ts, ks, s, h)
    ensures Rest(ts) == [] <==> ts == []
  {
    if ts != [] {
      StackedFits(ts, ks, s, h, |ts| - 1);
      PoppedRest(ts, ks);
    }
  }

  /** A tree alone on a stack. */
  lemma {:induction false} AloneStacked(t: Shape, p: HNode, k: nat)
    requires Full(t, k) && Linked(t, p)
    ensures k > 0 && Stacked([t], [k], [p], k) && Rest([t]) == Pre(t)
  {
    assert Rest([t]) == Pre(t) + Rest([t][..0]);
    assert Misfits([t], [k], [p], k) == {};
  }

  // ---------- Visiting ----------

  datatype Visitor = VisitCollect | VisitCollectReplace | VisitReplace

  /** What a visit leaves in the buffer and in the node. */
  function Kept(visit: Visitor, collected: int, value: int): (n: int) {
    if visit.VisitReplace? then collected else value
  }

  function Left(visit: Visitor, collected: int, value: int): (n: int) {
    if visit.VisitCollect? then value else collected
  }

  method Visit(visit: Visitor, t: HNode, collection: array<int>, i: nat)
    requires i < collection.Length
    modifies t`value, collection
    ensures forall j :: 0 <= j < collection.Length && j != i ==> collection[j] == old(collection[j])
    ensures collection[i] == Kept(visit, old(collection[i]), old(t.value))
    ensures t.value == Left(visit, old(collection[i]), old(t.value))
  {
    match visit
    case VisitCollect =>
      collection[i] := t.value;
    case VisitCollectReplace =>
      var temp := collection[i];
      collection[i] := t.value;
      t.value := temp;
    case VisitReplace =>
      t.value := collection[i];
  }

  ghost predicate Distinct(s: seq<HNode>) {
    forall i, j :: 0 <= i < j < |s| ==> s[i] != s[j]
  }

  /** As many as one batch takes. */
  function Capped(n: nat): (r: nat) {
    if n < COLLECT_SIZE then n else COLLECT_SIZE
  }

  /** The nodes' values after n visits to nodes of values vs, with the buffer cs. */
  function LeftBy(visit: Visitor, n: nat, vs: seq<int>, cs: seq<int>): (s: seq<int>)
    requires n <= |vs| && n <= |cs|
  {
    seq(|vs|, i requires 0 <= i < |vs| => if i < n then Left(visit, cs[i], vs[i]) else vs[i])
  }

  /** The buffer after n visits to nodes of values vs, when it held cs before. */
  function KeptBy(visit: Visitor, n: nat, vs: seq<int>, cs: seq<int>): (s: seq<int>)
    requires n <= |vs| && n <= |cs|
  {
    seq(|cs|, i requires 0 <= i < |cs| => if i < n then Kept(visit, cs[i], vs[i]) else cs[i])
  }

  ghost function Wrong(r: seq<HNode>, vs: seq<int>): (s: set<int>)
    requires |r| == |vs|
    reads Of(r)
  {
    set i | 0 <= i < |r| && r[i].value != vs[i]
  }

  /** The nodes r have the values vs. */
  ghost predicate Have(r: seq<HNode>, vs: seq<int>)
    reads Of(r)
  {
    |r| == |vs| && Wrong(r, vs) == {}
  }

  lemma {:induction false} HaveAll(r: seq<HNode>, vs: seq<int>)
    requires Have(r, vs)
    ensures forall i :: 0 <= i < |r| ==> r[i].value == vs[i]
  {
    forall i | 0 <= i < |r|
      ensures r[i].value == vs[i]
    {
      assert i !in Wrong(r, vs);
    }
  }

  /** One node off the stack, visited, and its children onto the stack. */
  method Advance(s: Stack, collection: array<int>, visit: Visitor, num: nat, ghost v: HNode)
    requires s.Valid() && num < collection.Length && s.top >= 0 && s.ts[s.top].At? && s.ts[s.top].n == v
    modifies s, s.handles, collection, v`value
    ensures s.Valid() && s.ts == Popped(old(s.ts), old(s.ks)).0
    ensures forall j :: 0 <= j < collection.Length && j != num ==> collection[j] == old(collection[j])
    ensures collection[num] == Kept(visit, old(collection[num]), old(v.value))
    ensures v.value == Left(visit, old(collection[num]), old(v.value))
  {
    PoppedStacked(s.ts, s.ks, s.Contents(), s.h);
    ghost var (p, c) := (Popped(s.ts, s.ks), s.Contents());
    assert allocated(NodesOf(p.0));
    s.ts, s.ks := p.0, p.1;
    var u := s.Pop();
    assert s.Contents() == c[..|c| - 1];
    Visit(visit, u, collection, num);
    if u.left != null {
      s.Push(u.right);
      s.Push(u.left);
      assert s.Contents() == c[..|c| - 1] + [u.right, u.left];
    }
  }

  method Next(s: Stack, collection: array<int>, visit: Visitor, num: nat,
              ghost r: seq<HNode>, ghost vs: seq<int>, ghost cs: seq<int>)
    requires s.Valid() && s.top >= 0 && Distinct(r) && |vs| == |r| && |cs| == collection.Length
    requires num < collection.Length && num < |r| && s.ts[s.top].At? && s.ts[s.top].n == r[num]
    requires Have(r, LeftBy(visit, num, vs, cs)) && collection[..] == KeptBy(visit, num, vs, cs)
    modifies s, s.handles, collection, {r[num]}`value
    ensures s.Valid() && s.ts == Popped(old(s.ts), old(s.ks)).0
    ensures Have(r, LeftBy(visit, num + 1, vs, cs)) && collection[..] == KeptBy(visit, num + 1, vs, cs)
  {
    ghost var b := collection[..];
    HaveAll(r, LeftBy(visit, num, vs, cs));
    assert b[num] == cs[num];
    Advance(s, collection, visit, num, r[num]);
    assert Wrong(r, LeftBy(visit, num + 1, vs, cs)) == {};
  }

  /** Up to 256 nodes are visited, in order; the stack then holds what comes after them. */
  method SwapDFS(s: Stack, collection: array<int>, visit: Visitor, ghost vs: seq<int>)
    requires s.Valid() && collection.Length == COLLECT_SIZE && Distinct(Rest(s.ts)) && Have(Rest(s.ts), vs)
    modifies s, s.handles, collection, Of(Rest(s.ts))`value
    ensures s.Valid() && Rest(s.ts) == Rest(old(s.ts))[Capped(|vs|)..]
    ensures Have(Rest(old(s.ts)), LeftBy(visit, Capped(|vs|), vs, old(collection[..])))
    ensures collection[..] == KeptBy(visit, Capped(|vs|), vs, old(collection[..]))
  {
    var num: nat := 0;
    ghost var (r, cs) := (Rest(s.ts), collection[..]);
    assert LeftBy(visit, 0, vs, cs) == vs && KeptBy(visit, 0, vs, cs) == cs;
    SomeRest(s.ts, s.ks, s.Contents(), s.h);
    while s.top >= 0 && num < COLLECT_SIZE
      invariant s.Valid() && num <= COLLECT_SIZE && num <= |r| && Rest(s.ts) == r[num..]
      invariant s.top >= 0 <==> num < |r|
      invariant Have(r, LeftBy(visit, num, vs, cs)) && collection[..] == KeptBy(visit, num, vs, cs)
      decreases COLLECT_SIZE - num
    {
      StackedFits(s.ts, s.ks, s.Contents(), s.h, s.top);
      PoppedRest(s.ts, s.ks);
      Next(s, collection, visit, num, r, vs, cs);
      num := num + 1;
      SomeRest(s.ts, s.ks, s.Contents(), s.h);
    }
  }

  // ---------- Exchanging two trees ----------

  function Size(k: nat): (n: nat) {
    if k == 0 then 0 else 1 + 2 * Size(k - 1)
  }

  /** The perfect tree of height k with these values in pre-order. */
  ghost function Built(k: nat, vs: seq<int>): (u: Tree)
    requires |vs| == Size(k)
  {
    if k == 0 then Nil
    else var m := Size(k - 1); Node(Built(k - 1, vs[1..m + 1]), vs[0], Built(k - 1, vs[m + 1..]))
  }

  lemma {:induction false} PreSize(t: Shape, k: nat)
    requires Full(t, k)
    ensures |Pre(t)| == Size(k)
  {
    if k > 0 {
      PreSize(t.l, k - 1);
      PreSize(t.r, k - 1);
    }
  }

  lemma {:induction false} PreNodes(t: Shape)
    ensures Of(Pre(t)) == Nodes(t)
  {
    match t
    case Empty =>
    case At(l, n, r) =>
      PreNodes(l);
      PreNodes(r);
      assert Of(Pre(t)) == {n} + Of(Pre(l)) + Of(Pre(r));
  }

  lemma {:induction false} DistinctJoin(n: HNode, p: seq<HNode>, q: seq<HNode>)
    requires Distinct(p) && Distinct(q) && n !in p && n !in q && forall m :: m in p ==> m !in q
    ensures Distinct([n] + p + q)
  {
    var s := [n] + p + q;
    forall i, j | 0 <= i < j < |s|
      ensures s[i] != s[j]
    {
      if j <= |p| {
        assert s[j] == p[j - 1] && s[j] in p;
        assert i > 0 ==> s[i] == p[i - 1];
      } else {
        assert s[j] == q[j - 1 - |p|] && s[j] in q;
        if i > |p| {
          assert s[i] == q[i - 1 - |p|];
        } else if i > 0 {
          assert s[i] == p[i - 1] && s[i] in p;
        }
      }
    }
  }

  lemma {:induction false} PreDistinct(t: Shape)
    requires Unshared(t)
    ensures Distinct(Pre(t))
  {
    match t
    case Empty =>
    case At(l, n, r) =>
      PreDistinct(l);
      PreDistinct(r);
      PreNodes(l);
      PreNodes(r);
      assert forall m :: m in Pre(l) <==> m in Of(Pre(l));
      assert forall m :: m in Pre(r) <==> m in Of(Pre(r));
      DistinctJoin(n, Pre(l), Pre(r));
  }

  lemma {:induction false} HaveParts(t: Shape, k: nat, vs: seq<int>)
    requires Full(t, k) && k > 0 && Have(Pre(t), vs)
    ensures var m := Size(k - 1);
            && |vs| == Size(k) && t.n.value == vs[0]
            && Have(Pre(t.l), vs[1..m + 1]) && Have(Pre(t.r), vs[m + 1..])
  {
    var m := Size(k - 1);
    PreSize(t, k);
    PreSize(t.l, k - 1);
    PreSize(t.r, k - 1);
    var s := Pre(t);
    HaveAll(s, vs);
    forall i | 0 <= i < m
      ensures Pre(t.l)[i].value == vs[1..m + 1][i] && Pre(t.r)[i].value == vs[m + 1..][i]
    {
      assert Pre(t.l)[i] == s[i + 1] && Pre(t.r)[i] == s[m + 1 + i];
    }
    assert Wrong(Pre(t.l), vs[1..m + 1]) == {} && Wrong(Pre(t.r), vs[m + 1..]) == {};
  }

  lemma {:induction false} ContentBuilt(t: Shape, k: nat, vs: seq<int>)
    requires Full(t, k) && Have(Pre(t), vs)
    ensures |vs| == Size(k) && Content(t) == Built(k, vs)
  {
    PreSize(t, k);
    if k > 0 {
      var m := Size(k - 1);
      HaveParts(t, k, vs);
      ContentBuilt(t.l, k - 1, vs[1..m + 1]);
      ContentBuilt(t.r, k - 1, vs[m + 1..]);
    }
  }

  /** Where not exactly the first d values have changed sides. */
  ghost function Misplaced(p: seq<HNode>, q: seq<HNode>, v: seq<int>, w: seq<int>, d: nat): (s: set<int>)
    requires |p| == |q| == |v| == |w|
    reads Of(p), Of(q)
  {
    set i | 0 <= i < |p| && (p[i].value, q[i].value) != if i < d then (w[i], v[i]) else (v[i], w[i])
  }

  /** The first d values have changed sides. */
  ghost predicate Exchanged(p: seq<HNode>, q: seq<HNode>, v: seq<int>, w: seq<int>, d: nat)
    requires |p| == |q| == |v| == |w|
    reads Of(p), Of(q)
  {
    Misplaced(p, q, v, w, d) == {}
  }

  lemma {:induction false} ExchangedAll(p: seq<HNode>, q: seq<HNode>, v: seq<int>, w: seq<int>, d: nat)
    requires |p| == |q| == |v| == |w| && Exchanged(p, q, v, w, d)
    ensures forall i :: 0 <= i < |p| ==> (p[i].value, q[i].value) == if i < d then (w[i], v[i]) else (v[i], w[i])
  {
    forall i | 0 <= i < |p|
      ensures (p[i].value, q[i].value) == if i < d then (w[i], v[i]) else (v[i], w[i])
    {
      assert i !in Misplaced(p, q, v, w, d);
    }
  }

  /** Visits that replace leave the buffer's values in the nodes. */
  lemma {:induction false} LeavesBuffer(visit: Visitor, n: nat, vs: seq<int>, cs: seq<int>)
    requires n <= |vs| && n <= |cs|
    ensures LeftBy(visit, n, vs, cs) == if visit.VisitCollect? then vs else cs[..n] + vs[n..]
  {
  }

  /** Visits that collect leave the nodes' values in the buffer. */
  lemma {:induction false} KeepsValues(visit: Visitor, n: nat, vs: seq<int>, cs: seq<int>)
    requires n <= |vs| && n <= |cs| && !visit.VisitReplace?
    ensures KeptBy(visit, n, vs, cs)[..n] == vs[..n]
  {
  }

  /** Collect from the first tree and exchange with the second. */
  method Forth(c: Stack, s: Stack, collection: array<int>, ghost v1: seq<int>, ghost v2: seq<int>)
    requires c.Valid() && s.Valid() && collection.Length == COLLECT_SIZE && c != s && c.handles != s.handles
    requires Distinct(Rest(c.ts)) && Distinct(Rest(s.ts)) && Of(Rest(c.ts)) !! Of(Rest(s.ts))
    requires Have(Rest(c.ts), v1) && Have(Rest(s.ts), v2) && |v1| == |v2|
    modifies c, c.handles, s, s.handles, collection, Of(Rest(c.ts))`value, Of(Rest(s.ts))`value
    ensures c.Valid() && s.Valid()
    ensures Rest(c.ts) == Rest(old(c.ts))[Capped(|v1|)..] && Rest(s.ts) == Rest(old(s.ts))[Capped(|v1|)..]
    ensures Have(Rest(old(c.ts)), v1) && Have(Rest(old(s.ts)), v1[..Capped(|v1|)] + v2[Capped(|v1|)..])
    ensures collection[..Capped(|v1|)] == v2[..Capped(|v1|)]
  {
    ghost var (p, q) := (Rest(c.ts), Rest(s.ts));
    assert allocated(p) && allocated(q) && allocated(NodesOf(s.ts));
    Out(c, collection, v1);
    assert allocated(NodesOf(c.ts)) && Have(q, v2) && s.Valid();
    OutAndIn(s, collection, v2, v1);
    assert Have(p, v1) && c.Valid();
  }

  /** Collect from the first tree. */
  method Out(c: Stack, collection: array<int>, ghost vs: seq<int>)
    requires c.Valid() && collection.Length == COLLECT_SIZE && Distinct(Rest(c.ts)) && Have(Rest(c.ts), vs)
    modifies c, c.handles, collection, Of(Rest(c.ts))`value
    ensures c.Valid() && Rest(c.ts) == Rest(old(c.ts))[Capped(|vs|)..] && Have(Rest(old(c.ts)), vs)
    ensures collection[..Capped(|vs|)] == vs[..Capped(|vs|)]
  {
    ghost var b := collection[..];
    SwapDFS(c, collection, VisitCollect, vs);
    LeavesBuffer(VisitCollect, Capped(|vs|), vs, b);
    KeepsValues(VisitCollect, Capped(|vs|), vs, b);
  }

  /** Exchange what the buffer holds with the second tree. */
  method OutAndIn(s: Stack, collection: array<int>, ghost vs: seq<int>, ghost ws: seq<int>)
    requires s.Valid() && collection.Length == COLLECT_SIZE && Distinct(Rest(s.ts)) && Have(Rest(s.ts), vs)
    requires |ws| == |vs| && collection[..Capped(|vs|)] == ws[..Capped(|vs|)]
    modifies s, s.handles, collection, Of(Rest(s.ts))`value
    ensures s.Valid() && Rest(s.ts) == Rest(old(s.ts))[Capped(|vs|)..]
    ensures Have(Rest(old(s.ts)), ws[..Capped(|vs|)] + vs[Capped(|vs|)..])
    ensures collection[..Capped(|vs|)] == vs[..Capped(|vs|)]
  {
    ghost var b := collection[..];
    SwapDFS(s, collection, VisitCollectReplace, vs);
    LeavesBuffer(VisitCollectReplace, Capped(|vs|), vs, b);
    KeepsValues(VisitCollectReplace, Capped(|vs|), vs, b);
    assert b[..Capped(|vs|)] == ws[..Capped(|vs|)];
  }

  /** Put what the buffer holds into the first tree. */
  method Back(r: Stack, collection: array<int>, ghost vs: seq<int>, ghost ws: seq<int>)
    requires r.Valid() && collection.Length == COLLECT_SIZE && Distinct(Rest(r.ts)) && Have(Rest(r.ts), vs)
    requires |ws| == |vs| && collection[..Capped(|vs|)] == ws[..Capped(|vs|)]
    modifies r, r.handles, collection, Of(Rest(r.ts))`value
    ensures r.Valid() && Rest(r.ts) == Rest(old(r.ts))[Capped(|vs|)..]
    ensures Have(Rest(old(r.ts)), ws[..Capped(|vs|)] + vs[Capped(|vs|)..])
  {
    ghost var b := collection[..];
    SwapDFS(r, collection, VisitReplace, vs);
    LeavesBuffer(VisitReplace, Capped(|vs|), vs, b);
    assert b[..Capped(|vs|)] == ws[..Capped(|vs|)];
  }

  /** One batch: collect from the first tree, exchange with the second, put into the first. */
  method Batch(c: Stack, s: Stack, r: Stack, collection: array<int>, ghost v1: seq<int>, ghost v2: seq<int>)
    requires c.Valid() && s.Valid() && r.Valid() && collection.Length == COLLECT_SIZE
    requires c != s && c != r && s != r && c.handles != s.handles && c.handles != r.handles && s.handles != r.handles
    requires Rest(c.ts) == Rest(r.ts) && Distinct(Rest(c.ts)) && Distinct(Rest(s.ts))
    requires Of(Rest(c.ts)) !! Of(Rest(s.ts))
    requires Have(Rest(c.ts), v1) && Have(Rest(s.ts), v2) && |v1| == |v2|
    modifies c, c.handles, s, s.handles, r, r.handles, collection
    modifies Of(Rest(c.ts))`value, Of(Rest(s.ts))`value
    ensures c.Valid() && s.Valid() && r.Valid()
    ensures Rest(c.ts) == Rest(r.ts) == Rest(old(c.ts))[Capped(|v1|)..] && Rest(s.ts) == Rest(old(s.ts))[Capped(|v1|)..]
    ensures Exchanged(Rest(old(c.ts)), Rest(old(s.ts)), v1, v2, Capped(|v1|))
  {
    ghost var (p, q, n) := (Rest(c.ts), Rest(s.ts), Capped(|v1|));
    assert allocated(p) && allocated(q) && allocated(NodesOf(r.ts));
    Forth(c, s, collection, v1, v2);
    assert allocated(NodesOf(c.ts)) && allocated(NodesOf(s.ts)) && r.Valid();
    Back(r, collection, v1, v2);
    assert c.Valid() && s.Valid();
    ExchangedIntro(p, q, v1, v2, n);
  }

  lemma {:induction false} ExchangedIntro(p: seq<HNode>, q: seq<HNode>, v: seq<int>, w: seq<int>, d: nat)
    requires |p| == |q| == |v| == |w| && d <= |p| && Have(p, w[..d] + v[d..]) && Have(q, v[..d] + w[d..])
    ensures Exchanged(p, q, v, w, d)
  {
    HaveAll(p, w[..d] + v[d..]);
    HaveAll(q, v[..d] + w[d..]);
    assert Misplaced(p, q, v, w, d) == {};
  }

  lemma {:induction false} ExchangedEnds(p: seq<HNode>, q: seq<HNode>, v: seq<int>, w: seq<int>)
    requires |p| == |q| == |v| == |w|
    ensures Have(p, v) && Have(q, w) ==> Exchanged(p, q, v, w, 0)
    ensures Exchanged(p, q, v, w, |p|) ==> Have(p, w) && Have(q, v)
  {
    if Have(p, v) && Have(q, w) {
      HaveAll(p, v);
      HaveAll(q, w);
      assert Misplaced(p, q, v, w, 0) == {};
    }
    if Exchanged(p, q, v, w, |p|) {
      ExchangedAll(p, q, v, w, |p|);
      assert Wrong(p, w) == {} && Wrong(q, v) == {};
    }
  }

  /** What is still to be exchanged. */
  lemma {:induction false} Remaining(p: seq<HNode>, q: seq<HNode>, v: seq<int>, w: seq<int>, d: nat)
    requires |p| == |q| == |v| == |w| && d <= |p| && Exchanged(p, q, v, w, d)
    ensures Have(p[d..], v[d..]) && Have(q[d..], w[d..])
    ensures Exchanged(p[..d], q[..d], v[..d], w[..d], d)
  {
    ExchangedAll(p, q, v, w, d);
    assert Wrong(p[d..], v[d..]) == {} && Wrong(q[d..], w[d..]) == {};
    assert Misplaced(p[..d], q[..d], v[..d], w[..d], d) == {};
  }

  /** A batch after the first d values is as good as more values before. */
  lemma {:induction false} ExchangedMore(p: seq<HNode>, q: seq<HNode>, v: seq<int>, w: seq<int>, d: nat, n: nat)
    requires |p| == |q| == |v| == |w| && d + n <= |p|
    requires Exchanged(p[..d], q[..d], v[..d], w[..d], d) && Exchanged(p[d..], q[d..], v[d..], w[d..], n)
    ensures Exchanged(p, q, v, w, d + n)
  {
    ExchangedAll(p[..d], q[..d], v[..d], w[..d], d);
    ExchangedAll(p[d..], q[d..], v[d..], w[d..], n);
    forall i | 0 <= i < |p|
      ensures (p[i].value, q[i].value) == if i < d + n then (w[i], v[i]) else (v[i], w[i])
    {
      if i < d {
        assert p[..d][i] == p[i] && q[..d][i] == q[i] && v[..d][i] == v[i] && w[..d][i] == w[i];
      } else {
        var e := i - d;
        assert p[d..][e] == p[i] && q[d..][e] == q[i] && v[d..][e] == v[i] && w[d..][e] == w[i];
      }
    }
    assert Misplaced(p, q, v, w, d + n) == {};
  }

  ghost function Values(r: seq<HNode>): (vs: seq<int>)
    reads Of(r)
    ensures Have(r, vs)
  {
    var vs := seq(|r|, i requires 0 <= i < |r| reads Of(r) => r[i].value);
    assert Wrong(r, vs) == {};
    vs
  }

  lemma {:induction false} PreFacts(a: Shape, b: Shape, k: nat)
    requires Unshared(a) && Unshared(b) && Full(a, k) && Full(b, k) && Nodes(a) !! Nodes(b)
    ensures |Pre(a)| == |Pre(b)| && Distinct(Pre(a)) && Distinct(Pre(b))
    ensures Of(Pre(a)) == Nodes(a) && Of(Pre(b)) == Nodes(b)
  {
    PreSize(a, k);
    PreSize(b, k);
    PreDistinct(a);
    PreDistinct(b);
    PreNodes(a);
    PreNodes(b);
  }

  /** Batch after batch, until the first stack is empty. */
  method Batches(c: Stack, s: Stack, r: Stack, collection: array<int>,
                 ghost p: seq<HNode>, ghost q: seq<HNode>, ghost v1: seq<int>, ghost v2: seq<int>)
    requires c.Valid() && s.Valid() && r.Valid() && collection.Length == COLLECT_SIZE
    requires c != s && c != r && s != r && c.handles != s.handles && c.handles != r.handles && s.handles != r.handles
    requires Rest(c.ts) == Rest(r.ts) == p && Rest(s.ts) == q && |p| == |q| && Distinct(p) && Distinct(q)
    requires Of(p) !! Of(q)
    requires Have(p, v1) && Have(q, v2)
    modifies c, c.handles, s, s.handles, r, r.handles, collection, Of(p)`value, Of(q)`value
    ensures Have(p, v2) && Have(q, v1)
  {
    ghost var d: nat := 0;
    ExchangedEnds(p, q, v1, v2);
    SomeRest(c.ts, c.ks, c.Contents(), c.h);
    while c.top >= 0
      invariant c.Valid() && s.Valid() && r.Valid() && d <= |p| && (c.top >= 0 <==> d < |p|)
      invariant Rest(c.ts) == Rest(r.ts) == p[d..] && Rest(s.ts) == q[d..]
      invariant Exchanged(p, q, v1, v2, d)
      decreases |p| - d
    {
      ghost var n := Capped(|p| - d);
      NextBatch(c, s, r, collection, p, q, v1, v2, d);
      d := d + n;
    }
    ExchangedEnds(p, q, v1, v2);
  }

  /** The nodes of earlier batches are none of those still to come. */
  lemma {:induction false} Behind(p: seq<HNode>, q: seq<HNode>, d: nat)
    requires d <= |p| == |q| && Distinct(p) && Distinct(q) && Of(p) !! Of(q)
    ensures Of(p[d..]) <= Of(p) && Of(q[d..]) <= Of(q) && Of(p[d..]) !! Of(q[d..])
    ensures Of(p[..d]) + Of(q[..d]) !! Of(p[d..]) + Of(q[d..])
    ensures Distinct(p[d..]) && Distinct(q[d..])
  {
    assert Of(p[..d]) <= Of(p) && Of(q[..d]) <= Of(q);
  }

  /** A batch in the middle of two trees leaves alone what earlier batches did. */
  method LaterBatch(c: Stack, s: Stack, r: Stack, collection: array<int>,
                    ghost p: seq<HNode>, ghost q: seq<HNode>, ghost v1: seq<int>, ghost v2: seq<int>, ghost d: nat)
    requires c.Valid() && s.Valid() && r.Valid() && collection.Length == COLLECT_SIZE
    requires c != s && c != r && s != r && c.handles != s.handles && c.handles != r.handles && s.handles != r.handles
    requires |p| == |q| == |v1| == |v2| && d < |p| && Distinct(p) && Distinct(q) && Of(p) !! Of(q)
    requires Rest(c.ts) == Rest(r.ts) == p[d..] && Rest(s.ts) == q[d..] && Exchanged(p, q, v1, v2, d)
    modifies c, c.handles, s, s.handles, r, r.handles, collection, Of(p)`value, Of(q)`value
    ensures c.Valid() && s.Valid() && r.Valid()
    ensures Rest(c.ts) == Rest(r.ts) == p[d..][Capped(|p| - d)..] && Rest(s.ts) == q[d..][Capped(|p| - d)..]
    ensures Exchanged(p[..d], q[..d], v1[..d], v2[..d], d)
    ensures Exchanged(p[d..], q[d..], v1[d..], v2[d..], Capped(|p| - d))
  {
    assert allocated(p) && allocated(q);
    Behind(p, q, d);
    Remaining(p, q, v1, v2, d);
    Batch(c, s, r, collection, v1[d..], v2[d..]);
  }

  method NextBatch(c: Stack, s: Stack, r: Stack, collection: array<int>,
                   ghost p: seq<HNode>, ghost q: seq<HNode>, ghost v1: seq<int>, ghost v2: seq<int>, ghost d: nat)
    requires c.Valid() && s.Valid() && r.Valid() && collection.Length == COLLECT_SIZE
    requires c != s && c != r && s != r && c.handles != s.handles && c.handles != r.handles && s.handles != r.handles
    requires |p| == |q| == |v1| == |v2| && d < |p| && Distinct(p) && Distinct(q) && Of(p) !! Of(q)
    requires Rest(c.ts) == Rest(r.ts) == p[d..] && Rest(s.ts) == q[d..] && Exchanged(p, q, v1, v2, d)
    modifies c, c.handles, s, s.handles, r, r.handles, collection, Of(p)`value, Of(q)`value
    ensures c.Valid() && s.Valid() && r.Valid()
    ensures var e := d + Capped(|p| - d);
            Rest(c.ts) == Rest(r.ts) == p[e..] && Rest(s.ts) == q[e..] && Exchanged(p, q, v1, v2, e)
    ensures c.top >= 0 <==> d + Capped(|p| - d) < |p|
  {
    ghost var n := Capped(|p| - d);
    assert p[d..][n..] == p[d + n..] && q[d..][n..] == q[d + n..];
    LaterBatch(c, s, r, collection, p, q, v1, v2, d);
    ExchangedMore(p, q, v1, v2, d, n);
    SomeRest(c.ts, c.ks, c.Contents(), c.h);
  }

  method Run(c: Stack, s: Stack, r: Stack, collection: array<int>, ghost a: Shape, ghost b: Shape, ghost k: nat)
    requires c.Valid() && s.Valid() && r.Valid() && collection.Length == COLLECT_SIZE
    requires c != s && c != r && s != r && c.handles != s.handles && c.handles != r.handles && s.handles != r.handles
    requires Rest(c.ts) == Rest(r.ts) == Pre(a) && Rest(s.ts) == Pre(b)
    requires Unshared(a) && Unshared(b) && Full(a, k) && Full(b, k) && Nodes(a) !! Nodes(b)
    modifies c, c.handles, s, s.handles, r, r.handles, collection, Nodes(a)`value, Nodes(b)`value
    ensures Content(a) == old(Content(b)) && Content(b) == old(Content(a))
  {
    ghost var (p, q, v1, v2) := (Pre(a), Pre(b), Values(Pre(a)), Values(Pre(b)));
    PreFacts(a, b, k);
    ContentBuilt(a, k, v1);
    ContentBuilt(b, k, v2);
    Batches(c, s, r, collection, p, q, v1, v2);
    ContentBuilt(a, k, v2);
    ContentBuilt(b, k, v1);
  }

  /** Three stacks for the traversals, two of the first tree and one of the second. */
  method Setup(t1: HNode, t2: HNode, ghost a: Shape, ghost b: Shape, ghost k: nat)
    returns (c: Stack, r: Stack, s: Stack)
    requires Linked(a, t1) && Linked(b, t2) && Full(a, k) && Full(b, k) && k <= DFS_SIZE
    ensures c.Valid() && s.Valid() && r.Valid() && fresh({c, s, r}) && fresh({c.handles, s.handles, r.handles})
    ensures c != s && c != r && s != r && c.handles != s.handles && c.handles != r.handles && s.handles != r.handles
    ensures Rest(c.ts) == Rest(r.ts) == Pre(a) && Rest(s.ts) == Pre(b)
  {
    assert allocated(Nodes(a)) && allocated(Nodes(b));
    c := new Stack(t1, a, k);
    assert allocated(NodesOf(c.ts));
    r := new Stack(t1, a, k);
    assert allocated(NodesOf(r.ts)) && c.Valid();
    s := new Stack(t2, b, k);
    assert c.Valid() && r.Valid();
  }

  /** The two trees and their traversals, all from the start. */
  method SwapFrom(c: Stack, r: Stack, s: Stack, ghost a: Shape, ghost b: Shape, ghost k: nat)
    requires c.Valid() && s.Valid() && r.Valid()
    requires c != s && c != r && s != r && c.handles != s.handles && c.handles != r.handles && s.handles != r.handles
    requires Rest(c.ts) == Rest(r.ts) == Pre(a) && Rest(s.ts) == Pre(b)
    requires Unshared(a) && Unshared(b) && Full(a, k) && Full(b, k) && Nodes(a) !! Nodes(b)
    modifies c, c.handles, s, s.handles, r, r.handles, Nodes(a)`value, Nodes(b)`value
    ensures Content(a) == old(Content(b)) && Content(b) == old(Content(a))
  {
    assert allocated(Nodes(a)) && allocated(Nodes(b));
    assert allocated(NodesOf(c.ts)) && allocated(NodesOf(r.ts)) && allocated(NodesOf(s.ts));
    ghost var (u, v) := (Content(a), Content(b));
    var collection := new int[COLLECT_SIZE];
    assert c.Valid() && r.Valid() && s.Valid() && Content(a) == u && Content(b) == v;
    Run(c, s, r, collection, a, b, k);
  }

  /** However many batches it takes, two disjoint perfect trees of the same height exchange their values. */
  method NewSwapSubTree(t1: HNode?, t2: HNode?, ghost a: Shape, ghost b: Shape, ghost k: nat)
    requires Unshared(a) && Unshared(b) && Linked(a, t1) && Linked(b, t2) && Nodes(a) !! Nodes(b)
    requires Full(a, k) && Full(b, k) && k <= DFS_SIZE
    modifies Nodes(a)`value, Nodes(b)`value
    ensures Content(a) == old(Content(b)) && Content(b) == old(Content(a))
  {
    assert allocated(Nodes(a)) && allocated(Nodes(b));
    if t1 != null {
      ghost var (u, v) := (Content(a), Content(b));
      var c1, r1, s2 := Setup(t1, t2, a, b, k);
      assert Content(a) == u && Content(b) == v;
      SwapFrom(c1, r1, s2, a, b, k);
    }
  }
}
