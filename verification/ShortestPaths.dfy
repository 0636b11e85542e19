/**
 The value-level theory of the first-in-first-out shortest-path search: the state of the search, one
 relaxation step, the invariant that every step keeps, and what the invariant says when the queue is
 empty.
 */
module ShortestPaths {

  const NUM_NODES: int := 100
  const NONE: int := 9999
  const MAX_COST: int := 100

  type Matrix = seq<seq<int>>

  /** A full matrix without negative costs. */
  predicate FullMatrix(adj: Matrix) {
    && |adj| == NUM_NODES
    && (forall u {:trigger adj[u]} :: 0 <= u < NUM_NODES ==> |adj[u]| == NUM_NODES)
    && forall u, v {:trigger adj[u][v]} :: 0 <= u < NUM_NODES && 0 <= v < NUM_NODES ==> 0 <= adj[u][v]
  }

  /** The present edges cost no more than m. */
  predicate CostsUpTo(adj: Matrix, m: int)
    requires FullMatrix(adj)
  {
    forall u, v {:trigger adj[u][v]} :: 0 <= u < NUM_NODES && 0 <= v < NUM_NODES ==> adj[u][v] == NONE || adj[u][v] <= m
  }

  /** What keeps distances apart from the sentinel; `BoundIsSharp` says that no greater bound would. */
  predicate ValidMatrix(adj: Matrix) {
    FullMatrix(adj) && CostsUpTo(adj, MAX_COST)
  }

  // ---------- Paths ----------

  predicate Edge(adj: Matrix, u: int, v: int)
    requires FullMatrix(adj)
  {
    0 <= u < NUM_NODES && 0 <= v < NUM_NODES && adj[u][v] != NONE
  }

  predicate IsPath(adj: Matrix, p: seq<int>)
    requires FullMatrix(adj)
  {
    if |p| == 0 then false
    else if |p| == 1 then 0 <= p[0] < NUM_NODES
    else IsPath(adj, p[..|p| - 1]) && Edge(adj, p[|p| - 2], p[|p| - 1])
  }

  function Cost(adj: Matrix, p: seq<int>): (c: int)
    requires FullMatrix(adj) && IsPath(adj, p)
    ensures 0 <= c
  {
    if |p| == 1 then 0 else Cost(adj, p[..|p| - 1]) + adj[p[|p| - 2]][p[|p| - 1]]
  }

  predicate PathFromTo(adj: Matrix, p: seq<int>, a: int, b: int)
    requires FullMatrix(adj)
  {
    IsPath(adj, p) && p[0] == a && p[|p| - 1] == b
  }

  ghost predicate Reachable(adj: Matrix, a: int, b: int)
    requires FullMatrix(adj)
  {
    exists p :: PathFromTo(adj, p, a, b)
  }

  /** c is the cost of a path from a to b, and no such path costs less. */
  ghost predicate LeastCost(adj: Matrix, a: int, b: int, c: int)
    requires FullMatrix(adj)
  {
    && (exists p :: PathFromTo(adj, p, a, b) && Cost(adj, p) == c)
    && forall p :: PathFromTo(adj, p, a, b) ==> c <= Cost(adj, p)
  }

  ghost predicate Simple(p: seq<int>) {
    forall i, j :: 0 <= i < j < |p| ==> p[i] != p[j]
  }

  lemma {:induction false} PathNodes(adj: Matrix, p: seq<int>)
    requires ValidMatrix(adj) && IsPath(adj, p)
    ensures forall i :: 0 <= i < |p| ==> 0 <= p[i] < NUM_NODES
  {
    if |p| > 1 {
      PathNodes(adj, p[..|p| - 1]);
      assert forall i :: 0 <= i < |p| - 1 ==> p[..|p| - 1][i] == p[i];
    }
  }

  lemma {:induction false} PrefixCost(adj: Matrix, p: seq<int>, n: nat)
    requires ValidMatrix(adj) && IsPath(adj, p) && 0 < n <= |p|
    ensures IsPath(adj, p[..n]) && Cost(adj, p[..n]) <= Cost(adj, p)
  {
    if n == |p| {
      assert p[..n] == p;
    } else {
      var q := p[..|p| - 1];
      PrefixCost(adj, q, n);
      assert q[..n] == p[..n];
    }
  }

  lemma {:induction false} ExtendPath(adj: Matrix, p: seq<int>, v: int)
    requires ValidMatrix(adj) && IsPath(adj, p) && Edge(adj, p[|p| - 1], v)
    ensures IsPath(adj, p + [v]) && Cost(adj, p + [v]) == Cost(adj, p) + adj[p[|p| - 1]][v]
  {
    assert (p + [v])[..|p|] == p;
  }

  lemma {:induction false} SimpleLength(p: seq<int>, n: nat)
    requires Simple(p) && forall i :: 0 <= i < |p| ==> 0 <= p[i] < n
    ensures |p| <= n
  {
    var s := set i | i in p;
    SetOfSimple(p);
    SubsetSize(s, Range(n));
  }

  lemma {:induction false} SetOfSimple(p: seq<int>)
    requires Simple(p)
    ensures |set i | i in p| == |p|
  {
    if p != [] {
      var q := p[..|p| - 1];
      SetOfSimple(q);
      assert (set i | i in p) == (set i | i in q) + {p[|p| - 1]};
    }
  }

  ghost function Range(n: nat): (r: set<int>)
    ensures |r| == n && forall i :: i in r <==> 0 <= i < n
  {
    if n == 0 then {} else Range(n - 1) + {n - 1}
  }

  lemma {:induction false} SubsetSize<T>(a: set<T>, b: set<T>)
    requires a <= b
    ensures |a| <= |b|
  {
    assert b == a + (b - a);
  }

  lemma {:induction false} CostBound(adj: Matrix, p: seq<int>)
    requires ValidMatrix(adj) && IsPath(adj, p)
    ensures Cost(adj, p) <= MAX_COST * (|p| - 1)
  {
    if |p| > 1 {
      CostBound(adj, p[..|p| - 1]);
    }
  }

  /** A simple path costs less than the sentinel. */
  lemma {:induction false} SimplePathBelowNone(adj: Matrix, p: seq<int>)
    requires ValidMatrix(adj) && IsPath(adj, p) && Simple(p)
    ensures Cost(adj, p) < NONE
  {
    PathNodes(adj, p);
    SimpleLength(p, NUM_NODES);
    CostBound(adj, p);
  }

  // ---------- The state of the search ----------

  /** A queue entry; path is how the search came to it. */
  datatype Item = Item(node: int, dist: int, prev: int, path: seq<int>)

  /** Recorded distances and predecessors, the time of the last change of each, and the queue. */
  datatype State = State(dist: seq<int>, prev: seq<int>, stamp: seq<int>, clock: int, queue: seq<Item>)

  /** Would the search improve on the recorded distance of v by going from item it to v? */
  predicate Improves(adj: Matrix, s: State, it: Item, v: int)
    requires ValidMatrix(adj) && |s.dist| == NUM_NODES && 0 <= it.node < NUM_NODES && 0 <= v < NUM_NODES
  {
    var iCost := adj[it.node][v];
    iCost != NONE && (s.dist[v] == NONE || s.dist[v] > iCost + it.dist)
  }

  /** One turn of the inner loop. */
  function Step(adj: Matrix, s: State, it: Item, v: int): (r: State)
    requires ValidMatrix(adj) && 0 <= it.node < NUM_NODES && 0 <= v < NUM_NODES
    requires |s.dist| == |s.prev| == |s.stamp| == NUM_NODES
  {
    if Improves(adj, s, it, v) then
      var d := it.dist + adj[it.node][v];
      State(s.dist[v := d], s.prev[v := it.node], s.stamp[v := s.clock], s.clock + 1,
            s.queue + [Item(v, d, it.node, it.path + [v])])
    else s
  }

  // ---------- The invariant ----------

  ghost predicate Shape(s: State) {
    && |s.dist| == |s.prev| == |s.stamp| == NUM_NODES
    && (forall v {:trigger s.dist[v]} :: 0 <= v < NUM_NODES ==> 0 <= s.dist[v] <= NONE)
    && (forall v {:trigger s.stamp[v]} :: 0 <= v < NUM_NODES ==> 0 <= s.stamp[v] < s.clock)
  }

  /** The entry came along a simple path, whose nodes all have recorded distances no worse than its own. */
  ghost predicate GoodItem(adj: Matrix, start: int, s: State, it: Item)
    requires ValidMatrix(adj) && Shape(s)
  {
    && PathFromTo(adj, it.path, start, it.node) && Simple(it.path) && 0 <= it.node < NUM_NODES
    && Cost(adj, it.path) == it.dist
    && forall k {:trigger it.path[k]} :: 0 <= k < |it.path| ==>
         0 <= it.path[k] < NUM_NODES && s.dist[it.path[k]] != NONE && s.dist[it.path[k]] <= it.dist
  }

  /** Everything next to v has a recorded distance no worse than through v, as far as node n. */
  ghost predicate Relaxed(adj: Matrix, s: State, v: int, n: int)
    requires ValidMatrix(adj) && Shape(s) && 0 <= v < NUM_NODES
  {
    forall w {:trigger adj[v][w]} :: 0 <= w < n && w < NUM_NODES && adj[v][w] != NONE ==>
      s.dist[w] != NONE && s.dist[w] <= s.dist[v] + adj[v][w]
  }

  ghost predicate Queued(s: State, v: int, d: int) {
    exists k :: 0 <= k < |s.queue| && s.queue[k].node == v && s.queue[k].dist == d
  }

  /** The predecessor of v is recorded, adjacent, no farther than v, and earlier than v when equally far. */
  ghost predicate GoodLink(adj: Matrix, start: int, s: State, v: int)
    requires ValidMatrix(adj) && Shape(s) && 0 <= v < NUM_NODES
  {
    if v == start || s.dist[v] == NONE then s.prev[v] == NONE
    else
      var u := s.prev[v];
      && Edge(adj, u, v) && s.dist[u] != NONE && s.dist[u] + adj[u][v] <= s.dist[v]
      && (s.dist[u] == s.dist[v] ==> s.stamp[u] < s.stamp[v])
  }

  /** Recorded distances are costs of paths from the start. */
  ghost predicate Sound(adj: Matrix, start: int, s: State, v: int)
    requires ValidMatrix(adj) && Shape(s) && 0 <= v < NUM_NODES
  {
    s.dist[v] != NONE ==> exists p :: PathFromTo(adj, p, start, v) && Cost(adj, p) == s.dist[v]
  }

  ghost predicate Common(adj: Matrix, start: int, s: State)
    requires ValidMatrix(adj)
  {
    && Shape(s) && 0 <= start < NUM_NODES && s.dist[start] == 0
    && (forall k {:trigger s.queue[k]} :: 0 <= k < |s.queue| ==> GoodItem(adj, start, s, s.queue[k]))
    && (forall v {:trigger GoodLink(adj, start, s, v)} :: 0 <= v < NUM_NODES ==> GoodLink(adj, start, s, v))
    && forall v {:trigger Sound(adj, start, s, v)} :: 0 <= v < NUM_NODES ==> Sound(adj, start, s, v)
  }

  /** v is settled: unreached, in the queue with its recorded distance, or relaxed in full. */
  ghost predicate Covered(adj: Matrix, s: State, v: int)
    requires ValidMatrix(adj) && Shape(s) && 0 <= v < NUM_NODES
  {
    s.dist[v] == NONE || Queued(s, v, s.dist[v]) || Relaxed(adj, s, v, NUM_NODES)
  }

  /** What holds between turns of the outer loop. */
  ghost predicate Inv(adj: Matrix, start: int, s: State)
    requires ValidMatrix(adj)
  {
    && Common(adj, start, s)
    && forall v {:trigger Covered(adj, s, v)} :: 0 <= v < NUM_NODES ==> Covered(adj, s, v)
  }

  /** What holds while item it, taken from the queue, has been tried on all nodes before n. */
  ghost predicate InvAt(adj: Matrix, start: int, s: State, it: Item, n: int)
    requires ValidMatrix(adj)
  {
    && Common(adj, start, s) && GoodItem(adj, start, s, it) && 0 <= n <= NUM_NODES
    && forall v {:trigger CoveredAt(adj, s, it, n, v)} :: 0 <= v < NUM_NODES ==> CoveredAt(adj, s, it, n, v)
  }

  // ---------- One turn of the inner loop keeps the invariant ----------

  /** A node that can be improved on is new to the path, so the new distance is that of a simple path. */
  lemma {:induction false} ImprovedIsNew(adj: Matrix, start: int, s: State, it: Item, v: int)
    requires ValidMatrix(adj) && Common(adj, start, s) && GoodItem(adj, start, s, it)
    requires 0 <= v < NUM_NODES && Improves(adj, s, it, v)
    ensures var d := it.dist + adj[it.node][v];
            && v !in it.path && v != it.node && v != start && 0 <= d < NONE
            && PathFromTo(adj, it.path + [v], start, v) && Simple(it.path + [v]) && Cost(adj, it.path + [v]) == d
            && s.dist[it.node] <= it.dist && s.dist[it.node] != NONE
            && (s.dist[v] == NONE || d < s.dist[v])
  {
    assert s.dist[it.path[|it.path| - 1]] <= it.dist;
    forall k | 0 <= k < |it.path|
      ensures it.path[k] != v
    {
      assert s.dist[it.path[k]] != NONE && s.dist[it.path[k]] <= it.dist;
    }
    assert it.path[0] == start;
    ExtendPath(adj, it.path, v);
    SimplePathBelowNone(adj, it.path + [v]);
  }

  lemma {:induction false} StepKeepsItem(adj: Matrix, start: int, s: State, it: Item, v: int, other: Item)
    requires ValidMatrix(adj) && Common(adj, start, s) && GoodItem(adj, start, s, it) && GoodItem(adj, start, s, other)
    requires 0 <= v < NUM_NODES && Improves(adj, s, it, v)
    requires Shape(Step(adj, s, it, v))
    ensures GoodItem(adj, start, Step(adj, s, it, v), other)
  {
    ImprovedIsNew(adj, start, s, it, v);
    var t := Step(adj, s, it, v);
    forall k | 0 <= k < |other.path|
      ensures 0 <= other.path[k] < NUM_NODES && t.dist[other.path[k]] != NONE && t.dist[other.path[k]] <= other.dist
    {
      assert s.dist[other.path[k]] != NONE && s.dist[other.path[k]] <= other.dist;
    }
  }

  lemma {:induction false} StepShape(adj: Matrix, start: int, s: State, it: Item, v: int)
    requires ValidMatrix(adj) && Common(adj, start, s) && GoodItem(adj, start, s, it)
    requires 0 <= v < NUM_NODES && Improves(adj, s, it, v)
    ensures Shape(Step(adj, s, it, v))
  {
    ImprovedIsNew(adj, start, s, it, v);
  }

  lemma {:induction false} StepKeepsLink(adj: Matrix, start: int, s: State, it: Item, v: int, w: int)
    requires ValidMatrix(adj) && Common(adj, start, s) && GoodItem(adj, start, s, it)
    requires 0 <= v < NUM_NODES && Improves(adj, s, it, v) && 0 <= w < NUM_NODES
    requires Shape(Step(adj, s, it, v))
    ensures GoodLink(adj, start, Step(adj, s, it, v), w)
  {
    ImprovedIsNew(adj, start, s, it, v);
    assert GoodLink(adj, start, s, w);
    assert s.stamp[it.node] < s.clock;
    if w != v && w != start && s.dist[w] != NONE && s.prev[w] == v {
      assert s.dist[v] != NONE;
    }
  }

  lemma {:induction false} StepKeepsSound(adj: Matrix, start: int, s: State, it: Item, v: int, w: int)
    requires ValidMatrix(adj) && Common(adj, start, s) && GoodItem(adj, start, s, it)
    requires 0 <= v < NUM_NODES && Improves(adj, s, it, v) && 0 <= w < NUM_NODES
    requires Shape(Step(adj, s, it, v))
    ensures Sound(adj, start, Step(adj, s, it, v), w)
  {
    ImprovedIsNew(adj, start, s, it, v);
    if w == v {
      assert PathFromTo(adj, it.path + [v], start, v);
    } else {
      assert Sound(adj, start, s, w);
    }
  }

  lemma {:induction false} StepKeepsCommon(adj: Matrix, start: int, s: State, it: Item, v: int)
    requires ValidMatrix(adj) && Common(adj, start, s) && GoodItem(adj, start, s, it)
    requires 0 <= v < NUM_NODES
    ensures Common(adj, start, Step(adj, s, it, v)) && GoodItem(adj, start, Step(adj, s, it, v), it)
  {
    if Improves(adj, s, it, v) {
      var t := Step(adj, s, it, v);
      ImprovedIsNew(adj, start, s, it, v);
      StepShape(adj, start, s, it, v);
      StepKeepsItem(adj, start, s, it, v, it);
      forall k | 0 <= k < |t.queue|
        ensures GoodItem(adj, start, t, t.queue[k])
      {
        if k < |s.queue| {
          StepKeepsItem(adj, start, s, it, v, s.queue[k]);
        } else {
          NewItemGood(adj, start, s, it, v);
        }
      }
      forall w | 0 <= w < NUM_NODES
        ensures GoodLink(adj, start, t, w)
      {
        StepKeepsLink(adj, start, s, it, v, w);
      }
      forall w | 0 <= w < NUM_NODES
        ensures Sound(adj, start, t, w)
      {
        StepKeepsSound(adj, start, s, it, v, w);
      }
    }
  }

  lemma {:induction false} NewItemGood(adj: Matrix, start: int, s: State, it: Item, v: int)
    requires ValidMatrix(adj) && Common(adj, start, s) && GoodItem(adj, start, s, it)
    requires 0 <= v < NUM_NODES && Improves(adj, s, it, v)
    requires Shape(Step(adj, s, it, v))
    ensures var t := Step(adj, s, it, v);
            GoodItem(adj, start, t, t.queue[|s.queue|])
  {
    ImprovedIsNew(adj, start, s, it, v);
    var t := Step(adj, s, it, v);
    var p := it.path + [v];
    forall k | 0 <= k < |p|
      ensures 0 <= p[k] < NUM_NODES && t.dist[p[k]] != NONE && t.dist[p[k]] <= it.dist + adj[it.node][v]
    {
      if k < |it.path| {
        assert s.dist[it.path[k]] <= it.dist && it.path[k] == p[k];
      }
    }
  }

  lemma {:induction false} StepKeepsRelaxed(adj: Matrix, s: State, t: State, v: int, w: int, n: int)
    requires ValidMatrix(adj) && Shape(s) && Shape(t) && 0 <= w < NUM_NODES && 0 <= v < NUM_NODES && v != w
    requires Relaxed(adj, s, w, n)
    requires forall x :: 0 <= x < NUM_NODES && x != v ==> t.dist[x] == s.dist[x]
    requires t.dist[v] != NONE && (s.dist[v] == NONE || t.dist[v] <= s.dist[v])
    ensures Relaxed(adj, t, w, n)
  {
  }

  ghost predicate CoveredAt(adj: Matrix, s: State, it: Item, n: int, v: int)
    requires ValidMatrix(adj) && Shape(s) && 0 <= v < NUM_NODES
  {
    Covered(adj, s, v) || (v == it.node && s.dist[v] == it.dist && Relaxed(adj, s, v, n))
  }

  lemma {:induction false} ImprovedStepCovers(adj: Matrix, start: int, s: State, it: Item, n: int, v: int)
    requires ValidMatrix(adj) && Common(adj, start, s) && GoodItem(adj, start, s, it) && 0 <= n < NUM_NODES
    requires 0 <= v < NUM_NODES && CoveredAt(adj, s, it, n, v) && Improves(adj, s, it, n)
    requires Shape(Step(adj, s, it, n))
    ensures CoveredAt(adj, Step(adj, s, it, n), it, n + 1, v)
  {
    var t := Step(adj, s, it, n);
    ImprovedIsNew(adj, start, s, it, n);
    if v == n {
      assert t.queue[|s.queue|].node == v && t.queue[|s.queue|].dist == t.dist[v];
    } else if s.dist[v] != NONE && Queued(s, v, s.dist[v]) {
      var k :| 0 <= k < |s.queue| && s.queue[k].node == v && s.queue[k].dist == s.dist[v];
      assert t.queue[k].node == v && t.queue[k].dist == t.dist[v];
    } else if s.dist[v] != NONE {
      if Relaxed(adj, s, v, NUM_NODES) {
        StepKeepsRelaxed(adj, s, t, n, v, NUM_NODES);
      } else {
        StepKeepsRelaxed(adj, s, t, n, v, n);
      }
    }
  }

  /** One turn of the inner loop, whether or not it improves a distance. */
  lemma {:induction false} StepKeepsInvAt(adj: Matrix, start: int, s: State, it: Item, n: int)
    requires ValidMatrix(adj) && InvAt(adj, start, s, it, n) && n < NUM_NODES
    ensures InvAt(adj, start, Step(adj, s, it, n), it, n + 1)
  {
    var t, m := Step(adj, s, it, n), n + 1;
    StepKeepsCommon(adj, start, s, it, n);
    forall v | 0 <= v < NUM_NODES
      ensures CoveredAt(adj, t, it, m, v)
    {
      assert CoveredAt(adj, s, it, n, v);
      if Improves(adj, s, it, n) {
        ImprovedStepCovers(adj, start, s, it, n, v);
      }
    }
  }

  // ---------- The outer loop ----------

  function Initial(start: int): (r: State)
    requires 0 <= start < NUM_NODES
  {
    State(seq(NUM_NODES, _ => NONE)[start := 0], seq(NUM_NODES, _ => NONE), seq(NUM_NODES, _ => 0), 1,
          [Item(start, 0, NONE, [start])])
  }

  lemma {:induction false} InitialInv(adj: Matrix, start: int)
    requires ValidMatrix(adj) && 0 <= start < NUM_NODES
    ensures Inv(adj, start, Initial(start))
  {
    var s := Initial(start);
    assert PathFromTo(adj, [start], start, start) && Cost(adj, [start]) == 0;
    forall v | 0 <= v < NUM_NODES
      ensures GoodLink(adj, start, s, v) && Sound(adj, start, s, v) && Covered(adj, s, v)
    {
      if v == start {
        assert s.queue[0].node == v && s.queue[0].dist == s.dist[v];
      }
    }
  }

  /** Taking the first entry from the queue. */
  lemma {:induction false} DequeueInv(adj: Matrix, start: int, s: State)
    requires ValidMatrix(adj) && Inv(adj, start, s) && s.queue != []
    ensures InvAt(adj, start, s.(queue := s.queue[1..]), s.queue[0], 0)
  {
    var (t, it) := (s.(queue := s.queue[1..]), s.queue[0]);
    assert GoodItem(adj, start, s, it);
    forall k | 0 <= k < |t.queue|
      ensures GoodItem(adj, start, t, t.queue[k])
    {
      assert GoodItem(adj, start, s, s.queue[k + 1]);
    }
    forall v | 0 <= v < NUM_NODES
      ensures GoodLink(adj, start, t, v) && Sound(adj, start, t, v)
    {
      assert GoodLink(adj, start, s, v) && Sound(adj, start, s, v);
    }
    forall v | 0 <= v < NUM_NODES
      ensures CoveredAt(adj, t, it, 0, v)
    {
      assert Covered(adj, s, v);
      TakenCovers(adj, s, v);
    }
  }

  lemma {:induction false} TakenCovers(adj: Matrix, s: State, v: int)
    requires ValidMatrix(adj) && Shape(s) && 0 <= v < NUM_NODES && s.queue != [] && Covered(adj, s, v)
    ensures CoveredAt(adj, s.(queue := s.queue[1..]), s.queue[0], 0, v)
  {
    var t := s.(queue := s.queue[1..]);
    if s.dist[v] != NONE && Queued(s, v, s.dist[v]) {
      var k :| 0 <= k < |s.queue| && s.queue[k].node == v && s.queue[k].dist == s.dist[v];
      if k > 0 {
        assert t.queue[k - 1].node == v && t.queue[k - 1].dist == t.dist[v];
      }
    }
  }

  lemma {:induction false} FinishItem(adj: Matrix, start: int, s: State, it: Item)
    requires ValidMatrix(adj) && InvAt(adj, start, s, it, NUM_NODES)
    ensures Inv(adj, start, s)
  {
    forall v | 0 <= v < NUM_NODES
      ensures Covered(adj, s, v)
    {
      assert CoveredAt(adj, s, it, NUM_NODES, v);
    }
  }

  // ---------- Termination ----------

  function Sum(s: seq<int>): (n: int) {
    if s == [] then 0 else Sum(s[..|s| - 1]) + s[|s| - 1]
  }

  lemma {:induction false} SumUpdate(s: seq<int>, i: nat, x: int)
    requires i < |s|
    ensures Sum(s[i := x]) == Sum(s) - s[i] + x
  {
    var l := |s| - 1;
    if i < l {
      SumUpdate(s[..l], i, x);
      assert s[i := x][..l] == s[..l][i := x];
    } else {
      assert s[i := x][..l] == s[..l];
    }
  }

  lemma {:induction false} SumNonNegative(s: seq<int>)
    requires forall i :: 0 <= i < |s| ==> s[i] >= 0
    ensures Sum(s) >= 0
  {
    if s != [] {
      SumNonNegative(s[..|s| - 1]);
    }
  }

  /** The termination measure of the queue loop: improving a distance lowers the sum of all distances. */
  lemma {:induction false} StepMeasure(adj: Matrix, start: int, s: State, it: Item, n: int)
    requires ValidMatrix(adj) && InvAt(adj, start, s, it, n) && n < NUM_NODES
    ensures var t := Step(adj, s, it, n);
            t == s || 0 <= Sum(t.dist) < Sum(s.dist)
  {
    if Improves(adj, s, it, n) {
      ImprovedIsNew(adj, start, s, it, n);
      var t := Step(adj, s, it, n);
      SumUpdate(s.dist, n, t.dist[n]);
      StepShape(adj, start, s, it, n);
      SumNonNegative(t.dist);
    }
  }

  // ---------- What holds when the queue is empty ----------

  lemma {:induction false} NoPathIsCheaper(adj: Matrix, start: int, s: State, p: seq<int>)
    requires ValidMatrix(adj) && Inv(adj, start, s) && s.queue == []
    requires IsPath(adj, p) && p[0] == start
    ensures 0 <= p[|p| - 1] < NUM_NODES && s.dist[p[|p| - 1]] != NONE && s.dist[p[|p| - 1]] <= Cost(adj, p)
  {
    if |p| > 1 {
      var u, v := p[|p| - 2], p[|p| - 1];
      NoPathIsCheaper(adj, start, s, p[..|p| - 1]);
      assert Covered(adj, s, u);
      assert adj[u][v] != NONE;
    }
  }

  /** The recorded distance is the least path cost, and the sentinel stands exactly for unreachable. */
  lemma {:induction false} EmptyQueueIsExact(adj: Matrix, start: int, s: State, v: int)
    requires ValidMatrix(adj) && Inv(adj, start, s) && s.queue == [] && 0 <= v < NUM_NODES
    ensures s.dist[v] == NONE <==> !Reachable(adj, start, v)
    ensures s.dist[v] != NONE ==> LeastCost(adj, start, v, s.dist[v])
  {
    assert Sound(adj, start, s, v);
    forall p | PathFromTo(adj, p, start, v)
      ensures s.dist[v] != NONE && s.dist[v] <= Cost(adj, p)
    {
      NoPathIsCheaper(adj, start, s, p);
    }
  }

  // ---------- The predecessor chain ----------

  /** The nodes from the start to v along the predecessor links. */
  ghost function Chain(adj: Matrix, start: int, s: State, v: int): (p: seq<int>)
    requires ValidMatrix(adj) && Common(adj, start, s) && 0 <= v < NUM_NODES && s.dist[v] != NONE
    ensures PathFromTo(adj, p, start, v) && Cost(adj, p) <= s.dist[v]
    decreases s.dist[v], s.stamp[v]
  {
    assert GoodLink(adj, start, s, v);
    if v == start then [start] else
      var p := Chain(adj, start, s, s.prev[v]);
      ExtendPath(adj, p, v);
      p + [v]
  }

  /** When the queue is empty the chain is a shortest path, and its edges add up to the recorded distance. */
  lemma {:induction false} ChainIsShortest(adj: Matrix, start: int, s: State, v: int)
    requires ValidMatrix(adj) && Inv(adj, start, s) && s.queue == [] && 0 <= v < NUM_NODES && s.dist[v] != NONE
    ensures PathFromTo(adj, Chain(adj, start, s, v), start, v)
    ensures Cost(adj, Chain(adj, start, s, v)) == s.dist[v]
  {
    NoPathIsCheaper(adj, start, s, Chain(adj, start, s, v));
  }

  // ---------- The states of the invariant, for the loops ----------

  /** The states that the invariant allows between turns of the outer loop. */
  ghost function States(adj: Matrix, start: int): (r: iset<State>)
    requires ValidMatrix(adj)
  {
    iset s | Inv(adj, start, s)
  }

  /** The states that the invariant allows before the inner loop tries node n for item it. */
  ghost function StatesAt(adj: Matrix, start: int, it: Item, n: int): (r: iset<State>)
    requires ValidMatrix(adj)
  {
    iset s | InvAt(adj, start, s, it, n)
  }

  lemma {:induction false} FirstState(adj: Matrix, start: int)
    requires ValidMatrix(adj) && 0 <= start < NUM_NODES
    ensures Initial(start) in States(adj, start)
  {
    InitialInv(adj, start);
  }

  lemma {:induction false} TakeState(adj: Matrix, start: int, s: State)
    requires ValidMatrix(adj) && s in States(adj, start) && s.queue != []
    ensures s.(queue := s.queue[1..]) in StatesAt(adj, start, s.queue[0], 0)
    ensures 0 <= s.queue[0].node < NUM_NODES
  {
    DequeueInv(adj, start, s);
  }

  lemma {:induction false} NextState(adj: Matrix, start: int, s: State, it: Item, n: int) returns (t: State)
    requires ValidMatrix(adj) && s in StatesAt(adj, start, it, n) && 0 <= n < NUM_NODES
    ensures 0 <= it.node < NUM_NODES && |s.dist| == |s.prev| == |s.stamp| == NUM_NODES
    ensures t == Step(adj, s, it, n) && t in StatesAt(adj, start, it, n + 1)
    ensures t == s || 0 <= Sum(t.dist) < Sum(s.dist)
  {
    t := Step(adj, s, it, n);
    StepKeepsInvAt(adj, start, s, it, n);
    StepMeasure(adj, start, s, it, n);
  }

  lemma {:induction false} LastState(adj: Matrix, start: int, s: State, it: Item)
    requires ValidMatrix(adj) && s in StatesAt(adj, start, it, NUM_NODES)
    ensures s in States(adj, start)
  {
    FinishItem(adj, start, s, it);
  }

  /** What a search state says when the queue is empty. */
  ghost predicate Exact(adj: Matrix, start: int, dist: seq<int>)
    requires FullMatrix(adj) && |dist| == NUM_NODES
  {
    forall v {:trigger dist[v]} :: 0 <= v < NUM_NODES ==>
      && (dist[v] == NONE <==> !Reachable(adj, start, v))
      && (dist[v] != NONE ==> LeastCost(adj, start, v, dist[v]))
  }

  lemma {:induction false} EndState(adj: Matrix, start: int, s: State)
    requires ValidMatrix(adj) && s in States(adj, start) && s.queue == []
    ensures |s.dist| == NUM_NODES && Exact(adj, start, s.dist)
  {
    forall v | 0 <= v < NUM_NODES
      ensures s.dist[v] == NONE <==> !Reachable(adj, start, v)
      ensures s.dist[v] != NONE ==> LeastCost(adj, start, v, s.dist[v])
    {
      EmptyQueueIsExact(adj, start, s, v);
    }
  }

  /** Following one predecessor link gets closer to the start, even around zero-cost cycles. */
  lemma {:induction false} LinkDescends(adj: Matrix, start: int, s: State, v: int)
    requires ValidMatrix(adj) && s in States(adj, start) && 0 <= v < NUM_NODES
    ensures |s.dist| == |s.prev| == |s.stamp| == NUM_NODES && s.dist[v] >= 0 && s.stamp[v] >= 0
    ensures Common(adj, start, s)
    ensures v == start || s.dist[v] == NONE <==> s.prev[v] == NONE
    ensures s.prev[v] != NONE ==>
              && 0 <= s.prev[v] < NUM_NODES && s.dist[s.prev[v]] != NONE
              && (s.dist[s.prev[v]] < s.dist[v]
                  || (s.dist[s.prev[v]] == s.dist[v] && 0 <= s.stamp[s.prev[v]] < s.stamp[v]))
              && Chain(adj, start, s, v) == Chain(adj, start, s, s.prev[v]) + [v]
    ensures v == start ==> Chain(adj, start, s, v) == [v]
  {
    assert GoodLink(adj, start, s, v);
    assert 0 <= s.dist[v] && 0 <= s.stamp[v];
    if s.prev[v] != NONE {
      assert 0 <= s.stamp[s.prev[v]] && 0 <= s.dist[s.prev[v]];
    }
  }

  // ---------- The bound on costs is sharp ----------

  /** From each node but the last one edge leads on, to the next node. */
  function Chained(c: int): (adj: Matrix)
    requires 0 <= c < NONE
    ensures FullMatrix(adj) && CostsUpTo(adj, c)
    ensures forall u, v :: 0 <= u < NUM_NODES && 0 <= v < NUM_NODES ==> adj[u][v] == if v == u + 1 then c else NONE
  {
    seq(NUM_NODES, u => seq(NUM_NODES, v => if v == u + 1 then c else NONE))
  }

  lemma {:induction false} ChainedPath(c: int, p: seq<int>)
    requires 0 <= c < NONE && IsPath(Chained(c), p) && p[0] == 0
    ensures p[|p| - 1] == |p| - 1 && Cost(Chained(c), p) == c * (|p| - 1)
  {
    if |p| > 1 {
      ChainedPath(c, p[..|p| - 1]);
      Distribute(c, |p| - 1);
    }
  }

  lemma {:induction false} Distribute(c: int, n: int)
    ensures c * (n - 1) + c == c * n
  {
  }

  lemma {:induction false} ChainedReaches(c: int, n: nat) returns (p: seq<int>)
    requires 0 <= c < NONE && n < NUM_NODES
    ensures PathFromTo(Chained(c), p, 0, n)
  {
    if n == 0 {
      p := [0];
    } else {
      p := ChainedReaches(c, n - 1);
      p := p + [n];
      assert p[..|p| - 1] + [n] == p;
    }
  }

  /** With a cost of 101 the last node can be as far away as the sentinel says for nodes that cannot be reached. */
  lemma {:induction false} BoundIsSharp(dist: seq<int>)
    requires |dist| == NUM_NODES
    ensures CostsUpTo(Chained(MAX_COST + 1), MAX_COST + 1) && !Exact(Chained(MAX_COST + 1), 0, dist)
  {
    var adj := Chained(MAX_COST + 1);
    var p := ChainedReaches(MAX_COST + 1, NUM_NODES - 1);
    if Exact(adj, 0, dist) {
      assert dist[NUM_NODES - 1] != NONE;
      var q :| PathFromTo(adj, q, 0, NUM_NODES - 1) && Cost(adj, q) == dist[NUM_NODES - 1];
      ChainedPath(MAX_COST + 1, q);
    }
  }
}
