/** Dominance, back edges and natural loops of a control-flow graph whose entry is block 0. */
module NaturalLoops {

  /** The successors of every block. */
  type Graph = g: seq<seq<nat>> | forall b, i :: 0 <= b < |g| && 0 <= i < |g[b]| ==> g[b][i] < |g| witness []

  ghost predicate Path(g: Graph, p: seq<nat>) {
    && |p| > 0 && (forall i :: 0 <= i < |p| ==> p[i] < |g|)
    && forall i, j :: 0 <= i && j == i + 1 < |p| ==> p[j] in g[p[i]]
  }

  ghost predicate PathTo(g: Graph, p: seq<nat>, u: nat, v: nat) {
    Path(g, p) && p[0] == u && p[|p| - 1] == v
  }

  ghost predicate Reachable(g: Graph, b: nat) {
    exists p :: PathTo(g, p, 0, b)
  }

  /** Block h is on every path from the entry to the reachable block b. */
  ghost predicate Dominates(g: Graph, h: nat, b: nat) {
    Reachable(g, b) && forall p :: PathTo(g, p, 0, b) ==> h in p
  }

  /** An edge to a block that dominates its source. */
  ghost predicate BackEdge(g: Graph, u: nat, h: nat) {
    u < |g| && h in g[u] && Dominates(g, h, u)
  }

  ghost predicate Header(g: Graph, h: nat) {
    exists u :: BackEdge(g, u, h)
  }

  /** A way from u to the source of a back edge to h that does not pass h. */
  ghost predicate ToLatch(g: Graph, h: nat, u: nat, p: seq<nat>) {
    Path(g, p) && p[0] == u && BackEdge(g, p[|p| - 1], h) && h !in p
  }

  ghost predicate InLoop(g: Graph, h: nat, u: nat) {
    Reachable(g, u) && (u == h || exists p :: ToLatch(g, h, u, p))
  }

  // ---------- Paths ----------

  lemma {:induction false} Joined(g: Graph, p: seq<nat>, q: seq<nat>, u: nat, v: nat, w: nat)
    requires PathTo(g, p, u, v) && PathTo(g, q, v, w)
    ensures PathTo(g, p + q[1..], u, w)
    ensures forall x :: x in p + q[1..] <==> x in p || x in q
  {
    var r := p + q[1..];
    forall i, j | 0 <= i && j == i + 1 < |r|
      ensures r[j] in g[r[i]]
    {
      if j == |p| {
        assert r[j] == q[1] && r[i] == q[0];
      } else if j > |p| {
        assert r[j] == q[j - |p| + 1] && r[i] == q[i - |p| + 1];
      }
    }
    forall x | x in q
      ensures x in r
    {
      var i :| 0 <= i < |q| && q[i] == x;
      assert x == if i == 0 then r[|p| - 1] else r[|p| + i - 1];
    }
  }

  lemma {:induction false} Prefix(g: Graph, p: seq<nat>, i: nat)
    requires Path(g, p) && i < |p|
    ensures PathTo(g, p[..i + 1], p[0], p[i])
    ensures PathTo(g, p[i..], p[i], p[|p| - 1])
  {
  }

  /** A path without its detours: no block twice, no other blocks. */
  lemma {:induction false} Simple(g: Graph, p: seq<nat>, u: nat, v: nat) returns (q: seq<nat>)
    requires PathTo(g, p, u, v)
    ensures PathTo(g, q, u, v) && (forall x :: x in q ==> x in p)
    ensures forall i, j :: 0 <= i < j < |q| ==> q[i] != q[j]
    decreases |p|
  {
    if i, j :| 0 <= i < j < |p| && p[i] == p[j] {
      Prefix(g, p, i);
      Prefix(g, p, j);
      Joined(g, p[..i + 1], p[j..], u, p[i], v);
      q := Simple(g, p[..i + 1] + p[j..][1..], u, v);
    } else {
      q := p;
    }
  }

  /** If h does not dominate the reachable block b, some path avoids it. */
  lemma {:induction false} Avoids(g: Graph, h: nat, b: nat) returns (p: seq<nat>)
    requires Reachable(g, b) && !Dominates(g, h, b)
    ensures PathTo(g, p, 0, b) && h !in p
  {
    p :| PathTo(g, p, 0, b) && h !in p;
  }

  // ---------- Dominance ----------

  lemma {:induction false} DominatorReachable(g: Graph, h: nat, b: nat)
    requires Dominates(g, h, b)
    ensures Reachable(g, h)
  {
    var p :| PathTo(g, p, 0, b);
    var i :| 0 <= i < |p| && p[i] == h;
    Prefix(g, p, i);
  }

  lemma {:induction false} DominatesAntisymmetric(g: Graph, a: nat, b: nat)
    requires Dominates(g, a, b) && Dominates(g, b, a)
    ensures a == b
  {
    var p :| PathTo(g, p, 0, b);
    var q := Simple(g, p, 0, b);
    var i :| 0 <= i < |q| && q[i] == a;
    Prefix(g, q, i);
    var j :| 0 <= j < |q[..i + 1]| && q[..i + 1][j] == b;
    assert q[j] == q[|q| - 1];
  }

  /** Two dominators of the same block are ordered. */
  lemma {:induction false} DominatorsOrdered(g: Graph, a: nat, b: nat, c: nat)
    requires Dominates(g, a, c) && Dominates(g, b, c)
    ensures Dominates(g, a, b) || Dominates(g, b, a)
  {
    DominatorReachable(g, a, c);
    DominatorReachable(g, b, c);
    if !Dominates(g, a, b) && !Dominates(g, b, a) {
      var p0 :| PathTo(g, p0, 0, c);
      var p := Simple(g, p0, 0, c);
      var i :| 0 <= i < |p| && p[i] == a;
      var j :| 0 <= j < |p| && p[j] == b;
      if i < j {
        BypassesEarlier(g, a, b, c, p, i, j);
      } else {
        assert i != j by {
          if i == j {
            var q := Avoids(g, a, b);
          }
        }
        BypassesEarlier(g, b, a, c, p, j, i);
      }
    }
  }

  /** A way to b around a, continued along a path that has left a behind, avoids a altogether. */
  lemma {:induction false} BypassesEarlier(g: Graph, a: nat, b: nat, c: nat, p: seq<nat>, i: nat, j: nat)
    requires PathTo(g, p, 0, c) && i < j < |p| && p[i] == a && p[j] == b && Reachable(g, b) && !Dominates(g, a, b)
    requires forall x, y :: 0 <= x < y < |p| ==> p[x] != p[y]
    ensures !Dominates(g, a, c)
  {
    var q := Avoids(g, a, b);
    Prefix(g, p, j);
    Joined(g, q, p[j..], 0, b, c);
    assert a !in q + p[j..][1..];
  }

  // ---------- Natural loops ----------

  /** The header dominates every block of its loop. */
  lemma {:induction false} HeaderDominates(g: Graph, h: nat, u: nat)
    requires InLoop(g, h, u)
    ensures Dominates(g, h, u)
  {
    if u == h {
      forall p | PathTo(g, p, 0, u)
        ensures h in p
      {
        assert p[|p| - 1] == h;
      }
    } else if !Dominates(g, h, u) {
      var p :| ToLatch(g, h, u, p);
      var q := Avoids(g, h, u);
      Joined(g, q, p, 0, u, p[|p| - 1]);
      assert false;
    }
  }

  /** Among the predecessors of a header, those in the loop are the sources of its back edges. */
  lemma {:induction false} LatchesAreInside(g: Graph, h: nat, u: nat)
    requires u < |g| && h in g[u]
    ensures InLoop(g, h, u) <==> BackEdge(g, u, h)
  {
    if InLoop(g, h, u) {
      HeaderDominates(g, h, u);
    }
    if BackEdge(g, u, h) && u != h {
      assert ToLatch(g, h, u, [u]);
    }
  }

  /** A way that leaves a header behind, without coming back to it, stays in the loop. */
  lemma {:induction false} InnerHeaderInside(g: Graph, h: nat, k: nat, b: nat)
    requires InLoop(g, h, b) && InLoop(g, k, b) && Dominates(g, h, k) && h != k
    ensures InLoop(g, h, k)
  {
    HeaderDominates(g, h, b);
    HeaderDominates(g, k, b);
    DominatorReachable(g, k, b);
    var p0 :| PathTo(g, p0, 0, b);
    var p := Simple(g, p0, 0, b);
    var j :| 0 <= j < |p| && p[j] == k;
    Prefix(g, p, j);
    assert h in p[..j + 1];
    var i :| 0 <= i < |p[..j + 1]| && p[..j + 1][i] == h;
    assert p[i] == h && i < j;
    assert h !in p[j..];
    assert b != h by {
      assert p[|p| - 1] == b && i < |p| - 1;
    }
    var q :| ToLatch(g, h, b, q);
    Joined(g, p[j..], q, k, b, q[|q| - 1]);
    assert ToLatch(g, h, k, p[j..] + q[1..]);
  }

  /** The outer header is not met between a block of the inner loop and the inner header. */
  lemma {:induction false} OuterHeaderAvoided(g: Graph, h: nat, k: nat, u: nat, p: seq<nat>)
    requires Dominates(g, h, k) && h != k && ToLatch(g, k, u, p) && Reachable(g, u)
    ensures h !in p
  {
    if i :| 0 <= i < |p| && p[i] == h {
      if Dominates(g, k, h) {
        DominatesAntisymmetric(g, h, k);
      }
      DominatorReachable(g, h, k);
      var q := Avoids(g, k, h);
      Prefix(g, p, i);
      Joined(g, q, p[i..], 0, h, p[|p| - 1]);
      assert false;
    }
  }

  lemma {:induction false} InnerLoopInside(g: Graph, h: nat, k: nat, b: nat, u: nat)
    requires InLoop(g, h, b) && InLoop(g, k, b) && Dominates(g, h, k) && h != k && InLoop(g, k, u)
    ensures InLoop(g, h, u)
  {
    InnerHeaderInside(g, h, k, b);
    if u != k {
      var p :| ToLatch(g, k, u, p);
      OuterHeaderAvoided(g, h, k, u, p);
      var l := p[|p| - 1];
      assert PathTo(g, [l, k], l, k);
      Joined(g, p, [l, k], u, l, k);
      var p' := p + [l, k][1..];
      var q :| ToLatch(g, h, k, q);
      Joined(g, p', q, u, k, q[|q| - 1]);
      assert ToLatch(g, h, u, p' + q[1..]);
    }
  }

  /** Loops with different headers that share a block are nested. */
  lemma {:induction false} LoopsNest(g: Graph, h: nat, k: nat, b: nat)
    requires h != k && InLoop(g, h, b) && InLoop(g, k, b)
    ensures (forall u :: InLoop(g, k, u) ==> InLoop(g, h, u)) || (forall u :: InLoop(g, h, u) ==> InLoop(g, k, u))
  {
    HeaderDominates(g, h, b);
    HeaderDominates(g, k, b);
    DominatorsOrdered(g, h, k, b);
    if Dominates(g, h, k) {
      forall u | InLoop(g, k, u)
        ensures InLoop(g, h, u)
      {
        InnerLoopInside(g, h, k, b, u);
      }
    } else {
      forall u | InLoop(g, h, u)
        ensures InLoop(g, k, u)
      {
        InnerLoopInside(g, k, h, b, u);
      }
    }
  }

  // ---------- The forest of loops ----------

  /** The blocks of the loop of a header. */
  ghost function LoopBlocks(g: Graph, h: nat): (b: set<nat>)
    ensures forall u: nat {:trigger u in b} :: u in b <==> InLoop(g, h, u)
  {
    assert forall u: nat :: InLoop(g, h, u) ==> u < |g|;
    set u: nat | u < |g| && InLoop(g, h, u)
  }

  lemma {:induction false} LoopsDiffer(g: Graph, h: nat, k: nat)
    requires Reachable(g, h) && Reachable(g, k) && LoopBlocks(g, h) == LoopBlocks(g, k)
    ensures h == k
  {
    assert h in LoopBlocks(g, k) && k in LoopBlocks(g, h);
    HeaderDominates(g, h, k);
    HeaderDominates(g, k, h);
    DominatorsOrdered(g, h, k, h);
    DominatesAntisymmetric(g, h, k);
  }

  /** Of any set of headers one has a loop that lies inside no other's. */
  lemma {:induction false} Outermost(g: Graph, hs: set<nat>) returns (h: nat)
    requires hs != {} && forall k :: k in hs ==> Reachable(g, k)
    ensures h in hs
    ensures forall k {:trigger k in hs} :: k in hs ==>
              LoopBlocks(g, k) <= LoopBlocks(g, h) || LoopBlocks(g, k) !! LoopBlocks(g, h)
  {
    h := Largest(g, hs);
    forall k | k in hs && k != h
      ensures LoopBlocks(g, k) <= LoopBlocks(g, h) || LoopBlocks(g, k) !! LoopBlocks(g, h)
    {
      var (a, b) := (LoopBlocks(g, k), LoopBlocks(g, h));
      if u :| u in a && u in b {
        LoopsNest(g, h, k, u);
        if !(a <= b) {
          assert b <= a;
          SmallerInside(b, a);
          LoopsDiffer(g, h, k);
        }
      }
    }
  }

  lemma {:induction false} SmallerInside(a: set<nat>, b: set<nat>)
    requires a <= b && |b| <= |a|
    ensures a == b
  {
    assert |b - a| == |b| - |a|;
  }

  lemma {:induction false} Largest(g: Graph, hs: set<nat>) returns (h: nat)
    requires hs != {}
    ensures h in hs && forall k {:trigger k in hs} :: k in hs ==> |LoopBlocks(g, k)| <= |LoopBlocks(g, h)|
    decreases |hs|
  {
    h :| h in hs;
    if hs != {h} {
      assert hs - {h} != {};
      var k := Largest(g, hs - {h});
      assert forall x {:trigger x in hs} :: x in hs ==> x == h || x in hs - {h};
      if |LoopBlocks(g, k)| > |LoopBlocks(g, h)| {
        h := k;
      }
    }
  }
}
