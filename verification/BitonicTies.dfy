/**
 What the bitonic sort does with ties, where the single path of a descent can go the wrong way.  The exact bound
 is the height: three for the sort, two for a merge alone.
 */
module BitonicTies {
  import opened Bitonic

  /** Whatever the values, the sort of a tree of height k puts them in order. */
  ghost predicate AlwaysSorts(k: nat, dir: bool) {
    forall t, spare {:trigger Sort(t, spare, k, dir)} :: Perfect(t, k) ==>
      InOrder(Line(Sort(t, spare, k, dir).0, Sort(t, spare, k, dir).1), dir)
  }

  /** Whatever the never-alternating values, one merge of a tree of height k puts them in order. */
  ghost predicate AlwaysMerges(k: nat, dir: bool) {
    forall t, spare {:trigger Merge(t, spare, k, dir)} :: Perfect(t, k) && NeverAlternates(Line(t, spare)) ==>
      InOrder(Line(Merge(t, spare, k, dir).0, Merge(t, spare, k, dir).1), dir)
  }

  // ---------- Up to height two a merge is right ----------

  function Leaf(v: int): (u: Tree) {
    Node(Nil, v, Nil)
  }

  lemma {:induction false} LeafLine(v: int, spare: int)
    ensures Line(Leaf(v), spare) == [v, spare]
  {
    assert Values(Leaf(v)) == [v];
  }

  lemma {:induction false} IsLeaf(t: Tree)
    requires Perfect(t, 1)
    ensures t == Leaf(t.value)
  {
  }

  lemma {:induction false} MergeLeaf(a: int, b: int, dir: bool)
    ensures Merge(Leaf(a), b, 1, dir) == if Exchange(a, b, dir) then (Leaf(b), a) else (Leaf(a), b)
  {
  }

  lemma {:induction false} MergeOne(t: Tree, spare: int, dir: bool)
    requires Perfect(t, 1)
    ensures InOrder(Line(Merge(t, spare, 1, dir).0, Merge(t, spare, 1, dir).1), dir)
  {
    IsLeaf(t);
    MergeLeaf(t.value, spare, dir);
    LeafLine(t.value, spare);
    LeafLine(spare, t.value);
  }

  /** Two lines, each in order, the first before the second. */
  lemma {:induction false} OrderedJoin(x: seq<int>, y: seq<int>, dir: bool)
    requires InOrder(x, dir) && InOrder(y, dir) && forall u, w :: u in x && w in y ==> !Before(w, u, dir)
    ensures InOrder(x + y, dir)
  {
    var s := x + y;
    forall i, j | 0 <= i < j < |s|
      ensures !Before(s[j], s[i], dir)
    {
      if i < |x| <= j {
        assert s[i] == x[i] && s[i] in x && s[j] == y[j - |x|] && s[j] in y;
      }
    }
  }

  /** The values of the descent's halves decide what the merge makes of a line. */
  lemma {:induction false} MergeFromHalves(t: Tree, spare: int, k: nat, dir: bool)
    requires k > 0 && Perfect(t, k)
    requires var (l, v, r, s) := Descended(t, spare, k, dir);
             && InOrder(Line(Merge(l, v, k - 1, dir).0, Merge(l, v, k - 1, dir).1), dir)
             && InOrder(Line(Merge(r, s, k - 1, dir).0, Merge(r, s, k - 1, dir).1), dir)
             && forall u, w :: u in Line(l, v) && w in Line(r, s) ==> !Before(w, u, dir)
    ensures InOrder(Line(Merge(t, spare, k, dir).0, Merge(t, spare, k, dir).1), dir)
  {
    var (l, v, r, s) := Descended(t, spare, k, dir);
    var (l', v') := Merge(l, v, k - 1, dir);
    var (r', s') := Merge(r, s, k - 1, dir);
    MergePermutes(l, v, k - 1, dir);
    MergePermutes(r, s, k - 1, dir);
    SameElements(Line(l, v), Line(l', v'));
    SameElements(Line(r, s), Line(r', s'));
    OrderedJoin(Line(l', v'), Line(r', s'), dir);
    LineSplits(Node(l', v', r'), s');
  }

  lemma {:induction false} SameElements(x: seq<int>, y: seq<int>)
    requires multiset(x) == multiset(y)
    ensures forall u :: u in x <==> u in y
  {
    forall u
      ensures u in x <==> u in y
    {
      assert u in x <==> u in multiset(x);
      assert u in y <==> u in multiset(y);
    }
  }

  lemma {:induction false} DescendLeaves(a: int, b: int, right: bool, dir: bool)
    ensures Descend(Leaf(a), Leaf(b), 1, right, dir) ==
              if Exchange(a, b, dir) then (Leaf(b), Leaf(a)) else (Leaf(a), Leaf(b))
  {
  }

  lemma {:induction false} MergeTwo(t: Tree, spare: int, dir: bool)
    requires Perfect(t, 2) && NeverAlternates(Line(t, spare))
    ensures InOrder(Line(Merge(t, spare, 2, dir).0, Merge(t, spare, 2, dir).1), dir)
  {
    var (a, b, c) := (t.left.value, t.value, t.right.value);
    IsLeaf(t.left);
    IsLeaf(t.right);
    LineSplits(t, spare);
    LeafLine(a, b);
    LeafLine(c, spare);
    assert !AlternatesAt(Line(t, spare), 0, 1, 2, 3);
    var right := Exchange(b, spare, dir);
    DescendLeaves(a, c, right, dir);
    var (l, v, r, s) := Descended(t, spare, 2, dir);
    LeafLine(l.value, v);
    LeafLine(r.value, s);
    MergeOne(l, v, dir);
    MergeOne(r, s, dir);
    MergeFromHalves(t, spare, 2, dir);
  }

  lemma {:induction false} MergesUpToTwo(k: nat, dir: bool)
    requires k <= 2
    ensures AlwaysMerges(k, dir)
  {
    forall t, spare | Perfect(t, k) && NeverAlternates(Line(t, spare))
      ensures InOrder(Line(Merge(t, spare, k, dir).0, Merge(t, spare, k, dir).1), dir)
    {
      if k == 1 {
        MergeOne(t, spare, dir);
      } else if k == 2 {
        MergeTwo(t, spare, dir);
      }
    }
  }

  // ---------- Up to height three the sort is right ----------

  /** A tree of height two: with the spare, four values. */
  function Small(a: int, b: int, c: int): (t: Tree)
    ensures Perfect(t, 2)
  {
    var t := Node(Leaf(a), b, Leaf(c));
    assert Perfect(t.left, 1) && Perfect(t.right, 1);
    t
  }

  lemma {:induction false} IsSmall(t: Tree)
    requires Perfect(t, 2)
    ensures t.left.Node? && t.right.Node? && t == Small(t.left.value, t.value, t.right.value)
  {
    IsLeaf(t.left);
    IsLeaf(t.right);
  }

  lemma {:induction false} SmallLine(a: int, b: int, c: int, d: int)
    ensures Line(Small(a, b, c), d) == [a, b, c, d]
  {
    LineSplits(Small(a, b, c), d);
    LeafLine(a, b);
    LeafLine(c, d);
  }

  lemma {:induction false} DescendSmall(a: int, b: int, c: int, e: int, f: int, g: int, right: bool, dir: bool)
    ensures Descend(Small(a, b, c), Small(e, f, g), 2, right, dir) ==
              match (right, Exchange(b, f, dir))
              case (true, true) =>
                if Exchange(a, e, dir) then (Small(e, f, g), Small(a, b, c)) else (Small(a, f, g), Small(e, b, c))
              case (true, false) =>
                if Exchange(c, g, dir) then (Small(a, b, g), Small(e, f, c)) else (Small(a, b, c), Small(e, f, g))
              case (false, true) =>
                if Exchange(c, g, dir) then (Small(e, f, g), Small(a, b, c)) else (Small(e, f, c), Small(a, b, g))
              case (false, false) =>
                if Exchange(a, e, dir) then (Small(e, b, c), Small(a, f, g)) else (Small(a, b, c), Small(e, f, g))
  {
    DescendLeaves(a, e, right, dir);
    DescendLeaves(c, g, right, dir);
  }

  ghost predicate Apart(x: seq<int>, y: seq<int>, dir: bool) {
    forall u, w :: u in x && w in y ==> !Before(w, u, dir)
  }

  /** What the descent makes of eight values given as two runs of four. */
  function Halves(x: seq<int>, y: seq<int>, dir: bool): (cd: (seq<int>, seq<int>))
    requires |x| == |y| == 4
    ensures |cd.0| == |cd.1| == 4
  {
    var (a, b, c, d) := (x[0], x[1], x[2], x[3]);
    var (e, f, g, h) := (y[0], y[1], y[2], y[3]);
    match (Exchange(d, h, dir), Exchange(b, f, dir))
    case (true, true) =>
      if Exchange(a, e, dir) then ([e, f, g, h], [a, b, c, d]) else ([a, f, g, h], [e, b, c, d])
    case (true, false) =>
      if Exchange(c, g, dir) then ([a, b, g, h], [e, f, c, d]) else ([a, b, c, h], [e, f, g, d])
    case (false, true) =>
      if Exchange(c, g, dir) then ([e, f, g, d], [a, b, c, h]) else ([e, f, c, d], [a, b, g, h])
    case (false, false) =>
      if Exchange(a, e, dir) then ([e, b, c, d], [a, f, g, h]) else ([a, b, c, d], [e, f, g, h])
  }

  /** Two runs of four in opposite directions are split into halves in order of each other. */
  lemma {:induction false} HalvesOfRuns(x: seq<int>, y: seq<int>, dir: bool)
    requires |x| == |y| == 4 && InOrder(x, dir) && InOrder(y, !dir)
    ensures var (c, d) := Halves(x, y, dir);
            NeverAlternates(c) && NeverAlternates(d) && Apart(c, d, dir)
  {
    assert !Before(x[1], x[0], dir) && !Before(x[2], x[1], dir) && !Before(x[3], x[2], dir);
    assert !Before(y[1], y[0], !dir) && !Before(y[2], y[1], !dir) && !Before(y[3], y[2], !dir);
    var (c, d) := Halves(x, y, dir);
    assert !AlternatesAt(c, 0, 1, 2, 3) && !AlternatesAt(d, 0, 1, 2, 3);
    assert forall i, j :: 0 <= i < 4 && 0 <= j < 4 ==> !Before(d[j], c[i], dir);
  }

  lemma {:induction false} RunsSplit(a: int, b: int, c: int, d: int, e: int, f: int, g: int, h: int, dir: bool)
    requires Perfect(Node(Small(a, b, c), d, Small(e, f, g)), 3)
    ensures var (l, v, r, s) := Descended(Node(Small(a, b, c), d, Small(e, f, g)), h, 3, dir);
            (Line(l, v), Line(r, s)) == Halves([a, b, c, d], [e, f, g, h], dir)
  {
    DescendSmall(a, b, c, e, f, g, Exchange(d, h, dir), dir);
    var (l, v, r, s) := Descended(Node(Small(a, b, c), d, Small(e, f, g)), h, 3, dir);
    IsSmall(l);
    IsSmall(r);
    SmallLine(l.left.value, l.value, l.right.value, v);
    SmallLine(r.left.value, r.value, r.right.value, s);
  }
  lemma {:induction false} SortsOne(dir: bool)
    ensures AlwaysSorts(1, dir)
  {
    forall t, spare | Perfect(t, 1)
      ensures InOrder(Line(Sort(t, spare, 1, dir).0, Sort(t, spare, 1, dir).1), dir)
    {
      IsLeaf(t);
      MergeOne(t, spare, dir);
      assert Sort(t, spare, 1, dir) == Merge(t, spare, 1, dir);
    }
  }

  /** Sorting is sorting the halves, in opposite directions, and merging. */
  lemma {:induction false} SortMerges(t: Tree, spare: int, k: nat, dir: bool) returns (u: Tree, s: int)
    requires AlwaysSorts(k, dir) && AlwaysSorts(k, !dir) && Perfect(t, k + 1)
    ensures Perfect(u, k + 1) && Sort(t, spare, k + 1, dir) == Merge(u, s, k + 1, dir)
    ensures InOrder(Line(u.left, u.value), dir) && InOrder(Line(u.right, s), !dir) && NeverAlternates(Line(u, s))
  {
    var (l, v) := Sort(t.left, t.value, k, dir);
    var (r, s') := Sort(t.right, spare, k, !dir);
    u, s := Node(l, v, r), s';
    OppositeRunsNeverAlternate(Line(l, v), Line(r, s), dir);
    LineSplits(u, s);
  }

  lemma {:induction false} SortsTwo(dir: bool)
    ensures AlwaysSorts(2, dir)
  {
    SortsOne(dir);
    SortsOne(!dir);
    forall t, spare | Perfect(t, 2)
      ensures InOrder(Line(Sort(t, spare, 2, dir).0, Sort(t, spare, 2, dir).1), dir)
    {
      var u, s := SortMerges(t, spare, 1, dir);
      MergeTwo(u, s, dir);
    }
  }

  /** Two runs of four in opposite directions, ties or not, are merged into order. */
  lemma {:induction false} MergeThree(u: Tree, s: int, dir: bool)
    requires Perfect(u, 3) && InOrder(Line(u.left, u.value), dir) && InOrder(Line(u.right, s), !dir)
    ensures InOrder(Line(Merge(u, s, 3, dir).0, Merge(u, s, 3, dir).1), dir)
  {
    IsSmall(u.left);
    IsSmall(u.right);
    var (a, b, c, d) := (u.left.left.value, u.left.value, u.left.right.value, u.value);
    var (e, f, g, h) := (u.right.left.value, u.right.value, u.right.right.value, s);
    SmallLine(a, b, c, d);
    SmallLine(e, f, g, h);
    HalvesOfRuns([a, b, c, d], [e, f, g, h], dir);
    RunsSplit(a, b, c, d, e, f, g, h, dir);
    var (l, v, r, s') := Descended(u, s, 3, dir);
    MergeTwo(l, v, dir);
    MergeTwo(r, s', dir);
    MergeFromHalves(u, s, 3, dir);
  }

  lemma {:induction false} SortsUpToThree(k: nat, dir: bool)
    requires k <= 3
    ensures AlwaysSorts(k, dir)
  {
    if k == 1 {
      SortsOne(dir);
    } else if k == 2 {
      SortsTwo(dir);
    } else if k == 3 {
      SortsTwo(dir);
      SortsTwo(!dir);
      forall t, spare | Perfect(t, 3)
        ensures InOrder(Line(Sort(t, spare, 3, dir).0, Sort(t, spare, 3, dir).1), dir)
      {
        var u, s := SortMerges(t, spare, 2, dir);
        MergeThree(u, s, dir);
      }
    }
  }

  // ---------- From height four on, and for a merge from height three on, some line goes wrong ----------

  /** The same value everywhere. */
  function Full(k: nat, v: int): (t: Tree)
    ensures Perfect(t, k)
  {
    if k == 0 then Nil else Node(Full(k - 1, v), v, Full(k - 1, v))
  }

  /** 1 ... 1 0. */
  function LateZero(k: nat): (t: Tree)
    requires k > 0
    ensures Perfect(t, k)
  {
    if k == 1 then Leaf(0) else Node(Full(k - 1, 1), 1, LateZero(k - 1))
  }

  /** 1 0 ... 0. */
  function EarlyOne(k: nat): (t: Tree)
    requires k > 0
    ensures Perfect(t, k)
  {
    if k == 1 then Leaf(1) else Node(EarlyOne(k - 1), 0, Full(k - 1, 0))
  }

  /** 0 0 1 ... 1. */
  function TwoZeros(k: nat): (t: Tree)
    requires k > 1
    ensures Perfect(t, k)
  {
    if k == 2 then Node(Leaf(0), 0, Leaf(1)) else Node(TwoZeros(k - 1), 1, Full(k - 1, 1))
  }

  lemma {:induction false} DescendFull(k: nat, v: int, right: bool, dir: bool)
    ensures Descend(Full(k, v), Full(k, v), k, right, dir) == (Full(k, v), Full(k, v))
  {
    if k > 0 {
      DescendFull(k - 1, v, right, dir);
    }
  }

  lemma {:induction false} MergeFull(k: nat, v: int, dir: bool)
    ensures Merge(Full(k, v), v, k, dir) == (Full(k, v), v)
  {
    if k > 0 {
      DescendFull(k - 1, v, Exchange(v, v, dir), dir);
      MergeFull(k - 1, v, dir);
    }
  }

  lemma {:induction false} SortFull(k: nat, v: int, dir: bool)
    ensures Sort(Full(k, v), v, k, dir) == (Full(k, v), v)
  {
    if k > 0 {
      SortFull(k - 1, v, dir);
      SortFull(k - 1, v, !dir);
      MergeFull(k, v, dir);
    }
  }

  lemma {:induction false} FullValues(k: nat, v: int)
    ensures forall i :: 0 <= i < |Values(Full(k, v))| ==> Values(Full(k, v))[i] == v
    ensures k > 0 ==> |Values(Full(k, v))| > 0
  {
    if k > 0 {
      FullValues(k - 1, v);
    }
  }

  // A lone zero before the last 1 is merged to the wrong place.

  lemma {:induction false} DescendLateZeroAscending(k: nat)
    requires k > 1
    ensures Descend(Full(k, 1), LateZero(k), k, false, false) == (Full(k, 1), LateZero(k))
  {
    DescendFull(k - 1, 1, false, false);
  }

  /** Ascending, the zero stays where it is down to the last four values. */
  lemma {:induction false} MergeLateZeroAscending(k: nat)
    requires k > 1
    ensures var (u, s) := Merge(LateZero(k), 1, k, false);
            0 in Values(u) && (k > 2 ==> Values(u)[0] == 1)
  {
    if k == 2 {
      DescendLeaves(1, 0, false, false);
      MergeLeaf(0, 1, false);
      MergeLeaf(1, 1, false);
      assert Merge(LateZero(2), 1, 2, false) == (Node(Leaf(0), 1, Leaf(1)), 1);
      assert Values(Node(Leaf(0), 1, Leaf(1))) == [0, 1, 1];
    } else {
      DescendLateZeroAscending(k - 1);
      MergeFull(k - 1, 1, false);
      MergeLateZeroAscending(k - 1);
      FullValues(k - 1, 1);
    }
  }

  lemma {:induction false} DescendLateZeroDescending(k: nat)
    requires k > 1
    ensures Descend(Full(k, 1), LateZero(k), k, true, true) == (LateZero(k), Full(k, 1))
    ensures Descend(LateZero(k), Full(k, 1), k, true, true) == (Full(k, 1), LateZero(k))
  {
    DescendFull(k - 1, 1, true, true);
  }

  /** Descending, the ties carry the zero into the first half, together with ones of its own half. */
  lemma {:induction false} MergeLateZeroDescending(k: nat)
    requires k > 1
    ensures var (u, s) := Merge(LateZero(k), 1, k, true);
            if k == 2 then u == Full(2, 1) && s == 0 else 0 in Values(u) && s == 1
  {
    if k == 2 {
      DescendLeaves(1, 0, true, true);
      MergeLeaf(1, 1, true);
      MergeLeaf(0, 1, true);
      assert Full(1, 1) == Leaf(1);
    } else {
      DescendLateZeroDescending(k - 1);
      MergeFull(k - 1, 1, true);
      MergeLateZeroDescending(k - 1);
    }
  }

  lemma {:induction false} LateZeroMisplaced(k: nat, dir: bool)
    requires k > 2
    ensures var (u, s) := Merge(LateZero(k), 1, k, dir);
            !InOrder(Line(u, s), dir)
  {
    var (u, s) := Merge(LateZero(k), 1, k, dir);
    if dir {
      MergeLateZeroDescending(k);
    } else {
      MergeLateZeroAscending(k);
    }
    var p :| 0 <= p < |Values(u)| && Values(u)[p] == 0;
    assert Line(u, s)[p] == 0;
    if dir {
      assert Before(Line(u, s)[|Values(u)|], Line(u, s)[p], dir);
    } else {
      assert Before(Line(u, s)[p], Line(u, s)[0], dir);
    }
  }

  lemma {:induction false} LateZeroValues(k: nat)
    requires k > 0
    ensures var s := Values(LateZero(k)); |s| > 0 && forall i :: 0 <= i < |s| - 1 ==> s[i] == 1
    ensures forall i :: 0 <= i < |Values(LateZero(k))| ==> Values(LateZero(k))[i] <= 1
  {
    if k > 1 {
      LateZeroValues(k - 1);
      FullValues(k - 1, 1);
    }
  }

  lemma {:induction false} LateZeroNeverAlternates(k: nat)
    requires k > 0
    ensures NeverAlternates(Line(LateZero(k), 1))
  {
    var s := Line(LateZero(k), 1);
    LateZeroValues(k);
    assert forall i :: 0 <= i < |s| && i != |s| - 2 ==> s[i] == 1;
    assert forall i :: 0 <= i < |s| ==> s[i] <= 1;
    forall i, j, p, q | 0 <= i < j < p < q < |s|
      ensures !AlternatesAt(s, i, j, p, q)
    {
    }
  }

  /** Height two is the exact bound for a merge, in either direction. */
  lemma {:induction false} MergeBound(k: nat, dir: bool)
    ensures AlwaysMerges(k, dir) <==> k <= 2
  {
    if k <= 2 {
      MergesUpToTwo(k, dir);
    } else {
      LateZeroNeverAlternates(k);
      LateZeroMisplaced(k, dir);
    }
  }

  // Two lines that sorting their halves turns into a lone zero before the last 1.

  lemma {:induction false} DescendEarlyOne(k: nat)
    requires k > 0
    ensures Descend(EarlyOne(k), Full(k, 0), k, false, false) == (Full(k, 0), EarlyOne(k))
    ensures Descend(Full(k, 0), EarlyOne(k), k, false, false) == (Full(k, 0), EarlyOne(k))
  {
    if k == 1 {
      DescendLeaves(1, 0, false, false);
      DescendLeaves(0, 1, false, false);
      assert Full(1, 0) == Leaf(0);
    } else {
      DescendEarlyOne(k - 1);
      DescendFull(k - 1, 0, false, false);
    }
  }

  lemma {:induction false} MergeZeros(k: nat)
    requires k > 0
    ensures Merge(EarlyOne(k), 0, k, false) == (Full(k, 0), 1)
    ensures Merge(Full(k, 0), 1, k, false) == (Full(k, 0), 1)
    ensures Merge(Full(k, 0), 1, k, true) == (EarlyOne(k), 0)
  {
    if k == 1 {
      assert Full(1, 0) == Leaf(0);
      MergeLeaf(1, 0, false);
      MergeLeaf(0, 1, false);
      MergeLeaf(0, 1, true);
    } else {
      MergeZeros(k - 1);
      DescendEarlyOne(k - 1);
      DescendFull(k - 1, 0, false, false);
      DescendFull(k - 1, 0, true, true);
      MergeFull(k - 1, 0, false);
      MergeFull(k - 1, 0, true);
    }
  }

  lemma {:induction false} SortZeros(k: nat)
    requires k > 0
    ensures Sort(Full(k, 0), 1, k, false) == (Full(k, 0), 1)
    ensures Sort(Full(k, 0), 1, k, true) == (EarlyOne(k), 0)
  {
    MergeZeros(k);
    if k == 1 {
      assert Full(1, 0) == Leaf(0);
    } else {
      SortZeros(k - 1);
      SortFull(k - 1, 0, false);
      SortFull(k - 1, 0, true);
      DescendEarlyOne(k - 1);
      MergeFull(k - 1, 0, false);
      MergeZeros(k - 1);
    }
  }

  lemma {:induction false} SortEarlyOne(k: nat)
    requires k > 0
    ensures Sort(EarlyOne(k), 0, k, false) == (Full(k, 0), 1)
  {
    MergeZeros(k);
    if k > 1 {
      SortEarlyOne(k - 1);
      SortFull(k - 1, 0, true);
      DescendFull(k - 1, 0, true, false);
      MergeFull(k - 1, 0, false);
      MergeZeros(k - 1);
    }
  }

  lemma {:induction false} DescendLateZeroTied(k: nat)
    requires k > 0
    ensures Descend(Full(k, 1), LateZero(k), k, false, true) == (Full(k, 1), LateZero(k))
    ensures Descend(Full(k, 0), LateZero(k), k, true, false) == (Full(k, 0), LateZero(k))
    ensures Descend(LateZero(k), Full(k, 0), k, true, true) == (LateZero(k), Full(k, 0))
  {
    if k == 1 {
      assert Full(1, 0) == Leaf(0) && Full(1, 1) == Leaf(1);
      DescendLeaves(1, 0, false, true);
      DescendLeaves(0, 0, true, false);
      DescendLeaves(0, 0, true, true);
    } else {
      DescendLateZeroTied(k - 1);
    }
  }

  lemma {:induction false} MergeLateZeros(k: nat)
    requires k > 0
    ensures Merge(LateZero(k), 0, k, true) == (LateZero(k), 0)
  {
    if k == 1 {
      MergeLeaf(0, 0, true);
    } else {
      MergeLateZeros(k - 1);
      MergeFull(k - 1, 1, true);
      DescendLateZeroTied(k - 1);
    }
  }

  lemma {:induction false} SortTwoZeros(k: nat)
    requires k > 1
    ensures Sort(TwoZeros(k), 1, k, true) == (LateZero(k), 0)
  {
    if k == 2 {
      MergeLeaf(0, 0, true);
      MergeLeaf(1, 1, false);
      DescendLeaves(0, 1, true, true);
      MergeLeaf(1, 1, true);
      assert Full(1, 1) == Leaf(1);
    } else {
      SortTwoZeros(k - 1);
      SortFull(k - 1, 1, false);
      DescendLateZeroDescending(k - 1);
      MergeFull(k - 1, 1, true);
      MergeLateZeros(k - 1);
    }
  }

  /** A line whose sort goes wrong: 0 ... 0 1 0 0 1 ... 1 ascending, 0 0 1 ... 1 0 ... 0 descending. */
  function Misleading(k: nat, dir: bool): (ts: (Tree, int))
    requires k > 2
    ensures Perfect(ts.0, k)
  {
    if dir
    then (Node(TwoZeros(k - 1), 1, EarlyOne(k - 1)), 0)
    else (Node(Full(k - 1, 0), 1, TwoZeros(k - 1)), 1)
  }

  lemma {:induction false} MisleadingSort(k: nat, dir: bool)
    requires k > 3
    ensures var (u, s) := Sort(Misleading(k, dir).0, Misleading(k, dir).1, k, dir);
            !InOrder(Line(u, s), dir)
  {
    SortTwoZeros(k - 1);
    DescendLateZeroTied(k - 1);
    LateZeroMisplaced(k - 1, dir);
    if dir {
      SortEarlyOne(k - 1);
    } else {
      SortZeros(k - 1);
    }
    var (u, s) := Sort(Misleading(k, dir).0, Misleading(k, dir).1, k, dir);
    var (v, w) := Merge(LateZero(k - 1), 1, k - 1, dir);
    var x := Line(v, w);
    LineSplits(u, s);
    if dir {
      assert u.left == v && u.value == w;
      assert forall i :: 0 <= i < |x| ==> Line(u, s)[i] == x[i];
    } else {
      assert u.right == v && s == w;
      var n := |Line(u.left, u.value)|;
      assert forall i :: 0 <= i < |x| ==> Line(u, s)[n + i] == x[i];
    }
  }

  /** Height three is the exact bound for the sort, in either direction. */
  lemma {:induction false} SortBound(k: nat, dir: bool)
    ensures AlwaysSorts(k, dir) <==> k <= 3
  {
    if k <= 3 {
      SortsUpToThree(k, dir);
    } else {
      MisleadingSort(k, dir);
    }
  }
}
