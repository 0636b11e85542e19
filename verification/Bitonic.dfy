/**
 The value-level theory of the adaptive bitonic sort.  A perfect tree read in order, followed by the
 spare value, is one sequence of 2^k values.  `Descend`, `Merge` and `Sort` say what the tree routines
 do to the values; the theorems say what that achieves.
 */
module Bitonic {

  /** The values of a tree, with the tree's shape. */
  datatype Tree = Nil | Node(left: Tree, value: int, right: Tree)

  /** The values in order. */
  function Values(t: Tree): (s: seq<int>)
  {
    match t
    case Nil => []
    case Node(l, v, r) => Values(l) + [v] + Values(r)
  }

  /** How often x occurs in a tree. */
  function Count(t: Tree, x: int): (n: nat)
  {
    match t
    case Nil => 0
    case Node(l, v, r) => Count(l, x) + One(v, x) + Count(r, x)
  }

  function One(v: int, x: int): (n: nat) {
    if v == x then 1 else 0
  }

  lemma {:induction false} CountOfValues(t: Tree, x: int)
    ensures Count(t, x) == multiset(Values(t))[x]
  {
    if t.Node? {
      CountOfValues(t.left, x);
      CountOfValues(t.right, x);
    }
  }

  /** All paths from the root have length k. */
  predicate Perfect(t: Tree, k: nat) {
    match t
    case Nil => k == 0
    case Node(l, v, r) => k > 0 && Perfect(l, k - 1) && Perfect(r, k - 1)
  }

  // ---------- What the tree routines compute ----------

  /** The exchange test `(l > r) ^ dir`; dir is false for ascending order. */
  predicate Exchange(l: int, r: int, dir: bool) {
    (l > r) != dir
  }

  /**
   The descent loop of one merge: a single path down two perfect trees of height k, exchanging whole
   subtrees on one side of it.  `right` says whether the root was exchanged with the spare value.
   */
  function Descend(a: Tree, b: Tree, k: nat, right: bool, dir: bool): (ab: (Tree, Tree))
    requires Perfect(a, k) && Perfect(b, k)
    ensures Perfect(ab.0, k) && Perfect(ab.1, k)
  {
    if k == 0 then (a, b) else
      match (right, Exchange(a.value, b.value, dir))
      case (true, true) =>
        var (l, l') := Descend(a.left, b.left, k - 1, right, dir);
        (Node(l, b.value, b.right), Node(l', a.value, a.right))
      case (true, false) =>
        var (r, r') := Descend(a.right, b.right, k - 1, right, dir);
        (Node(a.left, a.value, r), Node(b.left, b.value, r'))
      case (false, true) =>
        var (r, r') := Descend(a.right, b.right, k - 1, right, dir);
        (Node(b.left, b.value, r), Node(a.left, a.value, r'))
      case (false, false) =>
        var (l, l') := Descend(a.left, b.left, k - 1, right, dir);
        (Node(l, a.value, a.right), Node(l', b.value, b.right))
  }

  /** One merge of a tree of height k and a spare value: exchange at the root, descend, merge both halves. */
  function Merge(t: Tree, spare: int, k: nat, dir: bool): (ts: (Tree, int))
    requires Perfect(t, k)
    ensures Perfect(ts.0, k)
    decreases k
  {
    if k == 0 then (t, spare) else
      var right := Exchange(t.value, spare, dir);
      var (v, s) := if right then (spare, t.value) else (t.value, spare);
      var (l, r) := Descend(t.left, t.right, k - 1, right, dir);
      var (l', v') := Merge(l, v, k - 1, dir);
      var (r', s') := Merge(r, s, k - 1, dir);
      (Node(l', v', r'), s')
  }

  /** The whole sort: sort the halves in opposite directions, then merge. */
  function Sort(t: Tree, spare: int, k: nat, dir: bool): (ts: (Tree, int))
    requires Perfect(t, k)
    ensures Perfect(ts.0, k)
    decreases k
  {
    if k == 0 then (t, spare) else
      var (l, v) := Sort(t.left, t.value, k - 1, dir);
      var (r, s) := Sort(t.right, spare, k - 1, !dir);
      var u := Node(l, v, r);
      Merge(u, s, k, dir)
  }

  // ---------- Vocabulary of the theorems ----------

  /** Does u come strictly before v in direction dir? */
  predicate Before(u: int, v: int, dir: bool) {
    if dir then u > v else u < v
  }

  ghost predicate Sorted(s: seq<int>, dir: bool) {
    forall i, j :: 0 <= i < j < |s| ==> Before(s[i], s[j], dir)
  }

  /** In direction dir, ties allowed. */
  ghost predicate InOrder(s: seq<int>, dir: bool) {
    forall i, j :: 0 <= i < j < |s| ==> !Before(s[j], s[i], dir)
  }

  ghost predicate Distinct(s: seq<int>) {
    forall i, j :: 0 <= i < j < |s| ==> s[i] != s[j]
  }

  function Rotate(s: seq<int>, r: nat): (t: seq<int>)
    requires r <= |s|
    ensures |t| == |s|
  {
    s[r..] + s[..r]
  }

  /** s rises up to position p and falls from there on. */
  ghost predicate RisesThenFalls(s: seq<int>, p: int) {
    && (forall i, j :: 0 <= i < j < |s| && j <= p ==> s[i] < s[j])
    && (forall i, j :: 0 <= i < j < |s| && p <= i ==> s[i] > s[j])
  }

  /** Some rotation of s rises and then falls. */
  ghost predicate IsBitonic(s: seq<int>) {
    exists r: nat, p: int :: r <= |s| && RisesThenFalls(Rotate(s, r), p)
  }

  /** Four positions at which s goes low, high, low, high or high, low, high, low. */
  ghost predicate AlternatesAt(s: seq<int>, i: int, j: int, k: int, l: int)
    requires 0 <= i < j < k < l < |s|
  {
    || (s[i] < s[j] && s[i] < s[l] && s[k] < s[j] && s[k] < s[l])
    || (s[i] > s[j] && s[i] > s[l] && s[k] > s[j] && s[k] > s[l])
  }

  ghost predicate NeverAlternates(s: seq<int>) {
    forall i, j, k, l :: 0 <= i < j < k < l < |s| ==> !AlternatesAt(s, i, j, k, l)
  }

  // ---------- Bitonic sequences are those that never alternate ----------

  lemma {:induction false} RotateNeverAlternates(s: seq<int>, r: nat)
    requires r <= |s| && NeverAlternates(s)
    ensures NeverAlternates(Rotate(s, r))
  {
    var t, n := Rotate(s, r), |s| - r;
    forall i, j, k, l | 0 <= i < j < k < l < |t|
      ensures !AlternatesAt(t, i, j, k, l)
    {
      if l < n {
        assert !AlternatesAt(s, r + i, r + j, r + k, r + l);
      } else if k < n {
        assert !AlternatesAt(s, l - n, r + i, r + j, r + k);
      } else if j < n {
        assert !AlternatesAt(s, k - n, l - n, r + i, r + j);
      } else if i < n {
        assert !AlternatesAt(s, j - n, k - n, l - n, r + i);
      } else {
        assert !AlternatesAt(s, i - n, j - n, k - n, l - n);
      }
    }
  }

  lemma {:induction false} BitonicNeverAlternates(s: seq<int>)
    requires IsBitonic(s)
    ensures NeverAlternates(s)
  {
    var r: nat, p: int :| r <= |s| && RisesThenFalls(Rotate(s, r), p);
    var t := Rotate(s, r);
    forall i, j, k, l | 0 <= i < j < k < l < |t|
      ensures !AlternatesAt(t, i, j, k, l)
    {
    }
    RotateNeverAlternates(t, |s| - r);
    assert Rotate(t, |s| - r) == s;
  }

  lemma {:induction false} Least(s: seq<int>) returns (r: nat)
    requires |s| > 0
    ensures r < |s| && forall i :: 0 <= i < |s| ==> s[r] <= s[i]
  {
    if |s| == 1 {
      r := 0;
    } else {
      r := Least(s[..|s| - 1]);
      assert forall i :: 0 <= i < |s| - 1 ==> s[..|s| - 1][i] == s[i];
      if s[|s| - 1] < s[r] {
        r := |s| - 1;
      }
    }
  }

  lemma {:induction false} Greatest(s: seq<int>) returns (r: nat)
    requires |s| > 0
    ensures r < |s| && forall i :: 0 <= i < |s| ==> s[i] <= s[r]
  {
    if |s| == 1 {
      r := 0;
    } else {
      r := Greatest(s[..|s| - 1]);
      assert forall i :: 0 <= i < |s| - 1 ==> s[..|s| - 1][i] == s[i];
      if s[|s| - 1] > s[r] {
        r := |s| - 1;
      }
    }
  }

  lemma {:induction false} RotateDistinct(s: seq<int>, r: nat)
    requires r <= |s| && Distinct(s)
    ensures Distinct(Rotate(s, r))
  {
  }

  lemma {:induction false} NeverAlternatesIsBitonic(s: seq<int>)
    requires NeverAlternates(s) && Distinct(s)
    ensures IsBitonic(s)
  {
    if s == [] {
      assert RisesThenFalls(Rotate(s, 0), 0);
      return;
    }
    var r := Least(s);
    var t := Rotate(s, r);
    RotateNeverAlternates(s, r);
    RotateDistinct(s, r);
    assert forall i :: 0 <= i < |t| ==> t[0] <= t[i];
    var p := Greatest(t);
    forall i, j | 0 <= i < j < |t| && j <= p
      ensures t[i] < t[j]
    {
      if 0 < i && j < p {
        assert !AlternatesAt(t, 0, i, j, p);
      }
    }
    forall i, j | 0 <= i < j < |t| && p <= i
      ensures t[i] > t[j]
    {
      if 0 < p < i {
        assert !AlternatesAt(t, 0, p, i, j);
      }
    }
    assert RisesThenFalls(t, p);
  }

  // ---------- The descent finds the whole exchange set of a bitonic sequence ----------

  /** Comparing antipodal positions of a never-alternating sequence, the outcome changes at most once. */
  lemma {:induction false} OneChange(s: seq<int>, h: nat, i: nat, j: nat, k: nat, dir: bool)
    requires |s| == 2 * h && i < j < k < h
    requires NeverAlternates(s) && Distinct(s)
    requires Exchange(s[i], s[h + i], dir) != Exchange(s[j], s[h + j], dir)
    ensures Exchange(s[j], s[h + j], dir) == Exchange(s[k], s[h + k], dir)
  {
    var i', j', k' := h + i, h + j, h + k;
    assert !AlternatesAt(s, i, j, k, i');
    assert !AlternatesAt(s, i, j, k, j');
    assert !AlternatesAt(s, i, j, k, k');
    assert !AlternatesAt(s, i, j, i', j');
    assert !AlternatesAt(s, i, j, i', k');
    assert !AlternatesAt(s, i, j, j', k');
    assert !AlternatesAt(s, i, k, i', j');
    assert !AlternatesAt(s, i, k, i', k');
    assert !AlternatesAt(s, i, k, j', k');
    assert !AlternatesAt(s, i, i', j', k');
    assert !AlternatesAt(s, j, k, i', j');
    assert !AlternatesAt(s, j, k, i', k');
    assert !AlternatesAt(s, j, k, j', k');
    assert !AlternatesAt(s, j, i', j', k');
    assert !AlternatesAt(s, k, i', j', k');
  }


  /** c and d are a and b with the pairs that fail the exchange test exchanged: the plain half-cleaner. */
  ghost predicate PairsExchanged(a: seq<int>, b: seq<int>, c: seq<int>, d: seq<int>, dir: bool) {
    && |a| == |b| == |c| == |d|
    && forall i :: 0 <= i < |a| ==>
         (c[i], d[i]) == if Exchange(a[i], b[i], dir) then (b[i], a[i]) else (a[i], b[i])
  }

  /** Once the exchange test gives `right` it goes on giving `right`. */
  ghost predicate Steps(a: seq<int>, b: seq<int>, right: bool, dir: bool)
    requires |a| == |b|
  {
    forall i, j :: 0 <= i < j < |a| && Exchange(a[i], b[i], dir) == right ==> Exchange(a[j], b[j], dir) == right
  }

  lemma {:induction false} PerfectLength(a: Tree, b: Tree, k: nat)
    requires Perfect(a, k) && Perfect(b, k)
    ensures |Values(a)| == |Values(b)|
  {
    if k > 0 {
      PerfectLength(a.left, b.left, k - 1);
      PerfectLength(a.right, b.right, k - 1);
    }
  }

  /** When the exchange set is a suffix (or a prefix), one path finds all of it. */
  lemma {:induction false} DescendExchanges(a: Tree, b: Tree, k: nat, right: bool, dir: bool)
    requires Perfect(a, k) && Perfect(b, k)
    requires |Values(a)| == |Values(b)| && Steps(Values(a), Values(b), right, dir)
    ensures var (c, d) := Descend(a, b, k, right, dir);
            PairsExchanged(Values(a), Values(b), Values(c), Values(d), dir)
  {
    if k > 0 {
      PerfectLength(a.left, b.left, k - 1);
      PerfectLength(a.right, b.right, k - 1);
      var (al, ar, bl, br) := (Values(a.left), Values(a.right), Values(b.left), Values(b.right));
      StepsParts(al, a.value, ar, bl, b.value, br, right, dir);
      var (c, d) := Descend(a, b, k, right, dir);
      if Exchange(a.value, b.value, dir) == right {
        DescendExchanges(a.left, b.left, k - 1, right, dir);
      } else {
        DescendExchanges(a.right, b.right, k - 1, right, dir);
      }
      ExchangedJoin(al, a.value, ar, bl, b.value, br, Values(c.left), c.value, Values(c.right),
                    Values(d.left), d.value, Values(d.right), dir);
    }
  }

  lemma {:induction false} ExchangedJoin(al: seq<int>, av: int, ar: seq<int>, bl: seq<int>, bv: int, br: seq<int>,
                      cl: seq<int>, cv: int, cr: seq<int>, dl: seq<int>, dv: int, dr: seq<int>, dir: bool)
    requires PairsExchanged(al, bl, cl, dl, dir) && PairsExchanged(ar, br, cr, dr, dir)
    requires (cv, dv) == if Exchange(av, bv, dir) then (bv, av) else (av, bv)
    ensures PairsExchanged(al + [av] + ar, bl + [bv] + br, cl + [cv] + cr, dl + [dv] + dr, dir)
  {
  }

  lemma {:induction false} ThreeParts(l: seq<int>, v: int, r: seq<int>)
    ensures forall i :: 0 <= i < |l| ==> (l + [v] + r)[i] == l[i]
    ensures (l + [v] + r)[|l|] == v
    ensures forall i :: 0 <= i < |r| ==> (l + [v] + r)[|l| + 1 + i] == r[i]
  {
  }

  lemma {:induction false} StepsWithin(a: seq<int>, b: seq<int>, n: nat, c: seq<int>, d: seq<int>, right: bool,
                                       dir: bool)
    requires |a| == |b| && Steps(a, b, right, dir) && |c| == |d| && n + |c| <= |a|
    requires forall i :: 0 <= i < |c| ==> a[n + i] == c[i] && b[n + i] == d[i]
    ensures Steps(c, d, right, dir)
  {
    forall i, j | 0 <= i < j < |c| && Exchange(c[i], d[i], dir) == right
      ensures Exchange(c[j], d[j], dir) == right
    {
      assert Exchange(a[n + i], b[n + i], dir) == right && n + i < n + j;
    }
  }

  /** Beyond a position where the exchange test gives `right` nothing changes but the names. */
  lemma {:induction false} StepsAfter(a: seq<int>, b: seq<int>, n: nat, c: seq<int>, d: seq<int>, right: bool,
                                      dir: bool)
    requires |a| == |b| && Steps(a, b, right, dir) && |c| == |d| && n + 1 + |c| <= |a|
    requires forall i :: 0 <= i < |c| ==> a[n + 1 + i] == c[i] && b[n + 1 + i] == d[i]
    requires Exchange(a[n], b[n], dir) == right
    ensures if right then PairsExchanged(c, d, d, c, dir) else PairsExchanged(c, d, c, d, dir)
  {
    forall j | 0 <= j < |c|
      ensures Exchange(c[j], d[j], dir) == right
    {
      assert Exchange(a[n + 1 + j], b[n + 1 + j], dir) == right;
    }
  }

  lemma {:induction false} StepsBefore(a: seq<int>, b: seq<int>, n: nat, c: seq<int>, d: seq<int>, right: bool,
                                       dir: bool)
    requires |a| == |b| && Steps(a, b, right, dir) && |c| == |d| == n < |a|
    requires forall i :: 0 <= i < n ==> a[i] == c[i] && b[i] == d[i]
    requires Exchange(a[n], b[n], dir) != right
    ensures if right then PairsExchanged(c, d, c, d, dir) else PairsExchanged(c, d, d, c, dir)
  {
    forall j | 0 <= j < n
      ensures Exchange(c[j], d[j], dir) != right
    {
      assert Exchange(a[j], b[j], dir) != right;
    }
  }

  lemma {:induction false} StepsParts(al: seq<int>, av: int, ar: seq<int>, bl: seq<int>, bv: int, br: seq<int>,
                                      right: bool, dir: bool)
    requires |al| == |bl| && |ar| == |br|
    requires Steps(al + [av] + ar, bl + [bv] + br, right, dir)
    ensures Steps(al, bl, right, dir) && Steps(ar, br, right, dir)
    ensures Exchange(av, bv, dir) == right ==>
              if right then PairsExchanged(ar, br, br, ar, dir) else PairsExchanged(ar, br, ar, br, dir)
    ensures Exchange(av, bv, dir) != right ==>
              if right then PairsExchanged(al, bl, al, bl, dir) else PairsExchanged(al, bl, bl, al, dir)
  {
    var (a, b) := (al + [av] + ar, bl + [bv] + br);
    ThreeParts(al, av, ar);
    ThreeParts(bl, bv, br);
    StepsWithin(a, b, 0, al, bl, right, dir);
    StepsWithin(a, b, |al| + 1, ar, br, right, dir);
    if Exchange(av, bv, dir) == right {
      StepsAfter(a, b, |al|, ar, br, right, dir);
    } else {
      StepsBefore(a, b, |al|, al, bl, right, dir);
    }
  }

  // ---------- Nothing is lost, whatever the values ----------

  lemma {:induction false} DescendKeepsCount(a: Tree, b: Tree, k: nat, right: bool, dir: bool, x: int)
    requires Perfect(a, k) && Perfect(b, k)
    ensures var (c, d) := Descend(a, b, k, right, dir);
            Count(c, x) + Count(d, x) == Count(a, x) + Count(b, x)
  {
    if k > 0 {
      if Exchange(a.value, b.value, dir) == right {
        DescendKeepsCount(a.left, b.left, k - 1, right, dir, x);
      } else {
        DescendKeepsCount(a.right, b.right, k - 1, right, dir, x);
      }
    }
  }

  lemma {:induction false} MergeKeepsCount(t: Tree, spare: int, k: nat, dir: bool, x: int)
    requires Perfect(t, k)
    ensures var (u, s) := Merge(t, spare, k, dir);
            Count(u, x) + One(s, x) == Count(t, x) + One(spare, x)
    decreases k
  {
    if k > 0 {
      var right := Exchange(t.value, spare, dir);
      var (v, s) := if right then (spare, t.value) else (t.value, spare);
      var (l, r) := Descend(t.left, t.right, k - 1, right, dir);
      DescendKeepsCount(t.left, t.right, k - 1, right, dir, x);
      MergeKeepsCount(l, v, k - 1, dir, x);
      MergeKeepsCount(r, s, k - 1, dir, x);
    }
  }

  lemma {:induction false} SortKeepsCount(t: Tree, spare: int, k: nat, dir: bool, x: int)
    requires Perfect(t, k)
    ensures var (u, s) := Sort(t, spare, k, dir);
            Count(u, x) + One(s, x) == Count(t, x) + One(spare, x)
    decreases k
  {
    if k > 0 {
      var (l, v) := Sort(t.left, t.value, k - 1, dir);
      var (r, s) := Sort(t.right, spare, k - 1, !dir);
      SortKeepsCount(t.left, t.value, k - 1, dir, x);
      SortKeepsCount(t.right, spare, k - 1, !dir, x);
      MergeKeepsCount(Node(l, v, r), s, k, dir, x);
    }
  }

  /** c picks one member of every antipodal pair of s, always the first or always the last in direction dir. */
  ghost predicate PicksFrom(s: seq<int>, n: nat, c: seq<int>, lower: bool)
    requires |s| == 2 * n && |c| == n
  {
    forall i :: 0 <= i < n ==> c[i] == if (s[i] < s[n + i]) == lower then s[i] else s[n + i]
  }

  /** Taking the lesser (or greater) member of every antipodal pair introduces no alternation. */
  lemma {:induction false} PickedNeverAlternates(s: seq<int>, n: nat, c: seq<int>, lower: bool)
    requires |s| == 2 * n && |c| == n && PicksFrom(s, n, c, lower)
    requires NeverAlternates(s) && Distinct(s)
    ensures NeverAlternates(c) && Distinct(c)
  {
    forall i, j | 0 <= i < j < n
      ensures c[i] != c[j]
    {
      assert s[i] != s[j] && s[i] != s[n + j] && s[j] != s[n + i] && s[n + i] != s[n + j];
    }
    forall i, j, p, q | 0 <= i < j < p < q < n
      ensures !AlternatesAt(c, i, j, p, q)
    {
      assert !AlternatesAt(s, i, j, p, q);
      assert !AlternatesAt(s, i, j, p, n + q);
      assert !AlternatesAt(s, i, j, n + p, n + q);
      assert !AlternatesAt(s, i, n + j, n + p, n + q);
      assert !AlternatesAt(s, n + i, n + j, n + p, n + q);
      assert !AlternatesAt(s, j, p, q, n + i);
      assert !AlternatesAt(s, p, q, n + i, n + j);
      assert !AlternatesAt(s, q, n + i, n + j, n + p);
    }
  }

  // ---------- All values of a tree and its spare ----------

  /** All the values a merge or sort works on, in order. */
  function Line(t: Tree, spare: int): (s: seq<int>)
    ensures |s| > 0
  {
    Values(t) + [spare]
  }

  lemma {:induction false} CountOfLine(t: Tree, spare: int, x: int)
    ensures multiset(Line(t, spare))[x] == Count(t, x) + One(spare, x)
  {
    CountOfValues(t, x);
  }

  lemma {:induction false} SameCountsSameBag(t: Tree, spare: int, u: Tree, s: int)
    requires forall x :: Count(u, x) + One(s, x) == Count(t, x) + One(spare, x)
    ensures multiset(Line(u, s)) == multiset(Line(t, spare))
  {
    forall x
      ensures multiset(Line(u, s))[x] == multiset(Line(t, spare))[x]
    {
      CountOfLine(t, spare, x);
      CountOfLine(u, s, x);
    }
  }

  /** Merging permutes the values, ties or not, and keeps the tree perfect. */
  lemma {:induction false} MergePermutes(t: Tree, spare: int, k: nat, dir: bool)
    requires Perfect(t, k)
    ensures var (u, s) := Merge(t, spare, k, dir);
            Perfect(u, k) && multiset(Line(u, s)) == multiset(Line(t, spare))
  {
    var (u, s) := Merge(t, spare, k, dir);
    forall x
      ensures Count(u, x) + One(s, x) == Count(t, x) + One(spare, x)
    {
      MergeKeepsCount(t, spare, k, dir, x);
    }
    SameCountsSameBag(t, spare, u, s);
  }

  /** Sorting permutes the values, ties or not, and keeps the tree perfect. */
  lemma {:induction false} SortPermutes(t: Tree, spare: int, k: nat, dir: bool)
    requires Perfect(t, k)
    ensures var (u, s) := Sort(t, spare, k, dir);
            Perfect(u, k) && multiset(Line(u, s)) == multiset(Line(t, spare))
  {
    var (u, s) := Sort(t, spare, k, dir);
    forall x
      ensures Count(u, x) + One(s, x) == Count(t, x) + One(spare, x)
    {
      SortKeepsCount(t, spare, k, dir, x);
    }
    SameCountsSameBag(t, spare, u, s);
  }

  // ---------- One level of a merge ----------

  /** The tree and spare value between the descent loop and the recursive merges. */
  function Descended(t: Tree, spare: int, k: nat, dir: bool): (lvrs: (Tree, int, Tree, int))
    requires k > 0 && Perfect(t, k)
    ensures Perfect(lvrs.0, k - 1) && Perfect(lvrs.2, k - 1)
  {
    var right := Exchange(t.value, spare, dir);
    var (v, s) := if right then (spare, t.value) else (t.value, spare);
    var (l, r) := Descend(t.left, t.right, k - 1, right, dir);
    (l, v, r, s)
  }

  lemma {:induction false} LineSplits(t: Tree, spare: int)
    requires t.Node?
    ensures Line(t, spare) == Line(t.left, t.value) + Line(t.right, spare)
  {
  }

  /** When the exchange set is a suffix or a prefix, the descent acts as the plain half-cleaner. */
  lemma {:induction false} DescentAlongSteps(t: Tree, spare: int, k: nat, dir: bool)
    requires k > 0 && Perfect(t, k) && |Values(t.left)| == |Values(t.right)|
    requires Steps(Line(t.left, t.value), Line(t.right, spare), Exchange(t.value, spare, dir), dir)
    ensures var (l, v, r, s) := Descended(t, spare, k, dir);
            PairsExchanged(Line(t.left, t.value), Line(t.right, spare), Line(l, v), Line(r, s), dir)
  {
    var right := Exchange(t.value, spare, dir);
    StepsPrefix(Values(t.left), t.value, Values(t.right), spare, right, dir);
    DescendExchanges(t.left, t.right, k - 1, right, dir);
    var (l, r) := Descend(t.left, t.right, k - 1, right, dir);
    ExchangedAppend(Values(t.left), t.value, Values(t.right), spare, Values(l), Values(r), dir);
  }

  /** On a bitonic line the single path does all that comparing every pair of the two halves would do. */
  lemma {:induction false} DescentIsHalfCleaner(t: Tree, spare: int, k: nat, dir: bool)
    requires k > 0 && Perfect(t, k)
    requires NeverAlternates(Line(t, spare)) && Distinct(Line(t, spare))
    ensures var (l, v, r, s) := Descended(t, spare, k, dir);
            PairsExchanged(Line(t.left, t.value), Line(t.right, spare), Line(l, v), Line(r, s), dir)
  {
    PerfectLength(t.left, t.right, k - 1);
    LineSplits(t, spare);
    BitonicSteps(Line(t.left, t.value), Line(t.right, spare), Exchange(t.value, spare, dir), dir);
    DescentAlongSteps(t, spare, k, dir);
  }

  /** The exchange set is a suffix when it holds the last pair, and a prefix when it does not. */
  lemma {:induction false} BitonicSteps(a: seq<int>, b: seq<int>, right: bool, dir: bool)
    requires |a| == |b| > 0 && right == Exchange(a[|a| - 1], b[|b| - 1], dir)
    requires NeverAlternates(a + b) && Distinct(a + b)
    ensures Steps(a, b, right, dir)
  {
    var s, n := a + b, |a|;
    assert forall i :: 0 <= i < n ==> s[i] == a[i] && s[n + i] == b[i];
    forall i, j | 0 <= i < j < n && Exchange(a[i], b[i], dir) == right
      ensures Exchange(a[j], b[j], dir) == right
    {
      if j < n - 1 && Exchange(a[j], b[j], dir) != right {
        OneChange(s, n, i, j, n - 1, dir);
      }
    }
  }

  lemma {:induction false} ExchangedAppend(a: seq<int>, av: int, b: seq<int>, bv: int, c: seq<int>, d: seq<int>,
                                           dir: bool)
    requires PairsExchanged(a, b, c, d, dir)
    ensures var (cv, dv) := if Exchange(av, bv, dir) then (bv, av) else (av, bv);
            PairsExchanged(a + [av], b + [bv], c + [cv], d + [dv], dir)
  {
  }

  lemma {:induction false} StepsPrefix(al: seq<int>, av: int, bl: seq<int>, bv: int, right: bool, dir: bool)
    requires |al| == |bl| && Steps(al + [av], bl + [bv], right, dir)
    ensures Steps(al, bl, right, dir)
  {
    var (a, b) := (al + [av], bl + [bv]);
    assert forall i :: 0 <= i < |al| ==> a[i] == al[i] && b[i] == bl[i];
  }

  /** The half-cleaner puts the first half before the second and leaves both without alternation. */
  lemma {:induction false} HalfClean(a: seq<int>, b: seq<int>, c: seq<int>, d: seq<int>, dir: bool)
    requires PairsExchanged(a, b, c, d, dir) && NeverAlternates(a + b) && Distinct(a + b)
    ensures NeverAlternates(c) && Distinct(c) && NeverAlternates(d) && Distinct(d)
    ensures forall i, j :: 0 <= i < |c| && 0 <= j < |d| ==> Before(c[i], d[j], dir)
  {
    var s, n := a + b, |a|;
    assert forall i :: 0 <= i < n ==> s[i] == a[i] && s[n + i] == b[i] && s[i] != s[n + i];
    PickedNeverAlternates(s, n, c, !dir);
    PickedNeverAlternates(s, n, d, dir);
    forall i, j | 0 <= i < n && 0 <= j < n
      ensures Before(c[i], d[j], dir)
    {
      if i < j {
        assert !AlternatesAt(s, i, j, n + i, n + j);
        assert s[i] != s[j] && s[i] != s[n + j] && s[j] != s[n + i] && s[n + i] != s[n + j];
      } else if j < i {
        assert !AlternatesAt(s, j, i, n + j, n + i);
        assert s[i] != s[j] && s[i] != s[n + j] && s[j] != s[n + i] && s[n + i] != s[n + j];
      }
    }
  }

  /**
   The key step: after the descent loop both halves of a bitonic line are bitonic again and every
   value of the first comes before every value of the second.
   */
  lemma {:induction false} DescentSplitsBitonic(t: Tree, spare: int, k: nat, dir: bool)
    requires k > 0 && Perfect(t, k)
    requires IsBitonic(Line(t, spare)) && Distinct(Line(t, spare))
    ensures var (l, v, r, s) := Descended(t, spare, k, dir);
            && IsBitonic(Line(l, v)) && IsBitonic(Line(r, s))
            && forall i, j :: 0 <= i < |Line(l, v)| && 0 <= j < |Line(r, s)| ==>
                 Before(Line(l, v)[i], Line(r, s)[j], dir)
  {
    var (l, v, r, s) := Descended(t, spare, k, dir);
    BitonicNeverAlternates(Line(t, spare));
    DescentIsHalfCleaner(t, spare, k, dir);
    LineSplits(t, spare);
    HalfClean(Line(t.left, t.value), Line(t.right, spare), Line(l, v), Line(r, s), dir);
    NeverAlternatesIsBitonic(Line(l, v));
    NeverAlternatesIsBitonic(Line(r, s));
  }

  // ---------- The sorting theorems ----------

  lemma {:induction false} SortedJoin(x: seq<int>, y: seq<int>, c: seq<int>, d: seq<int>, dir: bool)
    requires Sorted(x, dir) && Sorted(y, dir) && multiset(x) == multiset(c) && multiset(y) == multiset(d)
    requires forall i, j :: 0 <= i < |c| && 0 <= j < |d| ==> Before(c[i], d[j], dir)
    ensures Sorted(x + y, dir)
  {
    forall i, j | 0 <= i < |x| && 0 <= j < |y|
      ensures Before(x[i], y[j], dir)
    {
      assert x[i] in multiset(c) && y[j] in multiset(d);
      assert x[i] in c && y[j] in d;
    }
  }

  lemma {:induction false} MergeSortsNeverAlternating(t: Tree, spare: int, k: nat, dir: bool)
    requires Perfect(t, k) && NeverAlternates(Line(t, spare)) && Distinct(Line(t, spare))
    ensures var (u, s) := Merge(t, spare, k, dir);
            Sorted(Line(u, s), dir)
    decreases k
  {
    if k > 0 {
      var (l, v, r, s) := Descended(t, spare, k, dir);
      DescentIsHalfCleaner(t, spare, k, dir);
      LineSplits(t, spare);
      HalfClean(Line(t.left, t.value), Line(t.right, spare), Line(l, v), Line(r, s), dir);
      MergeSortsNeverAlternating(l, v, k - 1, dir);
      MergeSortsNeverAlternating(r, s, k - 1, dir);
      MergePermutes(l, v, k - 1, dir);
      MergePermutes(r, s, k - 1, dir);
      var (l', v') := Merge(l, v, k - 1, dir);
      var (r', s') := Merge(r, s, k - 1, dir);
      SortedJoin(Line(l', v'), Line(r', s'), Line(l, v), Line(r, s), dir);
      LineSplits(Node(l', v', r'), s');
    }
  }

  /** Merging sorts every bitonic line of distinct values, in whichever direction it is asked to. */
  lemma {:induction false} MergeSorts(t: Tree, spare: int, k: nat, dir: bool)
    requires Perfect(t, k) && IsBitonic(Line(t, spare)) && Distinct(Line(t, spare))
    ensures var (u, s) := Merge(t, spare, k, dir);
            Sorted(Line(u, s), dir) && multiset(Line(u, s)) == multiset(Line(t, spare))
  {
    BitonicNeverAlternates(Line(t, spare));
    MergeSortsNeverAlternating(t, spare, k, dir);
    MergePermutes(t, spare, k, dir);
  }

  lemma {:induction false} DistinctOnce(s: seq<int>, v: int)
    requires Distinct(s)
    ensures multiset(s)[v] <= 1
  {
    if v in s {
      var p :| 0 <= p < |s| && s[p] == v;
      var (l, r) := (s[..p], s[p + 1..]);
      assert v !in l && v !in r;
      assert s == l + [v] + r;
      assert multiset(s)[v] == multiset(l)[v] + 1 + multiset(r)[v];
    }
  }

  lemma {:induction false} DistinctByMultiset(s: seq<int>, t: seq<int>)
    requires multiset(s) == multiset(t) && Distinct(s)
    ensures Distinct(t)
  {
    forall i, j | 0 <= i < j < |t|
      ensures t[i] != t[j]
    {
      if t[i] == t[j] {
        var v := t[i];
        assert multiset(t)[v] >= 2 by {
          assert t == t[..i] + [v] + t[i + 1..j] + [v] + t[j + 1..];
        }
        DistinctOnce(s, v);
      }
    }
  }

  /** Two runs in opposite directions never alternate, ties or not. */
  lemma {:induction false} OppositeRunsNeverAlternate(x: seq<int>, y: seq<int>, dir: bool)
    requires InOrder(x, dir) && InOrder(y, !dir)
    ensures NeverAlternates(x + y)
  {
    var s := x + y;
    forall i, j, k, l | 0 <= i < j < k < l < |s|
      ensures !AlternatesAt(s, i, j, k, l)
    {
      if k < |x| {
        assert !Before(x[j], x[i], dir) && !Before(x[k], x[j], dir);
      } else {
        assert j >= |x| ==> !Before(y[k - |x|], y[j - |x|], !dir);
        assert !Before(y[l - |x|], y[k - |x|], !dir);
        assert j < |x| ==> !Before(x[j], x[i], dir);
      }
    }
  }

  lemma {:induction false} OppositeRuns(a: seq<int>, b: seq<int>, x: seq<int>, y: seq<int>, dir: bool)
    requires Distinct(a + b) && multiset(x) == multiset(a) && multiset(y) == multiset(b)
    requires Sorted(x, dir) && Sorted(y, !dir)
    ensures NeverAlternates(x + y) && Distinct(x + y)
  {
    DistinctByMultiset(a + b, x + y);
    OppositeRunsNeverAlternate(x, y, dir);
  }

  lemma {:induction false} DistinctParts(a: seq<int>, b: seq<int>)
    requires Distinct(a + b)
    ensures Distinct(a) && Distinct(b)
  {
    var s := a + b;
    assert forall i :: 0 <= i < |a| ==> s[i] == a[i];
    assert forall i :: 0 <= i < |b| ==> s[|a| + i] == b[i];
  }

  /** The whole sort puts every line of distinct values in the direction it is asked to. */
  lemma {:induction false} SortSorts(t: Tree, spare: int, k: nat, dir: bool)
    requires Perfect(t, k) && Distinct(Line(t, spare))
    ensures var (u, s) := Sort(t, spare, k, dir);
            Sorted(Line(u, s), dir) && multiset(Line(u, s)) == multiset(Line(t, spare))
    decreases k
  {
    SortPermutes(t, spare, k, dir);
    if k > 0 {
      var (l, v) := Sort(t.left, t.value, k - 1, dir);
      var (r, s) := Sort(t.right, spare, k - 1, !dir);
      var (a, b, x, y) := (Line(t.left, t.value), Line(t.right, spare), Line(l, v), Line(r, s));
      LineSplits(t, spare);
      LineSplits(Node(l, v, r), s);
      DistinctParts(a, b);
      SortSorts(t.left, t.value, k - 1, dir);
      SortSorts(t.right, spare, k - 1, !dir);
      OppositeRuns(a, b, x, y, dir);
      MergeSortsNeverAlternating(Node(l, v, r), s, k, dir);
    }
  }
}
