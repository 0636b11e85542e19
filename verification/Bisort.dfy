/**
 The pointer-swapping bitonic sort on a heap of tree nodes.  `Shape` is the ghost view of the heap:
 which node sits where.  Every method is proved against the value-level functions of `Bitonic`.
 */
module Bisort {
  import opened Bitonic
  import opened BitonicTies
  import opened Powers
  import opened Reals

  class HNode {
    var value: int
    var left: HNode?
    var right: HNode?

    constructor (v: int)
      ensures value == v && left == null && right == null
    {
      value, left, right := v, null, null;
    }
  }

  // ---------- The shape of a tree on the heap ----------

  datatype Shape = Empty | At(l: Shape, n: HNode, r: Shape)

  ghost function Nodes(t: Shape): (s: set<HNode>)
  {
    match t
    case Empty => {}
    case At(l, n, r) => Nodes(l) + {n} + Nodes(r)
  }

  /** No node occurs twice. */
  ghost predicate Unshared(t: Shape) {
    match t
    case Empty => true
    case At(l, n, r) => Unshared(l) && Unshared(r) && n !in Nodes(l) && n !in Nodes(r) && Nodes(l) !! Nodes(r)
  }

  /** The links on the heap below p have this shape. */
  ghost predicate Linked(t: Shape, p: HNode?)
    reads Nodes(t)`left, Nodes(t)`right
  {
    match t
    case Empty => p == null
    case At(l, n, r) => p == n && Linked(l, n.left) && Linked(r, n.right)
  }

  /** The values on the heap at the nodes of a shape. */
  ghost function Content(t: Shape): (u: Tree)
    reads Nodes(t)
  {
    match t
    case Empty => Nil
    case At(l, n, r) => Node(Content(l), n.value, Content(r))
  }

  ghost predicate Tree(t: Shape, p: HNode?, k: nat)
    reads Nodes(t)
  {
    Unshared(t) && Linked(t, p) && Perfect(Content(t), k)
  }

  lemma {:induction false} TreeParts(t: Shape, p: HNode, k: nat)
    requires Tree(t, p, k)
    ensures k > 0 && t.At? && t.n == p && Nodes(t) == Nodes(t.l) + {p} + Nodes(t.r)
    ensures Tree(t.l, p.left, k - 1) && Tree(t.r, p.right, k - 1)
    ensures Nodes(t.l) !! {p} !! Nodes(t.r)
    ensures (p.left == null <==> k == 1) && (p.right == null <==> k == 1)
    ensures Content(t) == Node(Content(t.l), p.value, Content(t.r))
  {
  }

  lemma {:induction false} TreeJoin(l: Shape, p: HNode, r: Shape, k: nat)
    requires Tree(l, p.left, k) && Tree(r, p.right, k) && Nodes(l) !! {p} !! Nodes(r)
    ensures Tree(At(l, p, r), p, k + 1) && Content(At(l, p, r)) == Node(Content(l), p.value, Content(r))
    ensures Nodes(At(l, p, r)) == Nodes(l) + {p} + Nodes(r)
  {
  }

  // ---------- A shape with a hole, for the descent ----------

  datatype Context = Top | InLeft(up: Context, n: HNode, r: Shape) | InRight(up: Context, l: Shape, n: HNode)

  ghost function Around(c: Context): (s: set<HNode>)
  {
    match c
    case Top => {}
    case InLeft(up, n, r) => Around(up) + {n} + Nodes(r)
    case InRight(up, l, n) => Around(up) + Nodes(l) + {n}
  }

  ghost predicate UnsharedAround(c: Context) {
    match c
    case Top => true
    case InLeft(up, n, r) => UnsharedAround(up) && Unshared(r) && Around(up) !! {n} !! Nodes(r)
    case InRight(up, l, n) => UnsharedAround(up) && Unshared(l) && Around(up) !! Nodes(l) !! {n}
  }

  /** Below p the links on the heap have the shape of c, with a link to q at the hole. */
  ghost predicate LinkedAround(c: Context, p: HNode?, q: HNode?)
    reads Around(c)
  {
    match c
    case Top => p == q
    case InLeft(up, n, r) => n.left == q && Linked(r, n.right) && LinkedAround(up, p, n)
    case InRight(up, l, n) => n.right == q && Linked(l, n.left) && LinkedAround(up, p, n)
  }

  ghost function Plug(c: Context, t: Shape): (u: Shape)
  {
    match c
    case Top => t
    case InLeft(up, n, r) => Plug(up, At(t, n, r))
    case InRight(up, l, n) => Plug(up, At(l, n, t))
  }

  ghost function Wrap(c: Context, v: Tree): (u: Tree)
    reads Around(c)
  {
    match c
    case Top => v
    case InLeft(up, n, r) => Wrap(up, Node(v, n.value, Content(r)))
    case InRight(up, l, n) => Wrap(up, Node(Content(l), n.value, v))
  }

  lemma {:induction false} PlugTree(c: Context, t: Shape, p: HNode?, q: HNode?)
    requires UnsharedAround(c) && Unshared(t) && Around(c) !! Nodes(t)
    requires LinkedAround(c, p, q) && Linked(t, q)
    ensures Unshared(Plug(c, t)) && Nodes(Plug(c, t)) == Around(c) + Nodes(t)
    ensures Linked(Plug(c, t), p) && Content(Plug(c, t)) == Wrap(c, Content(t))
  {
    match c
    case Top =>
    case InLeft(up, n, r) => PlugTree(up, At(t, n, r), p, n);
    case InRight(up, l, n) => PlugTree(up, At(l, n, t), p, n);
  }

  /** The links below p have the shape of c with the tree t of height h, rooted at q, in its hole. */
  ghost predicate Hole(c: Context, t: Shape, p: HNode?, q: HNode?, h: nat)
    reads Around(c), Nodes(t)
  {
    UnsharedAround(c) && LinkedAround(c, p, q) && Tree(t, q, h) && Around(c) !! Nodes(t)
  }

  /** The invariant of the descent: two holes side by side, and what is still to be done below them. */
  ghost predicate Descending(root: HNode, cl: Context, sl: Shape, pl: HNode?, cr: Context, sr: Shape, pr: HNode?,
                             h: nat, all: set<HNode>)
    reads root, Around(cl), Nodes(sl), Around(cr), Nodes(sr)
  {
    && Hole(cl, sl, root.left, pl, h) && Hole(cr, sr, root.right, pr, h)
    && Around(cl) + Nodes(sl) !! Around(cr) + Nodes(sr)
    && Around(cl) + Nodes(sl) + Around(cr) + Nodes(sr) == all && root !in all
  }

  lemma {:induction false} StepLeft(c: Context, t: Shape, p: HNode?, q: HNode, h: nat, v: Tree)
    requires Hole(c, t, p, q, h)
    ensures h > 0 && t.At? && t.n == q && Hole(InLeft(c, q, t.r), t.l, p, q.left, h - 1)
    ensures Around(InLeft(c, q, t.r)) + Nodes(t.l) == Around(c) + Nodes(t)
    ensures Wrap(InLeft(c, q, t.r), v) == Wrap(c, Node(v, q.value, Content(t.r)))
  {
  }

  lemma {:induction false} StepRight(c: Context, t: Shape, p: HNode?, q: HNode, h: nat, v: Tree)
    requires Hole(c, t, p, q, h)
    ensures h > 0 && t.At? && t.n == q && Hole(InRight(c, t.l, q), t.r, p, q.right, h - 1)
    ensures Around(InRight(c, t.l, q)) + Nodes(t.r) == Around(c) + Nodes(t)
    ensures Wrap(InRight(c, t.l, q), v) == Wrap(c, Node(Content(t.l), q.value, v))
  {
  }

  // ---------- The tree routines ----------

  /** Exchange the values and the left subtrees of two nodes. */
  method SwapValLeft(l: HNode, r: HNode, ll: HNode?, rl: HNode?, lval: int, rval: int,
                     ghost sl: Shape, ghost sr: Shape, ghost h: nat)
    returns (ghost ul: Shape, ghost ur: Shape)
    requires Tree(sl, l, h) && Tree(sr, r, h) && Nodes(sl) !! Nodes(sr)
    requires ll == l.left && rl == r.left && lval == l.value && rval == r.value
    modifies l, r
    ensures l.right == old(l.right) && r.right == old(r.right) && l.left == rl && r.left == ll
    ensures ul == At(sr.l, l, sl.r) && Tree(ul, l, h) && Content(ul) == old(Node(Content(sr.l), rval, Content(sl.r)))
    ensures ur == At(sl.l, r, sr.r) && Tree(ur, r, h) && Content(ur) == old(Node(Content(sl.l), lval, Content(sr.r)))
    ensures Nodes(ul) !! Nodes(ur) && Nodes(ul) + Nodes(ur) == Nodes(sl) + Nodes(sr)
  {
    r.value := lval;
    r.left := ll;
    l.left := rl;
    l.value := rval;
    ul, ur := At(sr.l, l, sl.r), At(sl.l, r, sr.r);
  }

  /** Exchange the values and the left subtrees of the two nodes the descent has reached. */
  method SwapAtHolesLeft(l: HNode, r: HNode, ll: HNode?, rl: HNode?, lval: int, rval: int, ghost root: HNode,
                         ghost cl: Context, ghost sl: Shape, ghost cr: Context, ghost sr: Shape, ghost h: nat,
                         ghost all: set<HNode>)
    returns (ghost ul: Shape, ghost ur: Shape)
    requires Descending(root, cl, sl, l, cr, sr, r, h, all)
    requires ll == l.left && rl == r.left && lval == l.value && rval == r.value
    modifies l, r
    ensures l.right == old(l.right) && r.right == old(r.right) && l.left == rl && r.left == ll
    ensures ul == At(sr.l, l, sl.r) && ur == At(sl.l, r, sr.r)
    ensures Descending(root, cl, ul, l, cr, ur, r, h, all)
    ensures Content(ul) == old(Node(Content(sr.l), rval, Content(sl.r)))
    ensures Content(ur) == old(Node(Content(sl.l), lval, Content(sr.r)))
    ensures forall v :: Wrap(cl, v) == old(Wrap(cl, v))
    ensures forall v :: Wrap(cr, v) == old(Wrap(cr, v))
  {
    ul, ur := SwapValLeft(l, r, ll, rl, lval, rval, sl, sr, h);
  }

  /** Exchange the values and the right subtrees of two nodes. */
  method SwapValRight(l: HNode, r: HNode, lr: HNode?, rr: HNode?, lval: int, rval: int,
                      ghost sl: Shape, ghost sr: Shape, ghost h: nat)
    returns (ghost ul: Shape, ghost ur: Shape)
    requires Tree(sl, l, h) && Tree(sr, r, h) && Nodes(sl) !! Nodes(sr)
    requires lr == l.right && rr == r.right && lval == l.value && rval == r.value
    modifies l, r
    ensures l.left == old(l.left) && r.left == old(r.left) && l.right == rr && r.right == lr
    ensures ul == At(sl.l, l, sr.r) && Tree(ul, l, h) && Content(ul) == old(Node(Content(sl.l), rval, Content(sr.r)))
    ensures ur == At(sr.l, r, sl.r) && Tree(ur, r, h) && Content(ur) == old(Node(Content(sr.l), lval, Content(sl.r)))
    ensures Nodes(ul) !! Nodes(ur) && Nodes(ul) + Nodes(ur) == Nodes(sl) + Nodes(sr)
  {
    r.value := lval;
    r.right := lr;
    l.right := rr;
    l.value := rval;
    ul, ur := At(sl.l, l, sr.r), At(sr.l, r, sl.r);
  }

  /** Exchange the values and the right subtrees of the two nodes the descent has reached. */
  method SwapAtHolesRight(l: HNode, r: HNode, lr: HNode?, rr: HNode?, lval: int, rval: int, ghost root: HNode,
                         ghost cl: Context, ghost sl: Shape, ghost cr: Context, ghost sr: Shape, ghost h: nat,
                         ghost all: set<HNode>)
    returns (ghost ul: Shape, ghost ur: Shape)
    requires Descending(root, cl, sl, l, cr, sr, r, h, all)
    requires lr == l.right && rr == r.right && lval == l.value && rval == r.value
    modifies l, r
    ensures l.left == old(l.left) && r.left == old(r.left) && l.right == rr && r.right == lr
    ensures ul == At(sl.l, l, sr.r) && ur == At(sr.l, r, sl.r)
    ensures Descending(root, cl, ul, l, cr, ur, r, h, all)
    ensures Content(ul) == old(Node(Content(sl.l), rval, Content(sr.r)))
    ensures Content(ur) == old(Node(Content(sr.l), lval, Content(sl.r)))
    ensures forall v :: Wrap(cl, v) == old(Wrap(cl, v))
    ensures forall v :: Wrap(cr, v) == old(Wrap(cr, v))
  {
    ul, ur := SwapValRight(l, r, lr, rr, lval, rval, sl, sr, h);
  }

  /** The part of the descent that is left after one step. */
  ghost function DescendChild(a: Tree, b: Tree, k: nat, right: bool, dir: bool): (vw: (Tree, Tree))
    requires k > 0 && Perfect(a, k) && Perfect(b, k)
  {
    if Exchange(a.value, b.value, dir) == right
    then Descend(a.left, b.left, k - 1, right, dir)
    else Descend(a.right, b.right, k - 1, right, dir)
  }

  lemma {:induction false} ProceedLeft(root: HNode, cl: Context, sl: Shape, pl: HNode,
                                       cr: Context, sr: Shape, pr: HNode, h: nat, all: set<HNode>, v: Tree, w: Tree)
    requires Descending(root, cl, sl, pl, cr, sr, pr, h, all)
    ensures h > 0 && sl.At? && sr.At?
    ensures Descending(root, InLeft(cl, pl, sl.r), sl.l, pl.left, InLeft(cr, pr, sr.r), sr.l, pr.left, h - 1, all)
    ensures Wrap(InLeft(cl, pl, sl.r), v) == Wrap(cl, Node(v, pl.value, Content(sl.r)))
    ensures Wrap(InLeft(cr, pr, sr.r), w) == Wrap(cr, Node(w, pr.value, Content(sr.r)))
  {
    StepLeft(cl, sl, root.left, pl, h, v);
    StepLeft(cr, sr, root.right, pr, h, w);
  }

  lemma {:induction false} ProceedRight(root: HNode, cl: Context, sl: Shape, pl: HNode,
                                        cr: Context, sr: Shape, pr: HNode, h: nat, all: set<HNode>, v: Tree, w: Tree)
    requires Descending(root, cl, sl, pl, cr, sr, pr, h, all)
    ensures h > 0 && sl.At? && sr.At?
    ensures Descending(root, InRight(cl, sl.l, pl), sl.r, pl.right, InRight(cr, sr.l, pr), sr.r, pr.right, h - 1, all)
    ensures Wrap(InRight(cl, sl.l, pl), v) == Wrap(cl, Node(Content(sl.l), pl.value, v))
    ensures Wrap(InRight(cr, sr.l, pr), w) == Wrap(cr, Node(Content(sr.l), pr.value, w))
  {
    StepRight(cl, sl, root.left, pl, h, v);
    StepRight(cr, sr, root.right, pr, h, w);
  }

  /** Where the two pointers are, and what is still to be done below them. */
  ghost function ToDo(cl: Context, sl: Shape, cr: Context, sr: Shape, h: nat, right: bool, dir: bool)
    : (vw: (Tree, Tree))
    requires Perfect(Content(sl), h) && Perfect(Content(sr), h)
    reads Around(cl), Nodes(sl), Around(cr), Nodes(sr)
  {
    var (v, w) := Descend(Content(sl), Content(sr), h, right, dir);
    (Wrap(cl, v), Wrap(cr, w))
  }

  /** One turn of the descent loop. */
  method DescendStep(root: HNode, l: HNode, r: HNode, right: bool, dir: bool, ghost al: Context, ghost tl: Shape,
                     ghost ar: Context, ghost tr: Shape, ghost h: nat, ghost all: set<HNode>)
    returns (pl: HNode?, pr: HNode?, ghost cl: Context, ghost sl: Shape, ghost cr: Context, ghost sr: Shape)
    requires Descending(root, al, tl, l, ar, tr, r, h, all)
    modifies l, r
    ensures h > 0 && Descending(root, cl, sl, pl, cr, sr, pr, h - 1, all)
    ensures ToDo(cl, sl, cr, sr, h - 1, right, dir) == old(ToDo(al, tl, ar, tr, h, right, dir))
  {
    var lv, pll, plr := l.value, l.left, l.right;
    var rv, prl, prr := r.value, r.left, r.right;
    var elementexchange := Exchange(lv, rv, dir);
    ghost var (v, w) := DescendChild(Content(tl), Content(tr), h, right, dir);
    if right {
      if elementexchange {
        sl, sr := SwapAtHolesRight(l, r, plr, prr, lv, rv, root, al, tl, ar, tr, h, all);
        ProceedLeft(root, al, sl, l, ar, sr, r, h, all, v, w);
        cl, cr := InLeft(al, l, sl.r), InLeft(ar, r, sr.r);
        sl, sr := sl.l, sr.l;
        pl := pll;
        pr := prl;
      } else {
        ProceedRight(root, al, tl, l, ar, tr, r, h, all, v, w);
        cl, cr := InRight(al, tl.l, l), InRight(ar, tr.l, r);
        sl, sr := tl.r, tr.r;
        pl := plr;
        pr := prr;
      }
    } else {
      if elementexchange {
        sl, sr := SwapAtHolesLeft(l, r, pll, prl, lv, rv, root, al, tl, ar, tr, h, all);
        ProceedRight(root, al, sl, l, ar, sr, r, h, all, v, w);
        cl, cr := InRight(al, sl.l, l), InRight(ar, sr.l, r);
        sl, sr := sl.r, sr.r;
        pl := plr;
        pr := prr;
      } else {
        ProceedLeft(root, al, tl, l, ar, tr, r, h, all, v, w);
        cl, cr := InLeft(al, l, tl.r), InLeft(ar, r, tr.r);
        sl, sr := tl.l, tr.l;
        pl := pll;
        pr := prl;
      }
    }
  }

  /** The descent loop of Bimerge below a root whose subtrees have height k. */
  method DescendLoop(root: HNode, ghost tl: Shape, ghost tr: Shape, ghost k: nat, right: bool, dir: bool)
    returns (ghost ul: Shape, ghost ur: Shape)
    requires Tree(tl, root.left, k) && Tree(tr, root.right, k)
    requires Nodes(tl) !! Nodes(tr) && root !in Nodes(tl) + Nodes(tr)
    modifies Nodes(tl) + Nodes(tr)
    ensures Tree(ul, root.left, k) && Tree(ur, root.right, k)
    ensures Nodes(ul) !! Nodes(ur) && Nodes(ul) + Nodes(ur) == Nodes(tl) + Nodes(tr)
    ensures (Content(ul), Content(ur)) == old(Descend(Content(tl), Content(tr), k, right, dir))
  {
    var pl, pr := root.left, root.right;
    ghost var all := Nodes(tl) + Nodes(tr);
    ghost var cl, cr := Top, Top;
    ghost var sl, sr, h := tl, tr, k;
    ghost var result := ToDo(cl, sl, cr, sr, h, right, dir);
    while pl != null
      invariant Descending(root, cl, sl, pl, cr, sr, pr, h, all)
      invariant ToDo(cl, sl, cr, sr, h, right, dir) == result
      decreases h
    {
      pl, pr, cl, sl, cr, sr := DescendStep(root, pl, pr, right, dir, cl, sl, cr, sr, h, all);
      h := h - 1;
    }
    PlugTree(cl, sl, root.left, pl);
    PlugTree(cr, sr, root.right, pr);
    ul, ur := Plug(cl, sl), Plug(cr, sr);
  }

  /** The part of Bimerge after the descent loop: merge both halves. */
  method MergeHalves(root: HNode, spr_val: int, dir: bool, ghost sl: Shape, ghost sr: Shape, ghost k: nat)
    returns (spr: int, ghost tl: Shape, ghost tr: Shape)
    requires Tree(sl, root.left, k) && Tree(sr, root.right, k) && Nodes(sl) !! {root} !! Nodes(sr)
    modifies Nodes(sl) + {root} + Nodes(sr)
    ensures root.left == old(root.left) && root.right == old(root.right)
    ensures Tree(tl, root.left, k) && Tree(tr, root.right, k) && Nodes(tl) == Nodes(sl) && Nodes(tr) == Nodes(sr)
    ensures (Content(tl), root.value) == old(Merge(Content(sl), root.value, k, dir))
    ensures (Content(tr), spr) == old(Merge(Content(sr), spr_val, k, dir))
    decreases k, 1
  {
    spr, tl, tr := spr_val, sl, sr;
    if root.left != null {
      var rl, rr := root.left, root.right;
      var value := root.value;
      assert allocated(Nodes(tr));
      var v;
      v, tl := Bimerge(rl, value, dir, tl, k);
      root.value := v;
      assert allocated(Nodes(tl));
      spr, tr := Bimerge(rr, spr, dir, tr, k);
    }
  }

  /** One merge: what `Merge` says, at the same nodes. */
  method Bimerge(root: HNode, spr_val: int, dir: bool, ghost t: Shape, ghost k: nat)
    returns (spr: int, ghost u: Shape)
    requires Tree(t, root, k)
    modifies Nodes(t)
    ensures Tree(u, root, k) && Nodes(u) == Nodes(t)
    ensures (Content(u), spr) == old(Merge(Content(t), spr_val, k, dir))
    decreases k, 0
  {
    TreeParts(t, root, k);
    spr := spr_val;
    var rv := root.value;
    var rightexchange := Exchange(rv, spr, dir);
    ghost var tl, tr := t.l, t.r;
    if rightexchange {
      root.value := spr;
      spr := rv;
    }
    tl, tr := DescendLoop(root, tl, tr, k - 1, rightexchange, dir);
    spr, tl, tr := MergeHalves(root, spr, dir, tl, tr, k - 1);
    u := At(tl, root, tr);
    TreeJoin(tl, root, tr, k - 1);
  }

  /** The recursive half of Bisort: sort both halves, in opposite directions. */
  method SortHalves(root: HNode, spr_val: int, dir: bool, ghost sl: Shape, ghost sr: Shape, ghost k: nat)
    returns (spr: int, ghost tl: Shape, ghost tr: Shape)
    requires k > 0
    requires Tree(sl, root.left, k) && Tree(sr, root.right, k) && Nodes(sl) !! {root} !! Nodes(sr)
    modifies Nodes(sl) + {root} + Nodes(sr)
    ensures root.left == old(root.left) && root.right == old(root.right)
    ensures Tree(tl, root.left, k) && Tree(tr, root.right, k) && Nodes(tl) == Nodes(sl) && Nodes(tr) == Nodes(sr)
    ensures (Content(tl), root.value) == old(Sort(Content(sl), root.value, k, dir))
    ensures (Content(tr), spr) == old(Sort(Content(sr), spr_val, k, !dir))
    decreases k, 1
  {
    tl, tr := sl, sr;
    var l, r := root.left, root.right;
    var val := root.value;
    assert allocated(Nodes(tr));
    var v;
    v, tl := Bisort(l, val, dir, tl, k);
    root.value := v;
    var ndir := !dir;
    assert allocated(Nodes(tl));
    spr, tr := Bisort(r, spr_val, ndir, tr, k);
  }

  /** The whole sort: what `Sort` says, at the same nodes. */
  method Bisort(root: HNode, spr_val: int, dir: bool, ghost t: Shape, ghost k: nat)
    returns (spr: int, ghost u: Shape)
    requires Tree(t, root, k)
    modifies Nodes(t)
    ensures Tree(u, root, k) && Nodes(u) == Nodes(t)
    ensures (Content(u), spr) == old(Sort(Content(t), spr_val, k, dir))
    decreases k, 0
  {
    TreeParts(t, root, k);
    spr := spr_val;
    if root.left == null {
      if Exchange(root.value, spr, dir) {
        var val := spr;
        spr := root.value;
        root.value := val;
      }
      u := t;
    } else {
      ghost var tl, tr := t.l, t.r;
      spr, tl, tr := SortHalves(root, spr, dir, tl, tr, k - 1);
      TreeJoin(tl, root, tr, k - 1);
      spr, u := Bimerge(root, spr, dir, At(tl, root, tr), k);
    }
  }

  /**
   The two calls of the driver.  Distinct values are left ascending by the first and descending by the second;
   values with ties surely only up to height three, by `BitonicTies.SortBound`.
   */
  method SortBothWays(h: HNode, sval: int, ghost t: Shape, ghost k: nat)
    returns (up: int, down: int, ghost u: Shape, ghost ascending: seq<int>)
    requires Tree(t, h, k)
    modifies Nodes(t)
    ensures Tree(u, h, k) && Nodes(u) == Nodes(t)
    ensures multiset(ascending) == multiset(Line(Content(u), down)) == multiset(old(Line(Content(t), sval)))
    ensures old(Distinct(Line(Content(t), sval))) ==> Sorted(ascending, false) && Sorted(Line(Content(u), down), true)
    ensures k <= 3 ==> InOrder(ascending, false) && InOrder(Line(Content(u), down), true)
    ensures ascending == old(var (v, s) := Sort(Content(t), sval, k, false); Line(v, s))
  {
    ghost var line := Line(Content(t), sval);
    SortPermutes(Content(t), sval, k, false);
    if Distinct(line) {
      SortSorts(Content(t), sval, k, false);
    }
    SortBound(k, false);
    SortBound(k, true);
    up, u := Bisort(h, sval, false, t, k);
    ascending := Line(Content(u), up);
    if Distinct(line) {
      DistinctByMultiset(line, ascending);
      SortSorts(Content(u), up, k, true);
    }
    SortPermutes(Content(u), up, k, true);
    down, u := Bisort(h, up, true, u, k);
  }

  // ---------- The random tree the driver sorts ----------

  const CONST_M1: nat := 10000
  const CONST_B: nat := 31415821
  const RANGE: nat := 100

  const INT_LIMIT: nat := 0x8000_0000

  /** No seed the generator gives is greater. */
  const MAX_SEED: nat := 158194180

  /** The sum of the products crossing the halves of the factors. */
  function Crossed(p: nat, q: nat): (c: nat) {
    p % CONST_M1 * (q / CONST_M1) + p / CONST_M1 * (q % CONST_M1)
  }

  /** The product modulo 10^8, up to one carry. */
  function Mult(p: nat, q: nat): (m: nat) {
    Crossed(p, q) % CONST_M1 * CONST_M1 + p % CONST_M1 * (q % CONST_M1)
  }

  function MyRandom(seed: nat): (next: nat) {
    Mult(seed, CONST_B) + 1
  }

  lemma {:induction false} Halved(p: nat)
    ensures p == p / CONST_M1 * CONST_M1 + p % CONST_M1 && p % CONST_M1 < CONST_M1
  {
  }

  lemma {:induction false} MultIsProduct(p: nat, q: nat)
    ensures exists n: int :: Mult(p, q) == p * q + n * (CONST_M1 * CONST_M1)
  {
    var (p1, p0) := (p / CONST_M1, p % CONST_M1);
    var (q1, q0) := (q / CONST_M1, q % CONST_M1);
    Halved(p);
    Halved(q);
    Halved(Crossed(p, q));
    var c := Crossed(p, q) / CONST_M1;
    calc {
      p * q;
      (p1 * CONST_M1 + p0) * (q1 * CONST_M1 + q0);
      p1 * q1 * (CONST_M1 * CONST_M1) + Crossed(p, q) * CONST_M1 + p0 * q0;
      (p1 * q1 + c) * (CONST_M1 * CONST_M1) + Crossed(p, q) % CONST_M1 * CONST_M1 + p0 * q0;
      (p1 * q1 + c) * (CONST_M1 * CONST_M1) + Mult(p, q);
    }
    assert Mult(p, q) == p * q + (-(p1 * q1 + c)) * (CONST_M1 * CONST_M1);
  }

  /** From the driver's seeds on no intermediate result leaves 32 bits. */
  lemma {:induction false} SeedsFit(seed: nat, n: nat)
    requires seed <= MAX_SEED
    ensures Crossed(seed, CONST_B) < INT_LIMIT && Mult(seed, CONST_B) + 1 <= MAX_SEED < INT_LIMIT
    ensures SkipRand(seed, n) <= MAX_SEED
    decreases n
  {
    Halved(seed);
    if n > 0 {
      SeedsFit(MyRandom(seed), n - 1);
    }
  }

  function SkipRand(seed: nat, n: nat): (later: nat)
    decreases n
  {
    if n == 0 then seed else SkipRand(MyRandom(seed), n - 1)
  }

  function Log2(n: nat): (k: nat)
    ensures if n == 0 then k == 0 else Pow2(k) <= n < Pow2(k + 1)
  {
    if n <= 1 then 0 else 1 + Log2(n / 2)
  }

  function RandomTree(n: nat, seed: nat): (t: Tree)
    ensures Perfect(t, Log2(n))
  {
    if n <= 1 then Nil else
      var s := MyRandom(seed);
      Node(RandomTree(n / 2, s), s % RANGE, RandomTree(n / 2, SkipRand(s, n + 1)))
  }

  /** Term i of the linear congruential sequence from the seed on. */
  function Term(seed: nat, i: nat): (x: nat)
    ensures x < 100000000
  {
    if i == 0 then seed % 100000000 else (31415821 * Term(seed, i - 1) + 1) % 100000000
  }

  lemma {:induction false} SameRemainder(x: nat, y: nat, n: int, c: nat)
    requires c > 0 && y == x + n * c
    ensures y % c == x % c
  {
    var (p, r) := (x / c, x % c);
    assert y == (p + n) * c + r;
    RemainderOf(y, p + n, c, r);
  }

  lemma {:induction false} RemainderOf(y: nat, k: int, c: nat, r: nat)
    requires r < c && y == k * c + r
    ensures y % c == r
  {
    QuotientOf(y, c, k);
  }

  /** One random number is the next term. */
  lemma {:induction false} RandomIsTerm(seed: nat)
    ensures MyRandom(seed) % 100000000 == Term(seed, 1)
  {
    MultIsProduct(seed, CONST_B);
    var n: int :| Mult(seed, CONST_B) == seed * CONST_B + n * (CONST_M1 * CONST_M1);
    SameRemainder(31415821 * seed + 1, MyRandom(seed), n, 100000000);
    var (q, r) := (seed / 100000000, seed % 100000000);
    assert 31415821 * seed + 1 == 31415821 * r + 1 + (31415821 * q) * 100000000;
    SameRemainder(31415821 * r + 1, 31415821 * seed + 1, 31415821 * q, 100000000);
    assert Term(seed, 0) == r;
  }

  lemma {:induction false} TermOn(seed: nat, i: nat)
    ensures Term(MyRandom(seed), i) == Term(seed, i + 1)
  {
    if i == 0 {
      RandomIsTerm(seed);
    } else {
      TermOn(seed, i - 1);
    }
  }

  lemma {:induction false} SkippedTerm(seed: nat, n: nat, i: nat)
    ensures Term(SkipRand(seed, n), i) == Term(seed, n + i)
    decreases n
  {
    if n > 0 {
      SkippedTerm(MyRandom(seed), n - 1, i);
      TermOn(seed, n - 1 + i);
    }
  }

  /** The value where a path from the root ends, to the right where it says so. */
  function ValueAt(t: Bitonic.Tree, path: seq<bool>): (v: int) {
    if t == Nil then -1
    else if path == [] then t.value
    else ValueAt(if path[0] then t.right else t.left, path[1..])
  }

  /** Which term of the sequence ends up there, in a tree for n values: n + 1 terms are passed over at a right turn. */
  function TermFor(n: nat, path: seq<bool>): (i: nat) {
    if path == [] then 1
    else 1 + (if path[0] then n + 1 else 0) + TermFor(n / 2, path[1..])
  }

  /** The values of the random tree are the terms of the sequence modulo 100. */
  lemma {:induction false} RandomValueAt(n: nat, seed: nat, path: seq<bool>)
    requires |path| < Log2(n)
    ensures ValueAt(RandomTree(n, seed), path) == Term(seed, TermFor(n, path)) % 100
  {
    var s := MyRandom(seed);
    if path == [] {
      RandomIsTerm(seed);
      Hundreds(s);
    } else {
      var i := TermFor(n / 2, path[1..]);
      if path[0] {
        RandomValueAt(n / 2, SkipRand(s, n + 1), path[1..]);
        SkippedTerm(s, n + 1, i);
        TermOn(seed, n + 1 + i);
      } else {
        RandomValueAt(n / 2, s, path[1..]);
        TermOn(seed, i);
      }
    }
  }

  lemma {:induction false} Hundreds(s: nat)
    ensures s % 100 == s % 100000000 % 100
  {
    var (q, r) := (s / 100000000, s % 100000000);
    assert s == r + (1000000 * q) * 100;
    SameRemainder(r, s, 1000000 * q, 100);
  }

  lemma {:induction false} RandomValues(n: nat, seed: nat)
    ensures forall v :: v in Values(RandomTree(n, seed)) ==> 0 <= v < RANGE
  {
    if n > 1 {
      var s := MyRandom(seed);
      RandomValues(n / 2, s);
      RandomValues(n / 2, SkipRand(s, n + 1));
    }
  }

  lemma {:induction false} PerfectSize(t: Tree, k: nat)
    requires Perfect(t, k)
    ensures |Values(t)| == Pow2(k) - 1
  {
    if k > 0 {
      PerfectSize(t.left, k - 1);
      PerfectSize(t.right, k - 1);
    }
  }

  lemma {:induction false} Pigeonhole(s: seq<int>, n: nat)
    requires Distinct(s) && forall i :: 0 <= i < |s| ==> 0 <= s[i] < n
    ensures |s| <= n
  {
    if s != [] {
      assert 0 <= s[0] < n;
      if p :| 0 <= p < |s| && s[p] == n - 1 {
        Pigeonhole(s[..p] + s[p + 1..], n - 1);
      } else {
        Pigeonhole(s, n - 1);
      }
    }
  }

  /** More values than there are different ones. */
  lemma {:induction false} FullOfTies(t: Tree, k: nat, spare: int)
    requires Perfect(t, k) && Pow2(k) > RANGE && 0 <= spare < RANGE
    requires forall v :: v in Values(t) ==> 0 <= v < RANGE
    ensures !Distinct(Line(t, spare))
  {
    var s := Line(t, spare);
    PerfectSize(t, k);
    if Distinct(s) {
      forall i | 0 <= i < |s|
        ensures 0 <= s[i] < RANGE
      {
        assert i < |s| - 1 ==> s[i] == Values(t)[i] && s[i] in Values(t);
      }
      Pigeonhole(s, RANGE);
    }
  }

  /** From 128 values on, the driver's values have ties, whatever the seed. */
  lemma {:induction false} DriverTies(n: nat, seed: nat, spare: int)
    requires Log2(n) >= 7 && 0 <= spare < RANGE
    ensures !Distinct(Line(RandomTree(n, seed), spare))
  {
    var k := Log2(n);
    RandomValues(n, seed);
    Pow2Grows(7, k);
    assert Pow2(7) == 128;
    FullOfTies(RandomTree(n, seed), k, spare);
  }

  method Plant(node: HNode, left: HNode?, right: HNode?, ghost tl: Shape, ghost tr: Shape, ghost k: nat)
    requires Tree(tl, left, k) && Tree(tr, right, k) && Nodes(tl) !! {node} !! Nodes(tr)
    modifies node
    ensures Tree(At(tl, node, tr), node, k + 1)
    ensures Content(At(tl, node, tr)) == old(Node(Content(tl), node.value, Content(tr)))
    ensures Nodes(At(tl, node, tr)) == Nodes(tl) + {node} + Nodes(tr)
  {
    assert allocated(Nodes(tl)) && allocated(Nodes(tr));
    node.left := left;
    node.right := right;
    TreeJoin(tl, node, tr, k);
  }

  /** Whatever n is, RandTree builds a perfect tree of fresh nodes, of height floor(log2 n). */
  method RandTree(n: nat, seed: nat) returns (h: HNode?, ghost t: Shape)
    ensures Tree(t, h, Log2(n)) && Content(t) == RandomTree(n, seed) && fresh(Nodes(t))
  {
    if n > 1 {
      var s := MyRandom(seed);
      var node := new HNode(s % RANGE);
      ghost var tl, tr;
      var left, right;
      left, tl := RandTree(n / 2, s);
      assert node !in Nodes(tl) && allocated(Nodes(tl));
      right, tr := RandTree(n / 2, SkipRand(s, n + 1));
      assert Nodes(tl) !! {node} !! Nodes(tr) && Tree(tl, left, Log2(n / 2));
      Plant(node, left, right, tl, tr, Log2(n / 2));
      h, t := node, At(tl, node, tr);
    } else {
      h, t := null, Empty;
    }
  }
}
