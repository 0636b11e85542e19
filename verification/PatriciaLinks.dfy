/** How a trie is laid out in the nodes' fields, and what writing one link does to it. */
module PatriciaLinks {
  import opened Powers
  import opened PatriciaTrie

  // ---------- The bits of a word ----------

  /** Binary digit n of x. */
  predicate Digit(x: nat, n: nat) {
    if n == 0 then x % 2 == 1 else Digit(x / 2, n - 1)
  }

  /** Bit i, counted from the most significant one. */
  predicate IsSet(i: nat, key: Word)
    requires i < 32
  {
    Digit(key, 31 - i)
  }

  function BitsOf(key: Word): (k: Key)
    ensures forall i: nat :: i < 32 ==> Bit(i, k) == IsSet(i, key)
  {
    seq(32, i requires 0 <= i < 32 => IsSet(i, key))
  }

  /** The bits set in both words. */
  function And(x: nat, y: nat): (r: nat)
    ensures r <= x
  {
    if x == 0 || y == 0 then 0 else 2 * And(x / 2, y / 2) + (if x % 2 == 1 && y % 2 == 1 then 1 else 0)
  }

  lemma {:induction false} AndDigit(x: nat, y: nat, n: nat)
    ensures Digit(And(x, y), n) == (Digit(x, n) && Digit(y, n))
  {
    if x == 0 || y == 0 {
      ZeroDigit(n);
    } else if n > 0 {
      AndDigit(x / 2, y / 2, n - 1);
    }
  }

  lemma {:induction false} ZeroDigit(n: nat)
    ensures !Digit(0, n)
  {
    if n > 0 {
      ZeroDigit(n - 1);
    }
  }

  lemma {:induction false} PowDigit(n: nat, j: nat)
    ensures Digit(Pow2(n), j) == (j == n)
  {
    if n == 0 && j > 0 {
      ZeroDigit(j - 1);
    } else if n > 0 && j > 0 {
      PowDigit(n - 1, j - 1);
    }
  }

  lemma {:induction false} OnesDigit(n: nat, j: nat)
    ensures Digit(Pow2(n) - 1, j) == (j < n)
  {
    if n == 0 {
      ZeroDigit(j);
    } else if j > 0 {
      assert (Pow2(n) - 1) / 2 == Pow2(n - 1) - 1;
      OnesDigit(n - 1, j - 1);
    }
  }

  lemma {:induction false} SameDigits(x: nat, y: nat, n: nat)
    requires x < Pow2(n) && y < Pow2(n) && forall j: nat :: j < n ==> Digit(x, j) == Digit(y, j)
    ensures x == y
  {
    if n > 0 {
      assert Digit(x, 0) == Digit(y, 0);
      forall j: nat | j < n - 1
        ensures Digit(x / 2, j) == Digit(y / 2, j)
      {
        var j' := j + 1;
        assert Digit(x, j') == Digit(y, j');
      }
      SameDigits(x / 2, y / 2, n - 1);
    }
  }

  /** A word is determined by its bits. */
  lemma {:induction false} SameBits(a: Word, b: Word)
    requires BitsOf(a) == BitsOf(b)
    ensures a == b
  {
    forall j: nat | j < 32
      ensures Digit(a, j) == Digit(b, j)
    {
      var i := 31 - j;
      assert Bit(i, BitsOf(a)) == Bit(i, BitsOf(b));
    }
    WordPowers();
    SameDigits(a, b, 32);
  }

  lemma {:induction false} ZeroBits(i: nat)
    requires i < 32
    ensures !Bit(i, BitsOf(0))
  {
    ZeroDigit(31 - i);
  }

  lemma {:induction false} HighBits(i: nat)
    requires i < 32
    ensures Bit(i, BitsOf(0x8000_0000)) <==> i == 0
  {
    WordPowers();
    PowDigit(31, 31 - i);
  }

  /** The one key that differs from 0 only in bit 0. */
  lemma {:induction false} OnlyHighBit(key: Word)
    requires Bit(0, BitsOf(key)) && forall i: nat :: 1 <= i < 32 ==> !Bit(i, BitsOf(key))
    ensures key == 0x8000_0000
  {
    forall i: nat | i < 32
      ensures Bit(i, BitsOf(key)) == Bit(i, BitsOf(0x8000_0000))
    {
      HighBits(i);
    }
    SameBits(key, 0x8000_0000);
  }

  /** Mask 0xffffffff keeps every bit, mask 0 none. */
  lemma {:induction false} MaskBits(key: Word)
    ensures And(key, 0xffff_ffff) == key && And(key, 0) == 0
  {
    WordPowers();
    var x := And(key, 0xffff_ffff);
    forall i: nat | i < 32
      ensures Bit(i, BitsOf(x)) == Bit(i, BitsOf(key))
    {
      AndDigit(key, 0xffff_ffff, 31 - i);
      OnesDigit(32, 31 - i);
    }
    SameBits(x, key);
  }

  // ---------- The layout of a trie ----------

  /** The link q leads to t. */
  ghost predicate Rep(t: Trie, q: PNode?)
    reads Inner(t)`p_b, Inner(t)`p_left, Inner(t)`p_right
  {
    match t
    case Up(n, _) => q == n
    case Down(n, b, l, r) => q == n && n.p_b == b && Rep(l, n.p_left) && Rep(r, n.p_right)
  }

  /** A node holds what its up-link carries. */
  ghost predicate Holds(x: Link)
    reads x.n`p_key, x.n`p_m, x.n`p_mlen
  {
    x.e == Entry(BitsOf(x.n.p_key), x.n.p_m, x.n.p_mlen)
  }

  /** Branching bits increase along every down-link. */
  predicate Rising(t: Trie, lo: nat) {
    t.Down? ==> lo < t.b < 32 && Rising(t.l, t.b) && Rising(t.r, t.b)
  }

  lemma {:induction false} BranchesRising(t: Trie, lo: nat)
    requires Branches(t, lo)
    ensures Rising(t, lo)
  {
    match t
    case Up(_, _) =>
    case Down(_, b, l, r) =>
      BranchesRising(l, b);
      BranchesRising(r, b);
  }

  /** The link q, met below bit lo, leads to t, and following up-links can be told from following down-links. */
  ghost predicate At(t: Trie, q: PNode?, lo: nat)
    reads Inner(t)`p_b, Inner(t)`p_left, Inner(t)`p_right, Foreign(t)`p_b
  {
    Rep(t, q) && Rising(t, lo) && OwnLeaves(t) && Foreign(t).p_b <= lo
  }

  /** Comparing branching bits tells up-links from down-links. */
  lemma {:induction false} Descend(t: Trie, q: PNode?, lo: nat)
    requires At(t, q, lo)
    ensures q != null && (t.Down? <==> lo < q.p_b)
    ensures t.Down? ==> q == t.n && q.p_b == t.b < 32 && At(t.l, q.p_left, t.b) && At(t.r, q.p_right, t.b)
  {
  }

  lemma {:induction false} InnerBits(t: Trie, q: PNode?, lo: nat, n: PNode)
    requires Rep(t, q) && Rising(t, lo) && n in Inner(t)
    ensures lo < n.p_b
  {
    if n in Inner(t.l) {
      InnerBits(t.l, t.n.p_left, t.b, n);
    } else if n in Inner(t.r) {
      InnerBits(t.r, t.n.p_right, t.b, n);
    }
  }

  /** On the way of a search for k in side: the link t, met below bit i, leads to the subtrie cur. */
  ghost predicate Walk(side: Trie, k: Key, cur: Trie, t: PNode?, i: nat)
    reads Inner(cur)`p_b, Inner(cur)`p_left, Inner(cur)`p_right, Foreign(cur)`p_b
  {
    BitsOk(side) && BitsOk(cur) && At(cur, t, i) && Find(cur, k) == Find(side, k) && Inner(cur) <= Inner(side)
  }

  lemma {:induction false} WalkOn(side: Trie, k: Key, cur: Trie, t: PNode?, i: nat)
    requires Walk(side, k, cur, t, i)
    ensures t != null && (cur.Down? <==> i < t.p_b)
    ensures cur.Up? ==> t == Find(side, k).n
    ensures cur.Down? ==> t in Inner(side) && t.p_b < 32
    ensures cur.Down? ==>
              Toward(cur, k) < cur
              && Walk(side, k, Toward(cur, k), if Bit(t.p_b, k) then t.p_right else t.p_left, t.p_b)
  {
    Descend(cur, t, i);
  }

  // ---------- Writing one link ----------

  /** The fields of a node that lay out the trie. */
  datatype Fields = Fields(b: nat, left: PNode?, right: PNode?)

  ghost function Snapshot(s: set<PNode>): (m: map<PNode, Fields>)
    reads s
  {
    map n | n in s :: Fields(n.p_b, n.p_left, n.p_right)
  }

  /** Rep in the memory m. */
  ghost predicate RepIn(t: Trie, q: PNode?, m: map<PNode, Fields>) {
    match t
    case Up(n, _) => q == n
    case Down(n, b, l, r) => q == n && n in m && m[n].b == b && RepIn(l, m[n].left, m) && RepIn(r, m[n].right, m)
  }

  lemma {:induction false} Snapped(t: Trie, q: PNode?, s: set<PNode>)
    requires Inner(t) <= s
    ensures Rep(t, q) <==> RepIn(t, q, Snapshot(s))
  {
    match t
    case Up(_, _) =>
    case Down(n, b, l, r) =>
      Snapped(l, n.p_left, s);
      Snapped(r, n.p_right, s);
  }

  lemma {:induction false} SameRep(t: Trie, q: PNode?, m: map<PNode, Fields>, m': map<PNode, Fields>)
    requires RepIn(t, q, m)
    requires forall n :: n in Inner(t) ==> n in m && n in m' && m'[n] == m[n]
    ensures RepIn(t, q, m')
  {
    match t
    case Up(_, _) =>
    case Down(n, _, l, r) =>
      SameRep(l, m[n].left, m, m');
      SameRep(r, m[n].right, m, m');
  }

  function Link1(m: map<PNode, Fields>, w: PNode, v: bool): (r: PNode?)
    requires w in m
  {
    if v then m[w].right else m[w].left
  }

  /** The link of w on side v set to y. */
  function SetLink(m: map<PNode, Fields>, w: PNode, v: bool, y: PNode?): (r: map<PNode, Fields>)
    requires w in m
  {
    m[w := if v then m[w].(right := y) else m[w].(left := y)]
  }

  lemma {:induction false} RepNodes(t: Trie, q: PNode?, m: map<PNode, Fields>)
    requires RepIn(t, q, m)
    ensures forall n :: n in Inner(t) ==> n in m
  {
    match t
    case Up(_, _) =>
    case Down(n, _, l, r) =>
      RepNodes(l, m[n].left, m);
      RepNodes(r, m[n].right, m);
  }

  /** The last link on the way of a search for k set to x. */
  lemma {:induction false} LinkToLeaf(t: Trie, q: PNode?, k: Key, x: PNode, m: map<PNode, Fields>)
    requires RepIn(t, q, m) && Distinct(t) && BitsOk(t) && t.Down?
    ensures var d := LastDown(t, k);
            d.n in m && RepIn(Relabel(t, k, x), q, SetLink(m, d.n, Bit(d.b, k), x))
  {
    RepNodes(t, q, m);
    LastDownInner(t, k);
    var d := LastDown(t, k);
    var m' := SetLink(m, d.n, Bit(d.b, k), x);
    var c := Toward(t, k);
    if c.Down? {
      LastDownInner(c, k);
      LinkToLeaf(c, Link1(m, t.n, Bit(t.b, k)), k, x, m);
    }
    SameRep(Away(t, k), Link1(m, t.n, !Bit(t.b, k)), m, m');
  }

  /** The grandparent's link set to the other side of the parent. */
  lemma {:induction false} LinkPast(t: Trie, q: PNode?, k: Key, m: map<PNode, Fields>)
    requires RepIn(t, q, m) && Distinct(t) && BitsOk(t) && t.Down? && Toward(t, k).Down?
    ensures var (g, d) := (Grand(t, k), LastDown(t, k));
            && g.n in m && d.n in m
            && RepIn(Splice(t, k), q, SetLink(m, g.n, Bit(g.b, k), Link1(m, d.n, !Bit(d.b, k))))
  {
    RepNodes(t, q, m);
    GrandInner(t, k);
    var (g, d) := (Grand(t, k), LastDown(t, k));
    var m' := SetLink(m, g.n, Bit(g.b, k), Link1(m, d.n, !Bit(d.b, k)));
    var c := Toward(t, k);
    if Toward(c, k).Up? {
      SameRep(Away(c, k), Link1(m, d.n, !Bit(d.b, k)), m, m');
    } else {
      GrandInner(c, k);
      LinkPast(c, Link1(m, t.n, Bit(t.b, k)), k, m);
    }
    SameRep(Away(t, k), Link1(m, t.n, !Bit(t.b, k)), m, m');
  }

  lemma {:induction false} GrandInner(t: Trie, k: Key)
    requires BitsOk(t) && t.Down? && Toward(t, k).Down?
    ensures Grand(t, k).n in Inner(t) && LastDown(t, k).n in Inner(t)
  {
    LastDownInner(t, k);
    var c := Toward(t, k);
    if Toward(c, k).Down? {
      GrandInner(c, k);
    }
  }

  lemma {:induction false} RefillRep(t: Trie, q: PNode?, n: PNode, e: Entry)
    requires Rep(t, q) && Inner(Refill(t, n, e)) == Inner(t)
    ensures Rep(Refill(t, n, e), q)
  {
    match t
    case Up(_, _) =>
    case Down(m, _, l, r) =>
      RefillInner(l, n, e);
      RefillInner(r, n, e);
      RefillRep(l, m.p_left, n, e);
      RefillRep(r, m.p_right, n, e);
  }

  lemma {:induction false} RefillInner(t: Trie, n: PNode, e: Entry)
    ensures Inner(Refill(t, n, e)) == Inner(t) && Foreign(Refill(t, n, e)) == Foreign(t)
  {
    match t
    case Up(_, _) =>
    case Down(_, _, l, r) =>
      RefillInner(l, n, e);
      RefillInner(r, n, e);
  }

  /** A node branches at the bit it stores. */
  lemma {:induction false} RepBits(t: Trie, q: PNode?, m: map<PNode, Fields>, k: Key)
    requires RepIn(t, q, m) && BitsOk(t) && t.Down?
    ensures var d := LastDown(t, k); d.n in m && m[d.n].b == d.b
    ensures Toward(t, k).Down? ==> var g := Grand(t, k); g.n in m && m[g.n].b == g.b
  {
    var c := Toward(t, k);
    if c.Down? {
      RepBits(c, Link1(m, t.n, Bit(t.b, k)), m, k);
    }
  }

  /** The link of w on the side of the key set to y. */
  method WriteLink(w: PNode, key: Word, y: PNode?, ghost s: set<PNode>)
    requires w in s && w.p_b < 32
    modifies w`p_left, w`p_right
    ensures Snapshot(s) == SetLink(old(Snapshot(s)), w, Bit(old(w.p_b), BitsOf(key)), y)
  {
    if IsSet(w.p_b, key) {
      w.p_right := y;
    } else {
      w.p_left := y;
    }
  }

  /** The links written when the key is removed: first the one to its parent, then the one past it. */
  method Relink(head: PNode, g: PNode, p: PNode, pp: PNode, x: PNode, key: Word, ghost t: Trie, ghost s: set<PNode>)
    requires Rep(t, head) && Distinct(t) && BitsOk(t) && Inner(t) <= s && t.Down? && Toward(t, BitsOf(key)).Down?
    requires g == Grand(t, BitsOf(key)).n && p == LastDown(t, BitsOf(key)).n && pp == LastDown(t, BitsOf(p.p_key)).n
    modifies s`p_left, s`p_right
    ensures Rep(Splice(Relabel(t, BitsOf(p.p_key), x), BitsOf(key)), head)
  {
    ghost var (k, kp, m) := (BitsOf(key), BitsOf(p.p_key), Snapshot(s));
    ghost var u := Relabel(t, kp, x);
    Snapped(t, head, s);
    LinksPlan(t, head, k, kp, x, m);
    RepBits(t, head, m, k);
    RepBits(t, head, m, kp);
    WriteLink(pp, p.p_key, x, s);
    WriteLink(g, key, if IsSet(p.p_b, key) then p.p_left else p.p_right, s);
    Snapped(Splice(u, k), head, s);
  }

  /** What the two writes make of the layout. */
  lemma {:induction false} LinksPlan(t: Trie, q: PNode, k: Key, kp: Key, x: PNode, m: map<PNode, Fields>)
    requires RepIn(t, q, m) && Distinct(t) && BitsOk(t) && t.Down? && Toward(t, k).Down?
    ensures var (g, p, d) := (Grand(t, k), LastDown(t, k), LastDown(t, kp));
            && g.n in m && p.n in m && d.n in m
            && var m' := SetLink(m, d.n, Bit(d.b, kp), x);
               RepIn(Splice(Relabel(t, kp, x), k), q, SetLink(m', g.n, Bit(g.b, k), Link1(m', p.n, !Bit(p.b, k))))
    ensures Inner(Splice(Relabel(t, kp, x), k)) <= Inner(t)
  {
    LinkToLeaf(t, q, kp, x, m);
    RepNodes(t, q, m);
    GrandInner(t, k);
    LastDownInner(t, kp);
    RelabelDistinct(t, kp, x);
    RelabelPath(t, kp, x, k);
    var d := LastDown(t, kp);
    LinkPast(Relabel(t, kp, x), q, k, SetLink(m, d.n, Bit(d.b, kp), x));
    SpliceInner(Relabel(t, kp, x), k);
  }

  lemma {:induction false} SpliceInner(t: Trie, k: Key)
    requires BitsOk(t) && t.Down?
    ensures Inner(Splice(t, k)) <= Inner(t)
  {
    var c := Toward(t, k);
    if c.Down? {
      SpliceInner(c, k);
    }
  }
}
