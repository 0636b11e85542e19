/**
 The value-level theory of the Patricia trie.  A node of the program is both a branching point and the
 holder of one key: as a branching point it is a `Down`, and the link that leads back up to it, where
 a search ends, is an `Up` that carries what the node holds.
 */
module PatriciaTrie {

  /** The bits of a key, the most significant first. */
  type Key = k: seq<bool> | |k| == 32 witness seq(32, _ => false)

  predicate Bit(i: nat, key: Key)
    requires i < 32
  {
    key[i]
  }

  /** An unsigned 32-bit number. */
  type Word = x: int | 0 <= x < 0x1_0000_0000

  datatype Mask = Mask(pm_mask: Word, pm_data: int)

  /** What a node holds besides its links: its key, its masks, and how many of them count. */
  datatype Entry = Entry(key: Key, masks: seq<Mask>, mlen: nat)

  class PNode {
    var p_key: Word
    var p_m: seq<Mask>
    var p_mlen: nat
    var p_b: nat
    var p_left: PNode?
    var p_right: PNode?

    constructor (key: Word, masks: seq<Mask>, mlen: nat)
      ensures p_key == key && p_m == masks && p_mlen == mlen && p_b == 0 && p_left == null && p_right == null
    {
      p_key, p_m, p_mlen, p_b, p_left, p_right := key, masks, mlen, 0, null, null;
    }
  }

  datatype Trie = Up(n: PNode, e: Entry) | Down(n: PNode, b: nat, l: Trie, r: Trie)

  /** Where a search can end: at a node, with what it holds. */
  datatype Link = Link(n: PNode, e: Entry)

  // ---------- The parts of a trie ----------

  function Entries(t: Trie): (s: set<Entry>)
  {
    match t
    case Up(_, e) => {e}
    case Down(_, _, l, r) => Entries(l) + Entries(r)
  }

  /** The nodes that branch in t. */
  ghost function Inner(t: Trie): (s: set<PNode>)
  {
    match t
    case Up(_, _) => {}
    case Down(n, _, l, r) => {n} + Inner(l) + Inner(r)
  }

  /** The up-links of t: where a search can end. */
  ghost function Leaves(t: Trie): (s: set<Link>)
  {
    match t
    case Up(n, e) => {Link(n, e)}
    case Down(_, _, l, r) => Leaves(l) + Leaves(r)
  }

  /** The one node that t has an up-link to without containing it. */
  ghost function Foreign(t: Trie): (r: PNode)
  {
    match t
    case Up(n, _) => n
    case Down(n, _, l, r) => if Foreign(l) == n then Foreign(r) else Foreign(l)
  }

  /** Every node branches once, and has exactly one up-link, inside its own subtree. */
  ghost predicate OwnLeaves(t: Trie) {
    match t
    case Up(_, _) => true
    case Down(n, _, l, r) =>
      && OwnLeaves(l) && OwnLeaves(r)
      && Inner(l) !! Inner(r) && n !in Inner(l) && n !in Inner(r)
      && (Foreign(l) == n) != (Foreign(r) == n)
      && Foreign(l) !in Inner(r) && Foreign(r) !in Inner(l)
  }

  /** How many up-links of t lead to n. */
  ghost function Ups(t: Trie, n: PNode): (r: nat) {
    match t
    case Up(m, _) => if m == n then 1 else 0
    case Down(_, _, l, r) => Ups(l, n) + Ups(r, n)
  }

  /** The subtree at whose top n branches. */
  ghost function Below(t: Trie, n: PNode): (d: Trie)
    requires n in Inner(t)
    ensures d.Down? && d.n == n
  {
    if t.n == n then t else if n in Inner(t.l) then Below(t.l, n) else Below(t.r, n)
  }

  /** Exactly one up-link leads to each node that branches in t, and to the foreign one; none to others. */
  lemma {:induction false} OneUpLink(t: Trie, n: PNode)
    requires OwnLeaves(t)
    ensures Ups(t, n) == if n in Inner(t) || n == Foreign(t) then 1 else 0
  {
    ForeignOutside(t);
    match t
    case Up(_, _) =>
    case Down(_, _, l, r) =>
      ForeignOutside(l);
      ForeignOutside(r);
      OneUpLink(l, n);
      OneUpLink(r, n);
  }

  /** The up-link to a node lies in the node's own subtree. */
  lemma {:induction false} UpLinkBelow(t: Trie, n: PNode)
    requires OwnLeaves(t) && n in Inner(t)
    ensures Ups(Below(t, n), n) == Ups(t, n) == 1
  {
    OneUpLink(t, n);
    if n == t.n {
    } else if n in Inner(t.l) {
      UpLinkBelow(t.l, n);
    } else {
      UpLinkBelow(t.r, n);
    }
  }

  /** Two keys agree on the bits from 1 to b - 1. */
  ghost predicate KeysAgree(j: Key, k: Key, b: nat) {
    forall i: nat {:trigger Bit(i, j)} {:trigger Bit(i, k)} :: 1 <= i < b && i < 32 ==> Bit(i, j) == Bit(i, k)
  }

  /** All keys of t agree on the bits from 1 to b - 1. */
  ghost predicate Agree(t: Trie, b: nat) {
    forall e, f {:trigger e in Entries(t), f in Entries(t)} ::
      e in Entries(t) && f in Entries(t) ==> KeysAgree(e.key, f.key, b)
  }

  /** Bit b of all keys of t is v. */
  ghost predicate AllBit(t: Trie, b: nat, v: bool)
    requires b < 32
  {
    forall e {:trigger e in Entries(t)} :: e in Entries(t) ==> Bit(b, e.key) == v
  }

  /** Branching bits increase along every down-link, and each separates the keys below it. */
  ghost predicate Branches(t: Trie, lo: nat) {
    match t
    case Up(_, _) => true
    case Down(n, b, l, r) =>
      && lo < b < 32 && Branches(l, b) && Branches(r, b)
      && AllBit(l, b, false) && AllBit(r, b, true)
      && Agree(t, b)
  }

  // ---------- Searching ----------

  /** The side of a branching point that a search for k takes, and the other one. */
  function Toward(t: Trie, k: Key): (u: Trie)
    requires t.Down? && t.b < 32
  {
    if Bit(t.b, k) then t.r else t.l
  }

  function Away(t: Trie, k: Key): (u: Trie)
    requires t.Down? && t.b < 32
  {
    if Bit(t.b, k) then t.l else t.r
  }

  /** The up-link at which a search for k ends. */
  function Find(t: Trie, k: Key): (r: Link)
    requires BitsOk(t)
    ensures r in Leaves(t) && r.e in Entries(t)
  {
    match t
    case Up(n, e) => Link(n, e)
    case Down(_, b, l, r) => if Bit(b, k) then Find(r, k) else Find(l, k)
  }

  predicate BitsOk(t: Trie) {
    match t
    case Up(_, _) => true
    case Down(_, b, l, r) => b < 32 && BitsOk(l) && BitsOk(r)
  }

  lemma {:induction false} BranchesBitsOk(t: Trie, lo: nat)
    requires Branches(t, lo)
    ensures BitsOk(t)
  {
    match t
    case Up(_, _) =>
    case Down(_, b, l, r) =>
      BranchesBitsOk(l, b);
      BranchesBitsOk(r, b);
  }

  lemma {:induction false} LeafEntries(t: Trie, n: PNode, e: Entry)
    requires Link(n, e) in Leaves(t)
    ensures e in Entries(t)
  {
    match t
    case Up(_, _) =>
    case Down(_, _, l, r) =>
      if Link(n, e) in Leaves(l) {
        LeafEntries(l, n, e);
      } else {
        LeafEntries(r, n, e);
      }
  }

  /** A search for the key of an up-link ends at that up-link. */
  lemma {:induction false} FindPresent(t: Trie, lo: nat, n: PNode, e: Entry)
    requires Branches(t, lo) && BitsOk(t) && Link(n, e) in Leaves(t)
    ensures Find(t, e.key) == Link(n, e)
  {
    match t
    case Up(_, _) =>
    case Down(_, b, l, r) =>
      if Link(n, e) in Leaves(l) {
        LeafEntries(l, n, e);
        FindPresent(l, b, n, e);
      } else {
        LeafEntries(r, n, e);
        FindPresent(r, b, n, e);
      }
  }

  /** The search looks at no bit before bit 1. */
  lemma {:induction false} SameWay(t: Trie, lo: nat, j: Key, k: Key)
    requires Branches(t, lo) && BitsOk(t) && KeysAgree(j, k, 32)
    ensures Find(t, j) == Find(t, k)
  {
    match t
    case Up(_, _) =>
    case Down(_, b, l, r) =>
      assert Bit(b, j) == Bit(b, k);
      SameWay(l, b, j, k);
      SameWay(r, b, j, k);
  }

  // ---------- Inserting ----------

  /** A new node goes in above the first subtree that does not branch before bit d. */
  function Insert(t: Trie, n: PNode, e: Entry, d: nat): (t': Trie)
    requires BitsOk(t) && d < 32
    ensures BitsOk(t')
  {
    if t.Up? || t.b >= d then
      if Bit(d, e.key) then Down(n, d, t, Up(n, e)) else Down(n, d, Up(n, e), t)
    else if Bit(t.b, e.key) then t.(r := Insert(t.r, n, e, d))
    else t.(l := Insert(t.l, n, e, d))
  }

  /** d is the first bit from 1 on at which k differs from the key that the search for k found. */
  ghost predicate FirstDifference(t: Trie, k: Key, d: nat)
    requires BitsOk(t)
  {
    && 1 <= d < 32 && Bit(d, k) != Bit(d, Find(t, k).e.key)
    && KeysAgree(k, Find(t, k).e.key, d)
  }

  lemma {:induction false} InsertEntries(t: Trie, n: PNode, e: Entry, d: nat)
    requires BitsOk(t) && d < 32
    ensures Entries(Insert(t, n, e, d)) == Entries(t) + {e}
    ensures Leaves(Insert(t, n, e, d)) == Leaves(t) + {Link(n, e)}
    ensures Inner(Insert(t, n, e, d)) == Inner(t) + {n}
  {
    if t.Up? || t.b >= d {
    } else if Bit(t.b, e.key) {
      InsertEntries(t.r, n, e, d);
    } else {
      InsertEntries(t.l, n, e, d);
    }
  }

  lemma {:induction false} InsertOwnLeaves(t: Trie, n: PNode, e: Entry, d: nat)
    requires BitsOk(t) && d < 32 && OwnLeaves(t) && n !in Inner(t) && n != Foreign(t)
    ensures OwnLeaves(Insert(t, n, e, d)) && Foreign(Insert(t, n, e, d)) == Foreign(t)
  {
    if t.Up? || t.b >= d {
      ForeignOutside(t);
    } else if Bit(t.b, e.key) {
      InsertOwnLeaves(t.r, n, e, d);
      InsertEntries(t.r, n, e, d);
    } else {
      InsertOwnLeaves(t.l, n, e, d);
      InsertEntries(t.l, n, e, d);
    }
  }

  lemma {:induction false} ForeignOutside(t: Trie)
    requires OwnLeaves(t)
    ensures Foreign(t) !in Inner(t)
  {
    match t
    case Up(_, _) =>
    case Down(n, _, l, r) =>
      ForeignOutside(l);
      ForeignOutside(r);
  }

  lemma {:induction false} NewKeySeparates(t: Trie, lo: nat, k: Key, d: nat, x: Entry)
    requires Branches(t, lo) && BitsOk(t) && FirstDifference(t, k, d) && (t.Up? || t.b >= d)
    requires x in Entries(t)
    ensures (t.Down? ==> t.b > d) && Bit(d, x.key) != Bit(d, k) && KeysAgree(x.key, k, d)
  {
    var f := Find(t, k).e;
    if t.Down? {
      assert Bit(t.b, f.key) == Bit(t.b, k);
      assert KeysAgree(x.key, f.key, t.b);
    }
    assert Bit(d, x.key) == Bit(d, f.key);
    forall i: nat | 1 <= i < d && i < 32
      ensures Bit(i, x.key) == Bit(i, k)
    {
      assert Bit(i, k) == Bit(i, f.key);
    }
  }

  /** Where the new node goes in, it separates the new key from all others. */
  lemma {:induction false} InsertHere(t: Trie, lo: nat, n: PNode, e: Entry, d: nat)
    requires Branches(t, lo) && BitsOk(t) && lo < d && FirstDifference(t, e.key, d)
    requires t.Up? || t.b >= d
    ensures Branches(Insert(t, n, e, d), lo)
  {
    forall x | x in Entries(t)
      ensures (t.Down? ==> t.b > d) && Bit(d, x.key) != Bit(d, e.key) && KeysAgree(x.key, e.key, d)
    {
      NewKeySeparates(t, lo, e.key, d, x);
    }
    assert Find(t, e.key).e in Entries(t);
    AgreeAll(t, e, Insert(t, n, e, d), d);
  }

  lemma {:induction false} AgreeAll(t: Trie, e: Entry, u: Trie, d: nat)
    requires Entries(u) == Entries(t) + {e}
    requires forall y :: y in Entries(t) ==> KeysAgree(y.key, e.key, d)
    ensures Agree(u, d)
  {
    forall x, y | x in Entries(u) && y in Entries(u)
      ensures KeysAgree(x.key, y.key, d)
    {
      forall i: nat | 1 <= i < d && i < 32
        ensures Bit(i, x.key) == Bit(i, y.key)
      {
        assert x == e || KeysAgree(x.key, e.key, d);
        assert y == e || KeysAgree(y.key, e.key, d);
        assert Bit(i, x.key) == Bit(i, e.key) == Bit(i, y.key);
      }
    }
  }

  /** Above that point the new key agrees with the others as far as they agree among themselves. */
  lemma {:induction false} InsertAbove(t: Trie, u: Trie, e: Entry, d: nat)
    requires t.Down? && t.b < d && t.b < 32 && BitsOk(t) && FirstDifference(t, e.key, d)
    requires Entries(u) == Entries(t) + {e} && Agree(t, t.b)
    ensures Agree(u, t.b)
  {
    var f := Find(t, e.key).e;
    forall y | y in Entries(t)
      ensures KeysAgree(y.key, e.key, t.b)
    {
      forall i: nat | 1 <= i < t.b && i < 32
        ensures Bit(i, y.key) == Bit(i, e.key)
      {
        assert KeysAgree(y.key, f.key, t.b) && Bit(i, f.key) == Bit(i, y.key) == Bit(i, e.key);
      }
    }
    AgreeAll(t, e, u, t.b);
  }

  lemma {:induction false} InsertBranches(t: Trie, lo: nat, n: PNode, e: Entry, d: nat)
    requires Branches(t, lo) && BitsOk(t) && lo < d && FirstDifference(t, e.key, d)
    ensures Branches(Insert(t, n, e, d), lo)
  {
    InsertEntries(t, n, e, d);
    if t.Up? || t.b >= d {
      InsertHere(t, lo, n, e, d);
    } else {
      InsertAbove(t, Insert(t, n, e, d), e, d);
      if Bit(t.b, e.key) {
        InsertBranches(t.r, t.b, n, e, d);
        InsertEntries(t.r, n, e, d);
      } else {
        InsertBranches(t.l, t.b, n, e, d);
        InsertEntries(t.l, n, e, d);
      }
    }
  }

  // ---------- Removing ----------

  /** The up-link at which a search for k ends leads to x instead. */
  function Relabel(t: Trie, k: Key, x: PNode): (u: Trie)
    requires BitsOk(t)
    ensures BitsOk(u) && Entries(u) == Entries(t)
  {
    match t
    case Up(n, e) => Up(x, e)
    case Down(n, b, l, r) => if Bit(b, k) then t.(r := Relabel(r, k, x)) else t.(l := Relabel(l, k, x))
  }

  /** The last branching point on the way of a search for k. */
  function LastDown(t: Trie, k: Key): (p: Trie)
    requires BitsOk(t) && t.Down?
    ensures p.Down? && BitsOk(p)
  {
    var c := Toward(t, k);
    if c.Up? then t else LastDown(c, k)
  }

  /** That branching point replaced by its other side. */
  function Splice(t: Trie, k: Key): (u: Trie)
    requires BitsOk(t) && t.Down?
    ensures BitsOk(u)
  {
    if Bit(t.b, k) then if t.r.Up? then t.l else t.(r := Splice(t.r, k))
    else if t.l.Up? then t.r else t.(l := Splice(t.l, k))
  }

  /**
   Removing k: the parent of its up-link, which holds kp, goes out as a branching point, and the node that
   held k takes over what the parent held.
   */
  function Remove(t: Trie, k: Key, kp: Key): (u: Trie)
    requires BitsOk(t) && t.Down?
    ensures BitsOk(u)
  {
    var r := Relabel(t, kp, Find(t, k).n);
    Splice(r, k)
  }

  lemma {:induction false} LeafNodes(t: Trie, n: PNode, e: Entry)
    requires OwnLeaves(t) && Link(n, e) in Leaves(t)
    ensures n in Inner(t) || n == Foreign(t)
  {
    match t
    case Up(_, _) =>
    case Down(m, _, l, r) =>
      if Link(n, e) in Leaves(l) {
        LeafNodes(l, n, e);
      } else {
        LeafNodes(r, n, e);
      }
  }

  /** Relabelling the up-link to the foreign node. */
  lemma {:induction false} RelabelForeign(t: Trie, lo: nat, p: PNode, e: Entry, x: PNode)
    requires Branches(t, lo) && BitsOk(t) && OwnLeaves(t) && Link(p, e) in Leaves(t) && p == Foreign(t)
    requires x !in Inner(t)
    ensures var u := Relabel(t, e.key, x);
            && Branches(u, lo) && OwnLeaves(u) && Foreign(u) == x && Inner(u) == Inner(t)
            && Leaves(u) == Leaves(t) - {Link(p, e)} + {Link(x, e)}
  {
    ForeignOutside(t);
    match t
    case Up(_, _) =>
    case Down(n, b, l, r) =>
      ForeignOutside(l);
      ForeignOutside(r);
      if Link(p, e) in Leaves(r) {
        LeafNodes(r, p, e);
        LeafEntries(r, p, e);
        RelabelForeign(r, b, p, e, x);
        NotALeaf(l, b, false, p, e);
      } else {
        LeafNodes(l, p, e);
        LeafEntries(l, p, e);
        RelabelForeign(l, b, p, e, x);
        NotALeaf(r, b, true, p, e);
      }
  }

  lemma {:induction false} NotALeaf(t: Trie, b: nat, v: bool, n: PNode, e: Entry)
    requires b < 32 && AllBit(t, b, v) && Bit(b, e.key) != v
    ensures Link(n, e) !in Leaves(t)
  {
    if Link(n, e) in Leaves(t) {
      LeafEntries(t, n, e);
    }
  }

  /** The up-link of x goes, and x takes over what p held if it is another node. */
  ghost predicate Relinked(a: set<Link>, b: set<Link>, p: PNode, x: PNode, ek: Entry, ep: Entry) {
    b == if x == p then a - {Link(x, ek)} else a - {Link(x, ek), Link(p, ep)} + {Link(x, ep)}
  }

  /** What removing k does to a well-formed trie. */
  ghost predicate Removed(t: Trie, u: Trie, lo: nat, p: PNode, x: PNode, ek: Entry, ep: Entry) {
    && Branches(u, lo) && OwnLeaves(u) && Foreign(u) == Foreign(t) && Inner(u) == Inner(t) - {p}
    && Entries(u) == Entries(t) - {ek}
    && Relinked(Leaves(t), Leaves(u), p, x, ek, ep)
  }

  lemma {:induction false} LastDownInner(t: Trie, k: Key)
    requires BitsOk(t) && t.Down?
    ensures LastDown(t, k).n in Inner(t)
  {
    var c := Toward(t, k);
    if c.Down? {
      LastDownInner(c, k);
    }
  }

  lemma {:induction false} RelabelSame(t: Trie, k: Key)
    requires BitsOk(t)
    ensures Relabel(t, k, Find(t, k).n) == t
  {
    match t
    case Up(_, _) =>
    case Down(_, b, l, r) =>
      RelabelSame(l, k);
      RelabelSame(r, k);
  }

  /** The parent's own up-link is the one that goes: the other side stays as it is. */
  lemma {:induction false} RemoveOwnLeaf(t: Trie, lo: nat, k: Key, ek: Entry)
    requires Branches(t, lo) && BitsOk(t) && OwnLeaves(t) && t.Down?
    requires Find(t, k) == Link(t.n, ek) && ek.key == k && Toward(t, k).Up?
    ensures Removed(t, Remove(t, k, k), lo, t.n, t.n, ek, ek)
  {
    RelabelSame(t, k);
    var s := Away(t, k);
    NotALeaf(s, t.b, !Bit(t.b, k), t.n, ek);
    NotAnEntry(s, t.b, !Bit(t.b, k), ek);
    BranchesLower(s, t.b, lo);
  }

  lemma {:induction false} NotAnEntry(t: Trie, b: nat, v: bool, e: Entry)
    requires b < 32 && AllBit(t, b, v) && Bit(b, e.key) != v
    ensures e !in Entries(t)
  {
  }

  lemma {:induction false} BranchesLower(t: Trie, hi: nat, lo: nat)
    requires Branches(t, hi) && lo <= hi
    ensures Branches(t, lo)
  {
  }

  /** The parent's up-link is elsewhere on the other side: it is relabelled there. */
  lemma {:induction false} RemoveOtherLeaf(t: Trie, lo: nat, k: Key, x: PNode, ek: Entry, ep: Entry)
    requires Branches(t, lo) && BitsOk(t) && OwnLeaves(t) && t.Down? && x != t.n
    requires Find(t, k) == Link(x, ek) && ek.key == k && Toward(t, k).Up? && Link(t.n, ep) in Leaves(t)
    ensures Removed(t, Remove(t, k, ep.key), lo, t.n, x, ek, ep)
  {
    var v := Bit(t.b, k);
    var s := Away(t, k);
    LeafEntries(s, t.n, ep);
    assert Bit(t.b, ep.key) == !v;
    RelabelForeign(s, t.b, t.n, ep, x);
    NotALeaf(s, t.b, !v, x, ek);
    NotAnEntry(s, t.b, !v, ek);
    assert Remove(t, k, ep.key) == Relabel(s, ep.key, x);
    BranchesLower(Relabel(s, ep.key, x), t.b, lo);
  }

  /** One side of a branching point replaced by a trie with fewer entries and the same foreign node. */
  lemma {:induction false} ReplaceSide(t: Trie, lo: nat, v: bool, c: Trie)
    requires Branches(t, lo) && OwnLeaves(t) && t.Down?
    requires Branches(c, t.b) && OwnLeaves(c)
    requires var before := if v then t.r else t.l;
             Entries(c) <= Entries(before) && Inner(c) <= Inner(before) && Foreign(c) == Foreign(before)
    ensures var u := if v then t.(r := c) else t.(l := c);
            Branches(u, lo) && OwnLeaves(u) && Foreign(u) == Foreign(t)
  {
    var u := if v then t.(r := c) else t.(l := c);
    assert Entries(u) <= Entries(t);
  }

  /** Removing from one part, c, of a set removes from the whole when the other part, s, is not concerned. */
  lemma {:induction false} SetsBelow<T>(t: set<T>, u: set<T>, c: set<T>, d: set<T>, s: set<T>, a: T, b: T, e: T)
    requires t == c + s && u == d + s && a !in s && b !in s
    ensures d == c - {a} ==> u == t - {a}
    ensures d == c - {a, b} + {e} ==> u == t - {a, b} + {e}
  {
  }

  /** The sets of a trie t of which one side, c, has been removed from; s is the other side. */
  lemma {:induction false} RemovedSets(t: Trie, s: Trie, p: PNode, x: PNode, ek: Entry, ep: Entry, c: Trie, d: Trie,
                                       u: Trie)
    requires t.Down? && (t == Down(t.n, t.b, c, s) || t == Down(t.n, t.b, s, c))
    requires u == (if t == Down(t.n, t.b, c, s) then Down(t.n, t.b, d, s) else Down(t.n, t.b, s, d))
    requires Inner(d) == Inner(c) - {p} && p !in Inner(s) && p != t.n
    requires Entries(d) == Entries(c) - {ek} && ek !in Entries(s)
    requires Link(x, ek) !in Leaves(s) && Link(p, ep) !in Leaves(s) && Relinked(Leaves(c), Leaves(d), p, x, ek, ep)
    ensures Inner(u) == Inner(t) - {p} && Entries(u) == Entries(t) - {ek}
    ensures Relinked(Leaves(t), Leaves(u), p, x, ek, ep)
  {
    SetsBelow(Leaves(t), Leaves(u), Leaves(c), Leaves(d), Leaves(s), Link(x, ek), Link(p, ep), Link(x, ep));
    SetsBelow(Entries(t), Entries(u), Entries(c), Entries(d), Entries(s), ek, ek, ek);
    SetsBelow(Inner(t), Inner(u), Inner(c), Inner(d), Inner(s) + {t.n}, p, p, p);
  }

  /** Above the parent nothing changes but the side below. */
  lemma {:induction false} RemoveBelow(t: Trie, lo: nat, k: Key, p: PNode, x: PNode, ek: Entry, ep: Entry, c: Trie,
                                       c': Trie)
    requires Branches(t, lo) && OwnLeaves(t) && t.Down? && p in Inner(c) && ek.key == k
    requires c == Toward(t, k) && Removed(c, c', t.b, p, x, ek, ep)
    requires ek in Entries(c) && Link(p, ep) in Leaves(c)
    ensures Removed(t, if Bit(t.b, k) then t.(r := c') else t.(l := c'), lo, p, x, ek, ep)
  {
    var v := Bit(t.b, k);
    var s := Away(t, k);
    ReplaceSide(t, lo, v, c');
    LeafEntries(c, p, ep);
    NotALeaf(s, t.b, !v, x, ek);
    NotALeaf(s, t.b, !v, p, ep);
    NotAnEntry(s, t.b, !v, ek);
    RemovedSets(t, s, p, x, ek, ep, c, c', if v then t.(r := c') else t.(l := c'));
  }

  lemma {:induction false} RemoveKeeps(t: Trie, lo: nat, k: Key, p: PNode, x: PNode, ek: Entry, ep: Entry)
    requires Branches(t, lo) && BitsOk(t) && OwnLeaves(t) && t.Down?
    requires Find(t, k) == Link(x, ek) && ek.key == k && LastDown(t, k).n == p && Link(p, ep) in Leaves(t)
    ensures p in Inner(t) && Removed(t, Remove(t, k, ep.key), lo, p, x, ek, ep)
  {
    var (c, s) := (Toward(t, k), Away(t, k));
    if c.Up? {
      if x == p {
        if Link(p, ep) in Leaves(s) {
          LeafNodes(s, p, ep);
        }
        RemoveOwnLeaf(t, lo, k, ek);
      } else {
        RemoveOtherLeaf(t, lo, k, x, ek, ep);
      }
    } else {
      LastDownInner(c, k);
      if Link(p, ep) in Leaves(s) {
        LeafNodes(s, p, ep);
      }
      LeafEntries(c, p, ep);
      RemoveKeeps(c, t.b, k, p, x, ek, ep);
      RemoveBelow(t, lo, k, p, x, ek, ep, c, Remove(c, k, ep.key));
    }
  }

  // ---------- Links, parents and grandparents ----------

  /** Every node branches once. */
  ghost predicate Distinct(t: Trie) {
    t.Down? ==> && Distinct(t.l) && Distinct(t.r)
                && Inner(t.l) !! Inner(t.r) && t.n !in Inner(t.l) && t.n !in Inner(t.r)
  }

  lemma {:induction false} OwnLeavesDistinct(t: Trie)
    requires OwnLeaves(t)
    ensures Distinct(t)
  {
    match t
    case Up(_, _) =>
    case Down(_, _, l, r) =>
      OwnLeavesDistinct(l);
      OwnLeavesDistinct(r);
  }

  lemma {:induction false} EntryLink(t: Trie, e: Entry) returns (n: PNode)
    requires e in Entries(t)
    ensures Link(n, e) in Leaves(t)
  {
    match t
    case Up(m, _) => n := m;
    case Down(_, _, l, r) =>
      if e in Entries(l) {
        n := EntryLink(l, e);
      } else {
        n := EntryLink(r, e);
      }
  }

  /** The foreign node has an up-link. */
  lemma {:induction false} ForeignLink(t: Trie) returns (e: Entry)
    ensures Link(Foreign(t), e) in Leaves(t)
  {
    match t
    case Up(_, x) => e := x;
    case Down(n, _, l, r) =>
      if Foreign(l) == n {
        e := ForeignLink(r);
      } else {
        e := ForeignLink(l);
      }
  }

  /** Every branching node has an up-link. */
  lemma {:induction false} OwnLink(t: Trie, n: PNode) returns (e: Entry)
    requires OwnLeaves(t) && n in Inner(t)
    ensures Link(n, e) in Leaves(t)
  {
    if n == t.n {
      if Foreign(t.l) == n {
        e := ForeignLink(t.l);
      } else {
        e := ForeignLink(t.r);
      }
    } else if n in Inner(t.l) {
      e := OwnLink(t.l, n);
    } else {
      e := OwnLink(t.r, n);
    }
  }

  /** The branching point above the last one on the way of a search for k. */
  function Grand(t: Trie, k: Key): (g: Trie)
    requires BitsOk(t) && t.Down? && Toward(t, k).Down?
    ensures g.Down? && BitsOk(g) && Toward(g, k).Down?
  {
    var c := Toward(t, k);
    assert BitsOk(c);
    if Toward(c, k).Up? then t else Grand(c, k)
  }

  /** The parent's own up-link is below it, so the search for its key passes through it. */
  lemma {:induction false} PathThrough(t: Trie, lo: nat, k: Key, p: PNode, e: Entry)
    requires Branches(t, lo) && BitsOk(t) && OwnLeaves(t) && t.Down?
    requires LastDown(t, k).n == p && Link(p, e) in Leaves(t)
    ensures LastDown(t, e.key) == LastDown(LastDown(t, k), e.key)
    ensures Find(t, e.key) == Find(LastDown(t, k), e.key) == Link(p, e)
  {
    FindPresent(t, lo, p, e);
    var c := Toward(t, k);
    if c.Down? {
      LastDownInner(c, k);
      if Link(p, e) in Leaves(Away(t, k)) {
        LeafNodes(Away(t, k), p, e);
      }
      LeafEntries(c, p, e);
      assert Bit(t.b, e.key) == Bit(t.b, k);
      PathThrough(c, t.b, k, p, e);
    }
  }

  lemma {:induction false} RelabelDistinct(t: Trie, j: Key, x: PNode)
    requires BitsOk(t)
    ensures Inner(Relabel(t, j, x)) == Inner(t) && (Distinct(t) ==> Distinct(Relabel(t, j, x)))
    ensures Relabel(t, j, x).Down? == t.Down?
  {
    match t
    case Up(_, _) =>
    case Down(_, _, l, r) =>
      RelabelDistinct(l, j, x);
      RelabelDistinct(r, j, x);
  }

  /** Relabelling an up-link leaves the way of every search as it was. */
  lemma {:induction false} RelabelPath(t: Trie, j: Key, x: PNode, k: Key)
    requires BitsOk(t) && t.Down?
    ensures var u := Relabel(t, j, x);
            && LastDown(u, k).n == LastDown(t, k).n && LastDown(u, k).b == LastDown(t, k).b
            && Toward(u, k).Down? == Toward(t, k).Down?
            && (Toward(t, k).Down? ==> Grand(u, k).n == Grand(t, k).n && Grand(u, k).b == Grand(t, k).b)
  {
    var c := Toward(t, k);
    RelabelDistinct(c, j, x);
    if c.Down? {
      RelabelPath(c, j, x, k);
    }
  }

  // ---------- Changing what a node holds ----------

  /** Node n holds e. */
  function Refill(t: Trie, n: PNode, e: Entry): (u: Trie) {
    match t
    case Up(m, _) => if m == n then Up(n, e) else t
    case Down(m, b, l, r) => Down(m, b, Refill(l, n, e), Refill(r, n, e))
  }

  /** In t, exactly the up-links of n carry e. */
  ghost predicate HeldBy(t: Trie, n: PNode, e: Entry) {
    forall x :: x in Leaves(t) ==> (x.n == n <==> x.e == e)
  }

  lemma {:induction false} RefillSets(t: Trie, n: PNode, old_e: Entry, e: Entry)
    requires HeldBy(t, n, old_e)
    ensures var u := Refill(t, n, e);
            && Inner(u) == Inner(t) && Foreign(u) == Foreign(t)
            && Leaves(u) == (if Link(n, old_e) in Leaves(t)
                             then Leaves(t) - {Link(n, old_e)} + {Link(n, e)} else Leaves(t))
            && Entries(u) == (if Link(n, old_e) in Leaves(t) then Entries(t) - {old_e} + {e} else Entries(t))
  {
    match t
    case Up(_, _) =>
    case Down(_, _, l, r) =>
      RefillSets(l, n, old_e, e);
      RefillSets(r, n, old_e, e);
      HeldOnce(l, n, old_e);
      HeldOnce(r, n, old_e);
  }

  lemma {:induction false} HeldOnce(t: Trie, n: PNode, e: Entry)
    requires HeldBy(t, n, e)
    ensures e in Entries(t) <==> Link(n, e) in Leaves(t)
  {
    if e in Entries(t) {
      var m := EntryLink(t, e);
    }
    if Link(n, e) in Leaves(t) {
      LeafEntries(t, n, e);
    }
  }

  lemma {:induction false} RefillOwnLeaves(t: Trie, n: PNode, old_e: Entry, e: Entry)
    requires OwnLeaves(t) && HeldBy(t, n, old_e)
    ensures OwnLeaves(Refill(t, n, e))
  {
    match t
    case Up(_, _) =>
    case Down(_, _, l, r) =>
      RefillOwnLeaves(l, n, old_e, e);
      RefillOwnLeaves(r, n, old_e, e);
      RefillSets(l, n, old_e, e);
      RefillSets(r, n, old_e, e);
  }

  lemma {:induction false} RefillBranches(t: Trie, lo: nat, n: PNode, old_e: Entry, e: Entry)
    requires Branches(t, lo) && HeldBy(t, n, old_e) && e.key == old_e.key
    ensures Branches(Refill(t, n, e), lo)
  {
    match t
    case Up(_, _) =>
    case Down(_, b, l, r) =>
      RefillBranches(l, b, n, old_e, e);
      RefillBranches(r, b, n, old_e, e);
      RefillBits(l, b, false, n, old_e, e);
      RefillBits(r, b, true, n, old_e, e);
      RefillBits(t, b, false, n, old_e, e);
  }

  /** Entries that keep their keys keep every statement about the bits of the keys. */
  lemma {:induction false} RefillBits(t: Trie, b: nat, v: bool, n: PNode, old_e: Entry, e: Entry)
    requires e.key == old_e.key && HeldBy(t, n, old_e) && b < 32
    ensures AllBit(t, b, v) ==> AllBit(Refill(t, n, e), b, v)
    ensures Agree(t, b) ==> Agree(Refill(t, n, e), b)
  {
    var u := Refill(t, n, e);
    RefillSets(t, n, old_e, e);
    HeldOnce(t, n, old_e);
    forall x, y | Agree(t, b) && x in Entries(u) && y in Entries(u)
      ensures KeysAgree(x.key, y.key, b)
    {
      var x' := if x in Entries(t) then x else old_e;
      var y' := if y in Entries(t) then y else old_e;
      assert KeysAgree(x'.key, y'.key, b);
    }
  }
}
