/**
 The Patricia trie as the program keeps it: nodes that branch and hold keys at once, with links back up.
 The default entry (key 0, mask 0) sits at the head; every other mask is 0xffffffff.
 */
module Patricia {
  import opened PatriciaTrie
  import opened PatriciaLinks

  const HOST: Word := 0xffff_ffff

  /** The one key that cannot be told from the head's by a bit from 1 on. */
  const HIGH: Word := 0x8000_0000

  // ---------- Masks ----------

  /** The first of the len masks that is m, or len. */
  function MaskIndex(ms: seq<Mask>, len: nat, m: Word): (i: nat)
    requires len <= |ms|
    ensures i <= len && (i < len ==> ms[i].pm_mask == m)
    ensures forall j: nat :: j < i ==> ms[j].pm_mask != m
  {
    if len == 0 then 0
    else
      var i := MaskIndex(ms, len - 1, m);
      if i < len - 1 || ms[i].pm_mask == m then i else len
  }

  /** The masks from i on, with m put in before the first that is not below it. */
  function Merged(ms: seq<Mask>, i: nat, m: Mask): (r: seq<Mask>)
    requires i <= |ms|
    decreases |ms| - i
  {
    if i == |ms| then [m]
    else if m.pm_mask > ms[i].pm_mask then [ms[i]] + Merged(ms, i + 1, m)
    else [m] + ms[i..]
  }

  lemma {:induction false} HostLargest(m: Word)
    ensures m != HOST ==> HOST > m
  {
  }

  /** The new mask goes in at its place.  The loop ends only without a stored 0xffffffff, see `MergeNeverEnds`. */
  method MergeMask(ms: seq<Mask>, m: Mask) returns (buf: seq<Mask>)
    requires forall i: nat :: i < |ms| ==> ms[i].pm_mask != HOST
    ensures buf == Merged(ms, 0, m)
  {
    var n := m;
    var i, copied := 0, false;
    buf := [];
    while i < |ms|
      invariant 0 <= i <= |ms|
      invariant !copied ==> n == m && buf + Merged(ms, i, m) == Merged(ms, 0, m)
      invariant copied ==> n.pm_mask == HOST && buf + ms[i..] == Merged(ms, 0, m)
      decreases |ms| - i, !copied
    {
      HostLargest(ms[i].pm_mask);
      if n.pm_mask > ms[i].pm_mask {
        assert ms[i..] == [ms[i]] + ms[i + 1..];
        buf := buf + [ms[i]];
        i := i + 1;
      } else {
        assert Merged(ms, i, m) == [m] + ms[i..];
        buf := buf + [n];
        n := n.(pm_mask := HOST);
        copied := true;
      }
    }
    if !copied {
      buf := buf + [n];
    }
  }

  /** After k turns of the copy loop: the place in the list, and the mask that is compared. */
  function AfterTurns(ms: seq<Mask>, m: Word, k: nat): (r: (nat, Word)) {
    if k == 0 then (0, m)
    else
      var (i, n) := AfterTurns(ms, m, k - 1);
      if i >= |ms| then (i, n) else if n > ms[i].pm_mask then (i + 1, n) else (i, HOST)
  }

  /** A stored 0xffffffff stops the copy loop from ever getting past it. */
  lemma {:induction false} MergeNeverEnds(ms: seq<Mask>, m: Word, j: nat, k: nat)
    requires j < |ms| && ms[j].pm_mask == HOST
    ensures AfterTurns(ms, m, k).0 <= j
  {
    if k > 0 {
      MergeNeverEnds(ms, m, j, k - 1);
    }
  }

  /** What a node holds after mask m has been added. */
  function AddMask(e: Entry, m: Mask): (r: Entry)
    requires e.mlen <= |e.masks|
  {
    var i := MaskIndex(e.masks, e.mlen, m.pm_mask);
    if i < e.mlen then e.(masks := e.masks[i := m])
    else e.(masks := Merged(e.masks[..e.mlen], 0, m), mlen := e.mlen + 1)
  }

  /** The masks other than m, in order. */
  function WithoutMask(ms: seq<Mask>, m: Word): (s: seq<Mask>) {
    if ms == [] then []
    else WithoutMask(ms[..|ms| - 1], m) + if ms[|ms| - 1].pm_mask == m then [] else [ms[|ms| - 1]]
  }

  /** The copy loop of removal. */
  method CopyOthers(ms: seq<Mask>, len: nat, m: Word) returns (buf: seq<Mask>)
    requires len <= |ms|
    ensures buf == WithoutMask(ms[..len], m)
  {
    buf := [];
    var i := 0;
    while i < len
      invariant 0 <= i <= len && buf == WithoutMask(ms[..i], m)
    {
      assert ms[..i + 1][..i] == ms[..i];
      if m != ms[i].pm_mask {
        buf := buf + [ms[i]];
      }
      i := i + 1;
    }
  }

  /** A single mask goes with its node, except at the head; of several, the one that is equal goes. */
  predicate Removable(e: Entry, m: Word) {
    e.mlen <= |e.masks| &&
    if e.mlen == 1 then e.key != BitsOf(0) && e.masks[0].pm_mask == m else MaskIndex(e.masks, e.mlen, m) < e.mlen
  }

  /** What remains of an entry. */
  function Remains(e: Entry, m: Word): (s: set<Entry>)
    requires 0 < e.mlen <= |e.masks|
  {
    if e.mlen == 1 then {}
    else {Entry(e.key, WithoutMask(e.masks[..e.mlen], m), e.mlen - 1)}
  }

  /** When one of the head's two masks goes, the other one stays. */
  lemma {:induction false} RemainsDefault(e: Entry, m: Word)
    requires IsDefault(e) && e.mlen != 1 && Removable(e, m)
    ensures IsDefault(Entry(e.key, WithoutMask(e.masks[..e.mlen], m), e.mlen - 1))
  {
    var ms := e.masks[..e.mlen];
    assert ms[..|ms| - 1] == [e.masks[0]];
    assert [e.masks[0]][..0] == [];
    assert WithoutMask([e.masks[0]], m) == if e.masks[0].pm_mask == m then [] else [e.masks[0]];
  }

  // ---------- What adding and removing a mask means ----------

  /** The masks an entry counts. */
  function Counted(e: Entry): (ms: seq<Mask>)
    requires e.mlen <= |e.masks|
  {
    e.masks[..e.mlen]
  }

  ghost predicate HasMask(ms: seq<Mask>, m: Word) {
    exists j: nat :: j < |ms| && ms[j].pm_mask == m
  }

  ghost predicate Ascending(ms: seq<Mask>) {
    forall i, j :: 0 <= i < j < |ms| ==> ms[i].pm_mask < ms[j].pm_mask
  }

  /** The new mask stands after those below it and before the others, which keep their places. */
  lemma {:induction false} MergedAt(ms: seq<Mask>, i: nat, m: Mask) returns (j: nat)
    requires i <= |ms|
    ensures i <= j <= |ms| && Merged(ms, i, m) == ms[i..j] + [m] + ms[j..]
    ensures forall k: nat :: i <= k < j ==> ms[k].pm_mask < m.pm_mask
    ensures j < |ms| ==> m.pm_mask <= ms[j].pm_mask
    decreases |ms| - i
  {
    if i < |ms| && m.pm_mask > ms[i].pm_mask {
      j := MergedAt(ms, i + 1, m);
      assert [ms[i]] + ms[i + 1..j] == ms[i..j];
    } else {
      j := i;
    }
  }

  lemma {:induction false} MaskIndexMeans(ms: seq<Mask>, len: nat, m: Word)
    requires len <= |ms|
    ensures MaskIndex(ms, len, m) < len <==> HasMask(ms[..len], m)
  {
    var i := MaskIndex(ms, len, m);
    if i < len {
      assert ms[..len][i].pm_mask == m;
    }
  }

  /**
   An added mask is there with its data, in place of an equal one if there was one; the others stay, and ascending masks
   stay ascending.
   */
  lemma {:induction false} AddMaskMeans(e: Entry, m: Mask)
    requires e.mlen <= |e.masks|
    ensures var r := AddMask(e, m);
            && r.key == e.key && r.mlen <= |r.masks| && m in Counted(r)
            && r.mlen == e.mlen + (if HasMask(Counted(e), m.pm_mask) then 0 else 1)
            && (forall x: Mask :: x.pm_mask != m.pm_mask ==> (x in Counted(r) <==> x in Counted(e)))
            && (Ascending(Counted(e)) ==> Ascending(Counted(r)))
  {
    var (ms, r) := (Counted(e), AddMask(e, m));
    MaskIndexMeans(e.masks, e.mlen, m.pm_mask);
    var i := MaskIndex(e.masks, e.mlen, m.pm_mask);
    if i < e.mlen {
      assert Counted(r) == ms[i := m];
      Replaced(ms, i, m);
    } else {
      var j := MergedAt(ms, 0, m);
      assert Counted(r) == ms[..j] + [m] + ms[j..];
      PutIn(ms, j, m);
    }
  }

  lemma {:induction false} Replaced(ms: seq<Mask>, i: nat, m: Mask)
    requires i < |ms| && ms[i].pm_mask == m.pm_mask
    ensures m in ms[i := m] && (Ascending(ms) ==> Ascending(ms[i := m]))
    ensures forall x: Mask :: x.pm_mask != m.pm_mask ==> (x in ms[i := m] <==> x in ms)
  {
    var r := ms[i := m];
    assert r[i] == m;
    forall x: Mask | x.pm_mask != m.pm_mask && x in ms
      ensures x in r
    {
      var k :| 0 <= k < |ms| && ms[k] == x;
      assert r[k] == x;
    }
  }

  lemma {:induction false} PutIn(ms: seq<Mask>, j: nat, m: Mask)
    requires j <= |ms| && !HasMask(ms, m.pm_mask)
    requires forall k: nat :: k < j ==> ms[k].pm_mask < m.pm_mask
    requires j < |ms| ==> m.pm_mask <= ms[j].pm_mask
    ensures var r := ms[..j] + [m] + ms[j..];
            && m in r && (Ascending(ms) ==> Ascending(r))
            && forall x: Mask :: x.pm_mask != m.pm_mask ==> (x in r <==> x in ms)
  {
    assert ms == ms[..j] + ms[j..];
    if j < |ms| {
      assert ms[j].pm_mask != m.pm_mask;
    }
  }

  /** The other masks remain. */
  lemma {:induction false} WithoutMaskMeans(ms: seq<Mask>, m: Word)
    ensures forall x: Mask :: x in WithoutMask(ms, m) <==> x in ms && x.pm_mask != m
  {
    if ms != [] {
      WithoutMaskMeans(ms[..|ms| - 1], m);
      assert ms == ms[..|ms| - 1] + [ms[|ms| - 1]];
    }
  }

  /** Of ascending masks one goes, and the others stay ascending. */
  lemma {:induction false} WithoutOne(ms: seq<Mask>, m: Word)
    requires Ascending(ms)
    ensures Ascending(WithoutMask(ms, m))
    ensures |WithoutMask(ms, m)| == |ms| - if HasMask(ms, m) then 1 else 0
  {
    if ms != [] {
      var (us, y) := (ms[..|ms| - 1], ms[|ms| - 1]);
      WithoutOne(us, m);
      WithoutMaskMeans(us, m);
      LastMask(us, y, m, ms);
      assert forall x: Mask :: x in us ==> x.pm_mask < y.pm_mask;
    }
  }

  lemma {:induction false} LastMask(us: seq<Mask>, y: Mask, m: Word, ms: seq<Mask>)
    requires ms == us + [y] && Ascending(ms)
    ensures HasMask(ms, m) <==> HasMask(us, m) || y.pm_mask == m
    ensures HasMask(us, m) ==> y.pm_mask != m
  {
    if k: nat :| k < |us| && us[k].pm_mask == m {
      assert ms[k] == us[k] && ms[|us|] == y;
    }
    if y.pm_mask == m {
      assert ms[|us|].pm_mask == m;
    }
  }

  /** A mask can be removed if the entry has it, unless it is the only one of key 0. */
  lemma {:induction false} RemovableMeans(e: Entry, m: Word)
    requires e.mlen <= |e.masks|
    ensures Removable(e, m) <==> HasMask(Counted(e), m) && !(e.mlen == 1 && e.key == BitsOf(0))
  {
    MaskIndexMeans(e.masks, e.mlen, m);
    if e.mlen == 1 {
      assert Counted(e)[0] == e.masks[0];
    }
  }

  /** The entry goes with its last mask; otherwise it remains with the others. */
  lemma {:induction false} RemainsMeans(e: Entry, m: Word)
    requires 0 < e.mlen <= |e.masks| && HasMask(Counted(e), m) && Ascending(Counted(e))
    ensures e.mlen == 1 ==> Remains(e, m) == {}
    ensures e.mlen > 1 ==> exists r :: Remains(e, m) == {r} && r.key == e.key && r.mlen == |r.masks| == e.mlen - 1
                                       && Ascending(r.masks)
                                       && forall x: Mask :: x in r.masks <==> x in Counted(e) && x.pm_mask != m
  {
    WithoutMaskMeans(Counted(e), m);
    WithoutOne(Counted(e), m);
    if e.mlen > 1 {
      var r := Entry(e.key, WithoutMask(Counted(e), m), e.mlen - 1);
      assert Remains(e, m) == {r};
    }
  }

  // ---------- Inserting below a link ----------

  /** n branches at bit d: its own key on one side, what was here on the other. */
  method PutAbove(h: PNode, n: PNode, d: nat, ghost t: Trie, ghost e: Entry)
    requires Rep(t, h) && BitsOk(t) && d < 32 && e.key == BitsOf(n.p_key) && n !in Inner(t)
    modifies n`p_b, n`p_left, n`p_right
    ensures Rep(if Bit(d, e.key) then Down(n, d, t, Up(n, e)) else Down(n, d, Up(n, e), t), n)
  {
    n.p_b := d;
    n.p_left := if IsSet(d, n.p_key) then h else n;
    n.p_right := if IsSet(d, n.p_key) then n else h;
  }

  /** The node goes in below the first node of t that branches no earlier than d, or above an up-link. */
  method InsertR(h: PNode, n: PNode, d: nat, p: PNode, ghost t: Trie, ghost e: Entry) returns (r: PNode)
    requires At(t, h, p.p_b) && BitsOk(t) && d < 32 && e.key == BitsOf(n.p_key)
    requires n !in Inner(t) && n != Foreign(t)
    modifies Inner(t)`p_left, Inner(t)`p_right, n`p_b, n`p_left, n`p_right
    ensures Rep(Insert(t, n, e, d), r)
    decreases t, 1
  {
    Descend(t, h, p.p_b);
    OwnLeavesDistinct(t);
    if h.p_b >= d || h.p_b <= p.p_b {
      PutAbove(h, n, d, t, e);
      return n;
    }
    if IsSet(h.p_b, n.p_key) {
      InsertRight(h, n, d, t, e);
    } else {
      InsertLeft(h, n, d, t, e);
    }
    return h;
  }

  method InsertRight(h: PNode, n: PNode, d: nat, ghost t: Trie, ghost e: Entry)
    requires t.Down? && Rep(t, h) && At(t.r, h.p_right, h.p_b) && Distinct(t) && BitsOk(t)
    requires e.key == BitsOf(n.p_key) && t.b < d < 32 && Bit(t.b, e.key)
    requires n !in Inner(t) && n != Foreign(t.r)
    modifies Inner(t)`p_left, Inner(t)`p_right, n`p_b, n`p_left, n`p_right
    ensures Rep(Insert(t, n, e, d), h)
    decreases t, 0
  {
    InsertEntries(t.r, n, e, d);
    assert allocated(Inner(t.l)) && Inner(t.l) !! Inner(t.r) + {n} && h !in Inner(Insert(t.r, n, e, d));
    h.p_right := InsertR(h.p_right, n, d, h, t.r, e);
    assert Rep(t.l, h.p_left) && Rep(Insert(t.r, n, e, d), h.p_right);
  }

  method InsertLeft(h: PNode, n: PNode, d: nat, ghost t: Trie, ghost e: Entry)
    requires t.Down? && Rep(t, h) && At(t.l, h.p_left, h.p_b) && Distinct(t) && BitsOk(t)
    requires e.key == BitsOf(n.p_key) && t.b < d < 32 && !Bit(t.b, e.key)
    requires n !in Inner(t) && n != Foreign(t.l)
    modifies Inner(t)`p_left, Inner(t)`p_right, n`p_b, n`p_left, n`p_right
    ensures Rep(Insert(t, n, e, d), h)
    decreases t, 0
  {
    InsertEntries(t.l, n, e, d);
    assert allocated(Inner(t.r)) && Inner(t.r) !! Inner(t.l) + {n} && h !in Inner(Insert(t.l, n, e, d));
    h.p_left := InsertR(h.p_left, n, d, h, t.l, e);
    assert Rep(t.r, h.p_right) && Rep(Insert(t.l, n, e, d), h.p_left);
  }

  // ---------- What a trie stores ----------

  /** The head's entry: the default mask, a host mask for the same key, or both. */
  predicate IsDefault(e: Entry) {
    && e.key == BitsOf(0) && 1 <= e.mlen <= 2 && |e.masks| == e.mlen
    && (e.masks[0].pm_mask == 0 || (e.mlen == 1 && e.masks[0].pm_mask == HOST))
    && (e.mlen == 2 ==> e.masks[1].pm_mask == HOST)
  }

  predicate IsHost(e: Entry) {
    |e.masks| == 1 && e.mlen <= 1 && e.masks[0].pm_mask == HOST
  }

  ghost predicate LinkOk(x: Link, head: PNode, v: bool)
    reads x.n`p_key, x.n`p_m, x.n`p_mlen
  {
    Holds(x) && if x.n == head then IsDefault(x.e) else IsHost(x.e) && Bit(0, x.e.key) == v
  }

  /** The well-formed trie t hangs off the head on side v. */
  ghost predicate Side(t: Trie, q: PNode?, head: PNode, v: bool)
    reads Inner(t), head
  {
    && Foreign(t) == head && head.p_b == 0 && head !in Inner(t) && At(t, q, 0) && Branches(t, 0)
    && (forall x :: x in Leaves(t) ==> x.n in Inner(t) + {head}) && Linked(t, head, v)
  }

  lemma {:induction false} SideBits(t: Trie, q: PNode?, head: PNode, v: bool)
    requires Side(t, q, head, v)
    ensures BitsOk(t)
  {
    BranchesBitsOk(t, 0);
  }

  /** Both sides end at the head with what the head holds. */
  lemma {:induction false} SideDefault(t: Trie, q: PNode?, head: PNode, v: bool) returns (e: Entry)
    requires Side(t, q, head, v)
    ensures e == Entry(BitsOf(head.p_key), head.p_m, head.p_mlen) && Link(head, e) in Leaves(t) && IsDefault(e)
    ensures e in Entries(t)
  {
    LinkedLinks(t, head, v);
    e := ForeignLink(t);
    LeafEntries(t, head, e);
  }

  /** A branching node of a side holds an entry of that side. */
  lemma {:induction false} SideNode(t: Trie, q: PNode?, head: PNode, v: bool, n: PNode) returns (e: Entry)
    requires Side(t, q, head, v) && n in Inner(t)
    ensures e == Entry(BitsOf(n.p_key), n.p_m, n.p_mlen) && Link(n, e) in Leaves(t) && IsHost(e) && e in Entries(t)
    ensures BitsOk(t) && Find(t, e.key) == Link(n, e)
  {
    LinkedLinks(t, head, v);
    e := OwnLink(t, n);
    LeafEntries(t, n, e);
    SideBits(t, q, head, v);
    FindPresent(t, 0, n, e);
  }

  /** The trie u of one side, apart from its layout. */
  ghost predicate Formed(u: Trie, head: PNode) {
    OwnLeaves(u) && Branches(u, 0) && Foreign(u) == head && head !in Inner(u)
  }

  ghost function LinkNodes(t: Trie): (s: set<PNode>) {
    set x | x in Leaves(t) :: x.n
  }

  /** The up-links of one side of the head that lead out of it or carry something else than their node holds. */
  ghost function Faults(t: Trie, head: PNode, v: bool): (s: set<Link>)
    reads LinkNodes(t)`p_key, LinkNodes(t)`p_m, LinkNodes(t)`p_mlen
  {
    set x | x in Leaves(t) && !(x.n in Inner(t) + {head} && LinkOk(x, head, v))
  }

  ghost predicate Linked(t: Trie, head: PNode, v: bool)
    reads LinkNodes(t)`p_key, LinkNodes(t)`p_m, LinkNodes(t)`p_mlen
  {
    Faults(t, head, v) == {}
  }

  lemma {:induction false} LinkedLinks(t: Trie, head: PNode, v: bool)
    requires Linked(t, head, v)
    ensures forall x :: x in Leaves(t) ==> x.n in Inner(t) + {head} && LinkOk(x, head, v)
  {
    forall x | x in Leaves(t)
      ensures x.n in Inner(t) + {head} && LinkOk(x, head, v)
    {
      assert x !in Faults(t, head, v);
    }
  }

  /** A side whose links are laid out and whose nodes hold what they should. */
  lemma {:induction false} SideAgain(u: Trie, q: PNode?, head: PNode, v: bool)
    requires Formed(u, head) && Rep(u, q) && head.p_b == 0 && Linked(u, head, v)
    ensures Side(u, q, head, v)
  {
    BranchesRising(u, 0);
    LinkedLinks(u, head, v);
  }

  /** What the links of one side carry, except those of n, which carry e. */
  ghost predicate LinksBut(t: Trie, head: PNode, v: bool, n: PNode, e: Entry)
    reads (LinkNodes(t) - {n})`p_key, (LinkNodes(t) - {n})`p_m, (LinkNodes(t) - {n})`p_mlen
  {
    forall x :: x in Leaves(t) ==>
      && x.n in Inner(t) + {head}
      && (x.n == n ==> x.e == e && (n == head || Bit(0, e.key) == v))
      && (x.n != n ==> LinkOk(x, head, v))
  }

  /** The links after one node holds e' instead of e. */
  lemma {:induction false} LinksRefilled(t: Trie, u: Trie, head: PNode, v: bool, n: PNode, e: Entry, e': Entry)
    requires Leaves(u) == if Link(n, e) in Leaves(t) then Leaves(t) - {Link(n, e)} + {Link(n, e')} else Leaves(t)
    requires HeldBy(t, n, e) && e'.key == e.key && Inner(u) == Inner(t)
    requires Linked(t, head, v)
    ensures LinksBut(u, head, v, n, e')
  {
    LinkedLinks(t, head, v);
    forall x | x in Leaves(u)
      ensures x.n in Inner(t) + {head} && (x.n == n ==> x.e == e' && (n == head || Bit(0, e'.key) == v))
      ensures x.n != n ==> LinkOk(x, head, v)
    {
      if x in Leaves(t) {
        assert x.n != n || x == Link(n, e);
      } else {
        assert LinkOk(Link(n, e), head, v);
      }
    }
  }

  lemma {:induction false} LinksAgain(t: Trie, head: PNode, v: bool, n: PNode, e: Entry)
    requires LinksBut(t, head, v, n, e) && Holds(Link(n, e)) && if n == head then IsDefault(e) else IsHost(e)
    ensures Linked(t, head, v)
  {
  }

  method SetMasks(head: PNode, n: PNode, masks: seq<Mask>, mlen: nat, ghost e: Entry, ghost l: Trie, ghost r: Trie)
    requires LinksBut(l, head, false, n, e) && LinksBut(r, head, true, n, e)
    requires e == Entry(BitsOf(n.p_key), masks, mlen) && if n == head then IsDefault(e) else IsHost(e)
    modifies n`p_m, n`p_mlen
    ensures n.p_m == masks && n.p_mlen == mlen && Linked(l, head, false) && Linked(r, head, true)
  {
    n.p_m, n.p_mlen := masks, mlen;
    LinksAgain(l, head, false, n, e);
    LinksAgain(r, head, true, n, e);
  }

  /** Adding 0xffffffff keeps the default entry a default entry and a host entry a host entry. */
  lemma {:induction false} AddKeepsKind(e: Entry, m: Mask)
    requires m.pm_mask == HOST && (IsDefault(e) || IsHost(e))
    ensures IsDefault(e) ==> IsDefault(AddMask(e, m))
    ensures IsHost(e) ==> IsHost(AddMask(e, m)) && AddMask(e, m).mlen == 1 && AddMask(e, m).masks == [m]
    ensures AddMask(e, m).key == e.key
  {
    if e.mlen == 1 {
      assert e.masks[..1] == e.masks;
      assert Merged(e.masks, 1, m) == [m];
    } else if e.mlen == 0 {
      assert e.masks[..0] == [];
    }
  }

  /** Into the side of the head that the key belongs to; what nodes hold stays. */
  method InsertBelow(head: PNode, n: PNode, d: nat, ghost t: Trie, ghost e: Entry, ghost x: Trie, ghost y: Trie)
    requires t.Down? && t.b == 0 && Rep(t, head) && At(t.l, head.p_left, 0) && At(t.r, head.p_right, 0) && Distinct(t)
    requires BitsOk(t) && e.key == BitsOf(n.p_key) && 1 <= d < 32
    requires n !in Inner(t) && n != Foreign(t.l) && n != Foreign(t.r)
    modifies Inner(t)`p_left, Inner(t)`p_right, n`p_b, n`p_left, n`p_right
    ensures Rep(Insert(t, n, e, d), head)
    ensures Faults(x, head, false) == old(Faults(x, head, false)) && Faults(y, head, true) == old(Faults(y, head, true))
  {
    assert allocated(LinkNodes(x)) && allocated(LinkNodes(y));
    if IsSet(head.p_b, n.p_key) {
      InsertRight(head, n, d, t, e);
    } else {
      InsertLeft(head, n, d, t, e);
    }
  }

  /** The first bit from 1 on at which two words differ, or 32. */
  method FirstBit(a: Word, b: Word) returns (i: nat)
    ensures 1 <= i <= 32 && KeysAgree(BitsOf(a), BitsOf(b), i)
    ensures i < 32 ==> Bit(i, BitsOf(a)) != Bit(i, BitsOf(b))
  {
    i := 1;
    while i < 32 && IsSet(i, a) == IsSet(i, b)
      invariant 1 <= i <= 32 && KeysAgree(BitsOf(a), BitsOf(b), i)
    {
      i := i + 1;
    }
  }

  /** A side after a new node has gone in. */
  lemma {:induction false} InsertedSide(t: Trie, q: PNode?, head: PNode, v: bool, n: PNode, e: Entry, d: nat)
    requires Side(t, q, head, v) && n !in Inner(t) + {head} && BitsOk(t) && FirstDifference(t, e.key, d)
    ensures var u := Insert(t, n, e, d);
            && Formed(u, head) && Inner(u) == Inner(t) + {n}
            && Entries(u) == Entries(t) + {e} && (LinkOk(Link(n, e), head, v) ==> Linked(u, head, v))
  {
    LinkedLinks(t, head, v);
    InsertEntries(t, n, e, d);
    InsertOwnLeaves(t, n, e, d);
    InsertBranches(t, 0, n, e, d);
  }

  /** The node whose link leads back up to p, on the way of a search for what p holds. */
  method LinkInto(p: PNode, ghost d: Trie, ghost lo: nat) returns (pp: PNode)
    requires At(d, p, lo) && BitsOk(d) && d.Down?
    ensures pp == LastDown(d, BitsOf(p.p_key)).n
  {
    ghost var k := BitsOf(p.p_key);
    Descend(d, p, lo);
    var i: nat := p.p_b;
    pp := p;
    var pt: PNode? := if IsSet(p.p_b, p.p_key) then p.p_right else p.p_left;
    ghost var (c, cur) := (d, Toward(d, k));
    Descend(cur, pt, i);
    while i < pt.p_b
      invariant pt != null && At(cur, pt, i) && BitsOk(cur) && (cur.Down? <==> i < pt.p_b)
      invariant c.Down? && BitsOk(c) && pp == c.n && Toward(c, k) == cur && LastDown(d, k) == LastDown(c, k)
      decreases cur
    {
      Descend(cur, pt, i);
      i := pt.p_b;
      pp := pt;
      pt := if IsSet(pt.p_b, p.p_key) then pt.p_right else pt.p_left;
      c, cur := cur, Toward(cur, k);
      Descend(cur, pt, i);
    }
  }

  /** One side after the removal of ek, before the node x takes over what p holds. */
  lemma {:induction false} RemovedSide(t: Trie, q: PNode?, head: PNode, v: bool, p: PNode, x: PNode, ek: Entry,
                                       ep: Entry, u: Trie)
    requires Side(t, q, head, v) && x != head && p != head && Link(p, ep) in Leaves(t) && Link(x, ek) in Leaves(t)
    requires Removed(t, u, 0, p, x, ek, ep) && (x == p ==> ek == ep)
    ensures Formed(u, head) && LinksBut(u, head, v, x, ep)
  {
    LinkedLinks(t, head, v);
    forall y | y in Leaves(u)
      ensures y.n in Inner(u) + {head}
      ensures y.n == x ==> y.e == ep && Bit(0, y.e.key) == v
      ensures y.n != x ==> LinkOk(y, head, v)
    {
      assert y in Leaves(t) || y == Link(x, ep);
    }
  }

  lemma {:induction false} OtherSide(t: Trie, q: PNode?, head: PNode, v: bool, x: PNode, e: Entry)
    requires Side(t, q, head, v) && x !in Inner(t) + {head}
    ensures Formed(t, head) && LinksBut(t, head, v, x, e)
  {
    LinkedLinks(t, head, v);
  }

  lemma {:induction false} AddOne<T>(s: set<T>, a: set<T>, b: set<T>, c: set<T>, z: T)
    requires s == a + b && c == b + {z}
    ensures s + {z} == a + c
  {
  }

  lemma {:induction false} TakeOne<T>(s: set<T>, a: set<T>, b: set<T>, c: set<T>, z: T)
    requires s == a + b && c == b - {z} && z !in a
    ensures s - {z} == a + c
  {
  }

  /** x takes over what p holds. */
  method CopyEntry(head: PNode, x: PNode, p: PNode, ghost e: Entry, ghost l: Trie, ghost r: Trie)
    requires LinksBut(l, head, false, x, e) && LinksBut(r, head, true, x, e)
    requires e == Entry(BitsOf(p.p_key), p.p_m, p.p_mlen) && IsHost(e) && x != head
    modifies x`p_key, x`p_m, x`p_mlen
    ensures Linked(l, head, false) && Linked(r, head, true)
  {
    if x != p {
      x.p_key := p.p_key;
      x.p_m := p.p_m;
      x.p_mlen := p.p_mlen;
    }
    LinksAgain(l, head, false, x, e);
    LinksAgain(r, head, true, x, e);
  }

  method Rewire(head: PNode, g: PNode, p: PNode, pp: PNode, x: PNode, key: Word,
                ghost e: Entry, ghost t: Trie, ghost s: set<PNode>, ghost u: Trie)
    requires Rep(t, head) && Distinct(t) && BitsOk(t) && Inner(t) <= s && t.Down? && Toward(t, BitsOf(key)).Down?
    requires g == Grand(t, BitsOf(key)).n && p == LastDown(t, BitsOf(key)).n && pp == LastDown(t, BitsOf(p.p_key)).n
    requires u == Splice(Relabel(t, BitsOf(p.p_key), x), BitsOf(key)) && u.Down?
    requires LinksBut(u.l, head, false, x, e) && LinksBut(u.r, head, true, x, e)
    requires e == Entry(BitsOf(p.p_key), p.p_m, p.p_mlen) && IsHost(e) && x != head
    modifies s`p_left, s`p_right, x`p_key, x`p_m, x`p_mlen
    ensures Rep(u, head) && Linked(u.l, head, false) && Linked(u.r, head, true)
  {
    assert allocated(Inner(u)) && allocated(LinkNodes(u.l)) && allocated(LinkNodes(u.r));
    Relink(head, g, p, pp, x, key, t, s);
    CopyEntry(head, x, p, e, u.l, u.r);
  }

  predicate HasKey(s: set<Entry>, k: Key) {
    exists e :: e in s && e.key == k
  }

  /** The keys of s' are those of s and ks. */
  ghost predicate KeysAdded(s: set<Entry>, s': set<Entry>, ks: seq<Word>) {
    forall k: Word :: HasKey(s', BitsOf(k)) <==> HasKey(s, BitsOf(k)) || k in ks
  }

  /** What the driver stores for a key; it leaves the count of its masks at 0. */
  function DriverEntry(key: Word, data: int): (e: Entry) {
    Entry(BitsOf(key), [Mask(HOST, data)], 0)
  }

  function LoadedOne(s: set<Entry>, key: Word, data: int): (r: set<Entry>) {
    if HasKey(s, BitsOf(key)) then s else s + {DriverEntry(key, data)}
  }

  /** What is stored after the driver has gone through some keys. */
  function Loaded(s: set<Entry>, keys: seq<Word>, data: int): (r: set<Entry>) {
    if keys == [] then s
    else LoadedOne(Loaded(s, keys[..|keys| - 1], data), keys[|keys| - 1], data)
  }

  lemma {:induction false} LoadedOneKey(s: set<Entry>, key: Word, data: int)
    ensures KeysAdded(s, LoadedOne(s, key, data), [key])
  {
    forall k: Word
      ensures HasKey(LoadedOne(s, key, data), BitsOf(k)) <==> HasKey(s, BitsOf(k)) || k == key
    {
      if BitsOf(k) == BitsOf(key) {
        SameBits(k, key);
      }
      if e :| e in s && e.key == BitsOf(k) {
        assert e in LoadedOne(s, key, data);
      }
      assert BitsOf(k) == BitsOf(key) ==> DriverEntry(key, data).key == BitsOf(k);
    }
  }

  /** The keys loaded are stored, no others; what was there stays, and no new entry can be removed. */
  lemma {:induction false} LoadedEntries(s: set<Entry>, keys: seq<Word>, data: int)
    ensures KeysAdded(s, Loaded(s, keys, data), keys) && s <= Loaded(s, keys, data)
    ensures forall x :: x in Loaded(s, keys, data) && x !in s ==> x.mlen == 0 && x.masks == [Mask(0xffff_ffff, data)]
    ensures forall x, m :: x in Loaded(s, keys, data) && x !in s ==> !Removable(x, m)
  {
    if keys != [] {
      var (ks, key) := (keys[..|keys| - 1], keys[|keys| - 1]);
      LoadedEntries(s, ks, data);
      LoadedOneKey(Loaded(s, ks, data), key, data);
    }
  }

  class Ptree {
    const head: PNode
    ghost var left: Trie
    ghost var right: Trie
    ghost var nodes: set<PNode>

    ghost predicate Valid()
      reads this, nodes
    {
      && nodes == {head} + Inner(left) + Inner(right) && Inner(left) !! Inner(right)
      && Side(left, head.p_left, head, false) && Side(right, head.p_right, head, true)
    }

    ghost function Stored(): (s: set<Entry>)
      reads this
    {
      Entries(left) + Entries(right)
    }

    /** The side of the head that a search for k takes. */
    ghost function On(k: Key): (u: Trie)
      reads this
    {
      if Bit(0, k) then right else left
    }

    ghost predicate Has(k: Key)
      reads this
    {
      HasKey(Stored(), k)
    }

    /** A search for the key of an up-link ends there; the head's is reached on the left. */
    lemma {:induction false} LinkFound(x: Link)
      requires Valid() && x in Leaves(left) + Leaves(right)
      ensures BitsOk(On(x.e.key)) && Find(On(x.e.key), x.e.key) == x && Holds(x) && x.n in nodes
      ensures x.n in Inner(On(x.e.key)) + {head}
    {
      LinkedLinks(left, head, false);
      LinkedLinks(right, head, true);
      ZeroBits(0);
      SideBits(left, head.p_left, head, false);
      SideBits(right, head.p_right, head, true);
      var d := SideDefault(left, head.p_left, head, false);
      if Bit(0, x.e.key) {
        FindPresent(right, 0, x.n, x.e);
      } else {
        FindPresent(left, 0, x.n, x.e);
      }
    }

    lemma {:induction false} Located(e: Entry) returns (n: PNode)
      requires Valid() && e in Stored()
      ensures BitsOk(On(e.key)) && Find(On(e.key), e.key) == Link(n, e) && Holds(Link(n, e)) && n in nodes
    {
      if e in Entries(left) {
        n := EntryLink(left, e);
      } else {
        n := EntryLink(right, e);
      }
      LinkFound(Link(n, e));
    }

    lemma {:induction false} HeadHolds() returns (e: Entry)
      requires Valid()
      ensures e == Entry(BitsOf(head.p_key), head.p_m, head.p_mlen) && IsDefault(e) && e in Stored()
      ensures BitsOk(left) && BitsOk(right) && Link(head, e) in Leaves(left) && Link(head, e) in Leaves(right)
      ensures head.p_key == 0
    {
      SideBits(left, head.p_left, head, false);
      SideBits(right, head.p_right, head, true);
      e := SideDefault(left, head.p_left, head, false);
      var e' := SideDefault(right, head.p_right, head, true);
      SameBits(head.p_key, 0);
    }

    /** Every walk starts at the head, with the link on the side of k. */
    lemma {:induction false} WalkStart(k: Key)
      requires Valid()
      ensures head.p_b == 0 && head.p_key == 0 && |head.p_m| > 0
      ensures head.p_m[0].pm_mask == 0 || head.p_m[0].pm_mask == HOST
      ensures Entry(BitsOf(head.p_key), head.p_m, head.p_mlen) in Stored()
      ensures Walk(On(k), k, On(k), if Bit(0, k) then head.p_right else head.p_left, 0)
    {
      var d := HeadHolds();
    }

    lemma {:induction false} OnSide(k: Key) returns (q: PNode?)
      requires Valid()
      ensures q == (if Bit(0, k) then head.p_right else head.p_left) && Side(On(k), q, head, Bit(0, k))
    {
      q := if Bit(0, k) then head.p_right else head.p_left;
    }

    /** A search ends at the key if it is stored, and otherwise at another key. */
    lemma {:induction false} SearchEnds(k: Key)
      requires Valid()
      ensures BitsOk(On(k)) && Find(On(k), k).n in Inner(On(k)) + {head} && Holds(Find(On(k), k))
      ensures Has(k) <==> Find(On(k), k).e.key == k
    {
      var q := OnSide(k);
      LinkedLinks(On(k), head, Bit(0, k));
      SideBits(On(k), q, head, Bit(0, k));
      if e :| e in Stored() && e.key == k {
        var n := Located(e);
      }
    }

    /** A node that branches on a side is the end of the search for its own key, and its one mask is 0xffffffff. */
    lemma {:induction false} Visited(key: Word, n: PNode)
      requires Valid() && n in Inner(On(BitsOf(key)))
      ensures |n.p_m| > 0 && n.p_m[0].pm_mask == HOST
      ensures BitsOk(On(BitsOf(key))) && (n.p_key == key ==> Find(On(BitsOf(key)), BitsOf(key)).n == n)
    {
      var q := OnSide(BitsOf(key));
      var e := SideNode(On(BitsOf(key)), q, head, Bit(0, BitsOf(key)), n);
    }

    /** What the end of a search says about the key. */
    lemma {:induction false} Ended(key: Word, n: PNode)
      requires Valid() && BitsOk(On(BitsOf(key))) && n == Find(On(BitsOf(key)), BitsOf(key)).n
      ensures |n.p_m| > 0 && (n.p_m[0].pm_mask == HOST || (n == head && n.p_m[0].pm_mask == 0))
      ensures Has(BitsOf(key)) <==> n.p_key == key
      ensures n in nodes && Entry(BitsOf(n.p_key), n.p_m, n.p_mlen) in Stored()
    {
      SearchEnds(BitsOf(key));
      if BitsOf(n.p_key) == BitsOf(key) {
        SameBits(n.p_key, key);
      }
      var d := HeadHolds();
      if n != head {
        Visited(key, n);
      }
    }

    constructor (data: int)
      ensures Valid() && fresh(nodes)
      ensures Stored() == {DefaultEntry(data)} && Defaulted()
    {
      var h := new PNode(0, [Mask(0, data)], 1);
      h.p_left, h.p_right := h, h;
      head := h;
      var e := Entry(BitsOf(0), [Mask(0, data)], 1);
      left, right, nodes := Up(h, e), Up(h, e), {h};
    }

    /** The head still has its default mask, which matches every key. */
    ghost predicate Defaulted()
      reads head
    {
      |head.p_m| > 0 && head.p_m[0].pm_mask == 0
    }

    /**
     The node that holds the key.  When the key is not stored, the head if it still has its default mask, and nothing
     if it has not.
     */
    method PatSearch(key: Word) returns (r: PNode?)
      requires Valid()
      ensures Has(BitsOf(key)) ==> r != null && r.p_key == key
      ensures !Has(BitsOf(key)) ==> r == if Defaulted() then head else null
      ensures r != null ==> r in nodes && Entry(BitsOf(r.p_key), r.p_m, r.p_mlen) in Stored()
    {
      ghost var k := BitsOf(key);
      ghost var side := On(k);
      ghost var cur := side;
      WalkStart(k);
      MaskBits(key);
      var p: PNode? := null;
      var t: PNode? := head;
      if t.p_key == And(key, t.p_m[0].pm_mask) {
        p := t;
      }
      var i: nat := t.p_b;
      t := if IsSet(t.p_b, key) then t.p_right else t.p_left;
      WalkOn(side, k, cur, t, i);
      while i < t.p_b
        invariant t != null && Walk(side, k, cur, t, i)
        invariant p == null || p == head || (p.p_key == key && p == Find(side, k).n)
        invariant p == head ==> Defaulted() || key == 0
        invariant p == null ==> !Defaulted()
        decreases cur
      {
        WalkOn(side, k, cur, t, i);
        Visited(key, t);
        if t.p_key == And(key, t.p_m[0].pm_mask) {
          p := t;
        }
        i := t.p_b;
        t := if IsSet(t.p_b, key) then t.p_right else t.p_left;
        cur := Toward(cur, k);
        WalkOn(side, k, cur, t, i);
      }
      WalkOn(side, k, cur, t, i);
      Ended(key, t);
      return if t.p_key == And(key, t.p_m[0].pm_mask) then t else p;
    }

    /** In both sides, exactly the up-links of n carry what it holds. */
    lemma {:induction false} HeldOnlyBy(n: PNode, e: Entry)
      requires Valid() && n in nodes && e == Entry(BitsOf(n.p_key), n.p_m, n.p_mlen)
      ensures HeldBy(left, n, e) && HeldBy(right, n, e) && e in Stored()
      ensures if n == head then IsDefault(e) else IsHost(e)
      ensures n == head ==> Link(n, e) in Leaves(left) && Link(n, e) in Leaves(right)
      ensures n in Inner(left) ==> Link(n, e) in Leaves(left) && Link(n, e) !in Leaves(right)
      ensures n in Inner(right) ==> Link(n, e) in Leaves(right) && Link(n, e) !in Leaves(left)
    {
      var d := HeadHolds();
      if n in Inner(left) {
        var x := SideNode(left, head.p_left, head, false, n);
      } else if n in Inner(right) {
        var x := SideNode(right, head.p_right, head, true, n);
      }
      LinkFound(Link(n, e));
      forall x | x in Leaves(left) + Leaves(right)
        ensures x.n == n <==> x.e == e
      {
        LinkFound(x);
      }
    }

    /** A node's masks change: of what is stored, only its entry does. */
    method ReplaceMasks(n: PNode, masks: seq<Mask>, mlen: nat, ghost e: Entry, ghost e': Entry)
      requires Valid() && n in nodes && e == Entry(BitsOf(n.p_key), n.p_m, n.p_mlen) && e' == Entry(e.key, masks, mlen)
      requires if n == head then IsDefault(e') else IsHost(e')
      modifies `left, `right, n`p_m, n`p_mlen
      ensures Valid() && Stored() == old(Stored()) - {e} + {e'}
    {
      ghost var (l, r) := (Refill(left, n, e'), Refill(right, n, e'));
      RefillBoth(n, e, e', l, r);
      WriteMasks(n, masks, mlen, e', l, r);
    }

    method WriteMasks(n: PNode, masks: seq<Mask>, mlen: nat, ghost e: Entry, ghost l: Trie, ghost r: Trie)
      requires nodes == {head} + Inner(l) + Inner(r) && Inner(l) !! Inner(r) && head.p_b == 0
      requires Formed(l, head) && Formed(r, head) && Rep(l, head.p_left) && Rep(r, head.p_right)
      requires LinksBut(l, head, false, n, e) && LinksBut(r, head, true, n, e)
      requires e == Entry(BitsOf(n.p_key), masks, mlen) && if n == head then IsDefault(e) else IsHost(e)
      modifies `left, `right, n`p_m, n`p_mlen
      ensures Valid() && left == l && right == r
    {
      left, right := l, r;
      SetMasks(head, n, masks, mlen, e, l, r);
      SidesAgain();
    }

    lemma {:induction false} SidesAgain()
      requires nodes == {head} + Inner(left) + Inner(right) && Inner(left) !! Inner(right) && head.p_b == 0
      requires Formed(left, head) && Formed(right, head) && Rep(left, head.p_left) && Rep(right, head.p_right)
      requires Linked(left, head, false) && Linked(right, head, true)
      ensures Valid()
    {
      SideAgain(left, head.p_left, head, false);
      SideAgain(right, head.p_right, head, true);
    }

    /** Of the entries of two sides, those of n are replaced. */
    lemma {:induction false} StoredAgain(l: Trie, r: Trie, n: PNode, e: Entry, e': Entry)
      requires e in Stored()
      requires Entries(l) == if e in Entries(left) then Entries(left) - {e} + {e'} else Entries(left)
      requires Entries(r) == if e in Entries(right) then Entries(right) - {e} + {e'} else Entries(right)
      ensures Entries(l) + Entries(r) == Stored() - {e} + {e'}
    {
    }

    lemma {:induction false} RefillBoth(n: PNode, e: Entry, e': Entry, l: Trie, r: Trie)
      requires Valid() && n in nodes && e == Entry(BitsOf(n.p_key), n.p_m, n.p_mlen) && e'.key == e.key
      requires l == Refill(left, n, e') && r == Refill(right, n, e')
      requires if n == head then IsDefault(e') else IsHost(e')
      ensures Formed(l, head) && Formed(r, head) && Rep(l, head.p_left) && Rep(r, head.p_right)
      ensures Inner(l) == Inner(left) && Inner(r) == Inner(right)
      ensures LinksBut(l, head, false, n, e') && LinksBut(r, head, true, n, e')
      ensures Entries(l) + Entries(r) == Stored() - {e} + {e'}
    {
      HeldOnlyBy(n, e);
      RefillSide(left, l, head.p_left, false, n, e, e');
      RefillSide(right, r, head.p_right, true, n, e, e');
      StoredAgain(l, r, n, e, e');
    }

    lemma {:induction false} RefillSide(t: Trie, u: Trie, q: PNode?, v: bool, n: PNode, e: Entry, e': Entry)
      requires Valid() && Side(t, q, head, v)
      requires HeldBy(t, n, e) && e'.key == e.key && u == Refill(t, n, e')
      ensures Formed(u, head) && Rep(u, q) && Inner(u) == Inner(t)
      ensures Leaves(u) == if Link(n, e) in Leaves(t) then Leaves(t) - {Link(n, e)} + {Link(n, e')} else Leaves(t)
      ensures Entries(u) == if Link(n, e) in Leaves(t) then Entries(t) - {e} + {e'} else Entries(t)
      ensures e in Entries(t) <==> Link(n, e) in Leaves(t)
      ensures LinksBut(u, head, v, n, e')
    {
      RefillSets(t, n, e, e');
      LinksRefilled(t, u, head, v, n, e, e');
      RefillOwnLeaves(t, n, e, e');
      RefillBranches(t, 0, n, e, e');
      RefillRep(t, q, n, e');
      HeldOnce(t, n, e);
    }

    /** A new key differs from the one the search found in a bit from 1 on. */
    lemma {:induction false} Differs(key: Word, i: nat)
      requires Valid() && BitsOk(On(BitsOf(key))) && !Has(BitsOf(key)) && key != HIGH && 1 <= i <= 32
      requires KeysAgree(BitsOf(key), Find(On(BitsOf(key)), BitsOf(key)).e.key, i)
      requires i < 32 ==> Bit(i, BitsOf(key)) != Bit(i, Find(On(BitsOf(key)), BitsOf(key)).e.key)
      ensures FirstDifference(On(BitsOf(key)), BitsOf(key), i)
    {
      var k := BitsOf(key);
      var x := Find(On(k), k);
      SearchEnds(k);
      var q := OnSide(k);
      LinkedLinks(On(k), head, Bit(0, k));
      if i == 32 {
        assert x.e.key != k;
        if x.n == head {
          forall j: nat | 1 <= j < 32
            ensures !Bit(j, k)
          {
            ZeroBits(j);
          }
          ZeroBits(0);
          assert Bit(0, k);
          OnlyHighBit(key);
        }
      }
    }

    /**
     The search for 0x80000000 always ends at the head, from which no bit from 1 to 31 tells it: this one key cannot
     be stored.
     */
    lemma {:induction false} HighIsLost()
      requires Valid()
      ensures !Has(BitsOf(HIGH)) && BitsOk(On(BitsOf(HIGH))) && Find(On(BitsOf(HIGH)), BitsOf(HIGH)).n == head
      ensures KeysAgree(BitsOf(HIGH), Find(On(BitsOf(HIGH)), BitsOf(HIGH)).e.key, 32)
    {
      var (k, z) := (BitsOf(HIGH), BitsOf(0));
      HighBits(0);
      ZeroBits(0);
      forall i: nat | 1 <= i < 32
        ensures Bit(i, k) == Bit(i, z)
      {
        HighBits(i);
        ZeroBits(i);
      }
      var d := HeadHolds();
      FindPresent(right, 0, head, d);
      SameWay(right, 0, k, z);
      SearchEnds(k);
    }

    /** The new node goes in at the first bit that differs. */
    method InsertNew(n: PNode, t: PNode, ghost e: Entry)
      requires Valid() && n !in nodes && n.p_key != HIGH && e == Entry(BitsOf(n.p_key), n.p_m, n.p_mlen) && IsHost(e)
      requires BitsOk(On(e.key)) && t == Find(On(e.key), e.key).n && !Has(e.key)
      modifies `left, `right, `nodes, nodes`p_left, nodes`p_right, n`p_b, n`p_left, n`p_right
      ensures Valid() && nodes == old(nodes) + {n} && Stored() == old(Stored()) + {e}
    {
      SearchEnds(e.key);
      var i := FirstBit(n.p_key, t.p_key);
      Differs(n.p_key, i);
      BothBits();
      ghost var u := Insert(Down(head, 0, left, right), n, e, i);
      InsertPlan(n, i, e, u);
      Hang(n, i, e, u);
    }

    lemma {:induction false} BothBits()
      requires Valid()
      ensures BitsOk(left) && BitsOk(right) && Distinct(Down(head, 0, left, right))
    {
      OwnLeavesDistinct(left);
      OwnLeavesDistinct(right);
      SideBits(left, head.p_left, head, false);
      SideBits(right, head.p_right, head, true);
    }

    lemma {:induction false} InsertPlan(n: PNode, i: nat, e: Entry, u: Trie)
      requires Valid() && n !in nodes && e == Entry(BitsOf(n.p_key), n.p_m, n.p_mlen) && IsHost(e)
      requires BitsOk(left) && BitsOk(right) && FirstDifference(On(e.key), e.key, i)
      requires u == Insert(Down(head, 0, left, right), n, e, i)
      ensures u.Down?
      ensures nodes + {n} == {head} + Inner(u.l) + Inner(u.r) && Inner(u.l) !! Inner(u.r)
      ensures Formed(u.l, head) && Formed(u.r, head) && Linked(u.l, head, false) && Linked(u.r, head, true)
      ensures Entries(u.l) + Entries(u.r) == Stored() + {e}
    {
      if Bit(0, e.key) {
        InsertedSide(right, head.p_right, head, true, n, e, i);
        AddOne(nodes, {head} + Inner(left), Inner(right), Inner(u.r), n);
        AddOne(Stored(), Entries(left), Entries(right), Entries(u.r), e);
      } else {
        InsertedSide(left, head.p_left, head, false, n, e, i);
        AddOne(nodes, {head} + Inner(right), Inner(left), Inner(u.l), n);
        AddOne(Stored(), Entries(right), Entries(left), Entries(u.l), e);
      }
    }

    method Hang(n: PNode, i: nat, ghost e: Entry, ghost u: Trie)
      requires 1 <= i < 32 && n !in nodes && head in nodes && Inner(left) <= nodes && Inner(right) <= nodes
      requires head.p_b == 0
      requires var t := Down(head, 0, left, right); Distinct(t) && BitsOk(t) && u == Insert(t, n, e, i)
      requires At(left, head.p_left, 0) && At(right, head.p_right, 0) && Foreign(left) == head && Foreign(right) == head
      requires e.key == BitsOf(n.p_key) && u.Down?
      requires nodes + {n} == {head} + Inner(u.l) + Inner(u.r) && Inner(u.l) !! Inner(u.r)
      requires Formed(u.l, head) && Formed(u.r, head) && Linked(u.l, head, false) && Linked(u.r, head, true)
      modifies `left, `right, `nodes, nodes`p_left, nodes`p_right, n`p_b, n`p_left, n`p_right
      ensures Valid() && nodes == old(nodes) + {n} && left == u.l && right == u.r
    {
      ghost var t := Down(head, 0, left, right);
      nodes, left, right := nodes + {n}, u.l, u.r;
      InsertBelow(head, n, i, t, e, u.l, u.r);
      SidesAgain();
    }

    /** The node at which the search for the key ends. */
    method Closest(key: Word) returns (t: PNode)
      requires Valid()
      ensures BitsOk(On(BitsOf(key))) && t == Find(On(BitsOf(key)), BitsOf(key)).n
    {
      ghost var k := BitsOf(key);
      ghost var side := On(k);
      ghost var cur := side;
      WalkStart(k);
      var i: nat := head.p_b;
      var q := if IsSet(head.p_b, key) then head.p_right else head.p_left;
      WalkOn(side, k, cur, q, i);
      while i < q.p_b
        invariant q != null && Walk(side, k, cur, q, i)
        decreases cur
      {
        WalkOn(side, k, cur, q, i);
        i := q.p_b;
        q := if IsSet(q.p_b, key) then q.p_right else q.p_left;
        cur := Toward(cur, k);
        WalkOn(side, k, cur, q, i);
      }
      WalkOn(side, k, cur, q, i);
      t := q;
    }

    /** The mask joins those of a node with the same key, or replaces the equal one. */
    method AddTo(t: PNode, m: Mask, ghost e: Entry)
      requires Valid() && t in nodes && e == Entry(BitsOf(t.p_key), t.p_m, t.p_mlen) && m.pm_mask == HOST
      modifies `left, `right, t`p_m, t`p_mlen
      ensures e.mlen <= |e.masks| && Valid() && Stored() == old(Stored()) - {e} + {AddMask(e, m)}
    {
      HeldOnlyBy(t, e);
      AddKeepsKind(e, m);
      var i := 0;
      while i < t.p_mlen
        invariant 0 <= i <= t.p_mlen && forall j: nat :: j < i ==> t.p_m[j].pm_mask != m.pm_mask
      {
        if m.pm_mask == t.p_m[i].pm_mask {
          ReplaceMasks(t, t.p_m[i := t.p_m[i].(pm_data := m.pm_data)], t.p_mlen, e, AddMask(e, m));
          return;
        }
        i := i + 1;
      }
      var buf := MergeMask(t.p_m[..t.p_mlen], m);
      ReplaceMasks(t, buf, t.p_mlen + 1, e, AddMask(e, m));
    }

    method PatInsert(n: PNode?) returns (t: PNode?)
      requires Valid()
      requires n != null ==> n !in nodes
      requires n != null && n.p_m != [] ==> IsHost(Entry(BitsOf(n.p_key), n.p_m, n.p_mlen)) && n.p_key != HIGH
      modifies `left, `right, `nodes, nodes
      modifies if n == null then {} else {n}
      ensures Valid() && (t == null <==> n == null || old(n.p_m) == [])
      ensures t == null ==> Stored() == old(Stored()) && nodes == old(nodes)
      ensures t != null && !old(Has(BitsOf(n.p_key))) ==>
                && t == n && nodes == old(nodes) + {n}
                && Stored() == old(Stored()) + {Entry(old(BitsOf(n.p_key)), old(n.p_m), old(n.p_mlen))}
      ensures t != null && old(Has(BitsOf(n.p_key))) ==>
                && t in nodes && nodes == old(nodes) && t.p_key == old(n.p_key)
                && var e := Entry(old(BitsOf(n.p_key)), old(t.p_m), old(t.p_mlen));
                   && e in old(Stored()) && e.mlen <= |e.masks|
                   && Stored() == old(Stored()) - {e} + {AddMask(e, old(n.p_m[0]))}
    {
      if n == null || n.p_m == [] {
        return null;
      }
      MaskBits(n.p_key);
      n.p_key := And(n.p_key, n.p_m[0].pm_mask);
      t := Closest(n.p_key);
      Ended(n.p_key, t);
      if n.p_key == t.p_key {
        AddTo(t, n.p_m[0], Entry(BitsOf(t.p_key), t.p_m, t.p_mlen));
        return t;
      }
      InsertNew(n, t, Entry(BitsOf(n.p_key), n.p_m, n.p_mlen));
      return n;
    }

    // ---------- Removing ----------

    ghost function Root(): (u: Trie)
      reads this
    {
      Down(head, 0, left, right)
    }

    /** The node the search for the key ends at, its parent and its grandparent. */
    method WithParents(key: Word) returns (g: PNode, p: PNode, t: PNode, ghost lo: nat)
      requires Valid()
      ensures BitsOk(Root()) && t == Find(On(BitsOf(key)), BitsOf(key)).n
      ensures var (side, k) := (On(BitsOf(key)), BitsOf(key));
              side.Down? ==> && p == LastDown(side, k).n && Walk(side, k, LastDown(side, k), p, lo)
                             && g == Grand(Root(), k).n
    {
      BothBits();
      ghost var k := BitsOf(key);
      ghost var side := On(k);
      ghost var (cg, cp, cur) := (Root(), Root(), side);
      WalkStart(k);
      g, p, lo := head, head, 0;
      var i: nat := head.p_b;
      var q: PNode? := if IsSet(head.p_b, key) then head.p_right else head.p_left;
      WalkOn(side, k, cur, q, i);
      while i < q.p_b
        invariant q != null && Walk(side, k, cur, q, i) && (cur.Down? <==> i < q.p_b)
        invariant cp.Down? && BitsOk(cp) && p == cp.n && Toward(cp, k) == cur && LastDown(Root(), k) == LastDown(cp, k)
        invariant cp != Root() ==>
                    && cg.Down? && BitsOk(cg) && g == cg.n && Toward(cg, k) == cp && Walk(side, k, cp, p, lo)
                    && Grand(Root(), k) == Grand(cg, k)
        invariant cp == Root() ==> cur == side
        decreases cur
      {
        WalkOn(side, k, cur, q, i);
        i, lo := q.p_b, i;
        g := p;
        p := q;
        q := if IsSet(q.p_b, key) then q.p_right else q.p_left;
        cg, cp, cur := cp, cur, Toward(cur, k);
        WalkOn(side, k, cur, q, i);
      }
      t := q;
    }

    /** What the trie becomes when the key is taken out: p goes, and x takes over what p holds. */
    lemma {:induction false} RemovePlan(p: PNode, x: PNode, ek: Entry, ep: Entry, u: Trie)
      requires Valid() && BitsOk(Root()) && On(ek.key).Down? && x != head
      requires Find(On(ek.key), ek.key) == Link(x, ek) && p == LastDown(On(ek.key), ek.key).n
      requires ep == Entry(BitsOf(p.p_key), p.p_m, p.p_mlen) && u == Splice(Relabel(Root(), ep.key, x), ek.key)
      ensures LastDown(Root(), ep.key) == LastDown(LastDown(On(ek.key), ek.key), ep.key)
      ensures u.Down? && Formed(u.l, head) && Formed(u.r, head) && IsHost(ep)
      ensures LinksBut(u.l, head, false, x, ep) && LinksBut(u.r, head, true, x, ep)
      ensures nodes - {p} == {head} + Inner(u.l) + Inner(u.r) && Inner(u.l) !! Inner(u.r)
      ensures Entries(u.l) + Entries(u.r) == Stored() - {ek}
    {
      RemoveFromSide(p, x, ek, ep);
      HeldOnlyBy(x, ek);
      if Bit(0, ek.key) {
        OtherSide(left, head.p_left, head, false, x, ep);
        HeldOnce(left, x, ek);
        TakeOne(nodes, {head} + Inner(left), Inner(right), Inner(u.r), p);
        TakeOne(Stored(), Entries(left), Entries(right), Entries(u.r), ek);
      } else {
        OtherSide(right, head.p_right, head, true, x, ep);
        HeldOnce(right, x, ek);
        TakeOne(nodes, {head} + Inner(right), Inner(left), Inner(u.l), p);
        TakeOne(Stored(), Entries(right), Entries(left), Entries(u.l), ek);
      }
    }

    lemma {:induction false} RemoveFromSide(p: PNode, x: PNode, ek: Entry, ep: Entry)
      requires Valid() && BitsOk(Root()) && On(ek.key).Down? && x != head
      requires Find(On(ek.key), ek.key) == Link(x, ek) && p == LastDown(On(ek.key), ek.key).n
      requires ep == Entry(BitsOf(p.p_key), p.p_m, p.p_mlen)
      ensures LastDown(On(ek.key), ep.key) == LastDown(LastDown(On(ek.key), ek.key), ep.key)
      ensures p in Inner(On(ek.key)) && x in Inner(On(ek.key)) && IsHost(ep) && Bit(0, ep.key) == Bit(0, ek.key)
      ensures var u := Remove(On(ek.key), ek.key, ep.key);
              && Formed(u, head) && LinksBut(u, head, Bit(0, ek.key), x, ep)
              && Inner(u) == Inner(On(ek.key)) - {p} && Entries(u) == Entries(On(ek.key)) - {ek}
      ensures Holds(Link(x, ek)) && x in nodes
    {
      var (k, v) := (ek.key, Bit(0, ek.key));
      var side := On(k);
      var q := OnSide(k);
      LastDownInner(side, k);
      var e' := SideNode(side, q, head, v, p);
      LinkedLinks(side, head, v);
      LinkFound(Link(x, ek));
      PathThrough(side, 0, k, p, ep);
      RemoveKeeps(side, 0, k, p, x, ek, ep);
      RemovedSide(side, q, head, v, p, x, ek, ep, Remove(side, k, ep.key));
    }

    method Detach(key: Word, g: PNode, p: PNode, pp: PNode, t: PNode, ghost e: Entry, ghost u: Trie)
      requires Rep(Root(), head) && Distinct(Root()) && BitsOk(Root()) && Inner(Root()) <= nodes
      requires Toward(Root(), BitsOf(key)).Down? && g == Grand(Root(), BitsOf(key)).n
      requires p == LastDown(Root(), BitsOf(key)).n && pp == LastDown(Root(), BitsOf(p.p_key)).n
      requires u == Splice(Relabel(Root(), BitsOf(p.p_key), t), BitsOf(key)) && u.Down? && t in nodes && t != head
      requires e == Entry(BitsOf(p.p_key), p.p_m, p.p_mlen) && IsHost(e) && u.n == head && head.p_b == 0
      requires nodes - {p} == {head} + Inner(u.l) + Inner(u.r) && Inner(u.l) !! Inner(u.r)
      requires Formed(u.l, head) && Formed(u.r, head)
      requires LinksBut(u.l, head, false, t, e) && LinksBut(u.r, head, true, t, e)
      modifies `left, `right, `nodes, nodes`p_left, nodes`p_right, t`p_key, t`p_m, t`p_mlen
      ensures Valid() && nodes == old(nodes) - {p} && left == u.l && right == u.r
    {
      ghost var (r, s) := (Root(), nodes);
      nodes, left, right := nodes - {p}, u.l, u.r;
      Rewire(head, g, p, pp, t, key, e, r, s, u);
      SidesAgain();
    }

    /** The node t that holds the key, not the head, gives it up. */
    method TakeOut(key: Word, g: PNode, p: PNode, t: PNode, ghost lo: nat, ghost ek: Entry)
      requires Valid() && BitsOk(Root()) && ek.key == BitsOf(key) && t != head && On(ek.key).Down?
      requires Find(On(ek.key), ek.key) == Link(t, ek) && p == LastDown(On(ek.key), ek.key).n
      requires Walk(On(ek.key), ek.key, LastDown(On(ek.key), ek.key), p, lo) && g == Grand(Root(), ek.key).n
      modifies `left, `right, `nodes, nodes
      ensures Valid() && nodes == old(nodes) - {p} && Stored() == old(Stored()) - {ek}
    {
      ghost var ep := Entry(BitsOf(p.p_key), p.p_m, p.p_mlen);
      var pp := LinkInto(p, LastDown(On(ek.key), ek.key), lo);
      ghost var u := Splice(Relabel(Root(), ep.key, t), ek.key);
      BothBits();
      RemovePlan(p, t, ek, ep, u);
      Detach(key, g, p, pp, t, ep, u);
    }

    /** No two entries have the same key. */
    lemma {:induction false} OnlyOne(k: Key)
      requires Valid()
      ensures BitsOk(On(k)) && Holds(Find(On(k), k)) && (On(k).Up? ==> Find(On(k), k).n == head)
      ensures Find(On(k), k).n == head <==> Find(On(k), k).e.key == BitsOf(0)
      ensures head.p_key == 0 && (Find(On(k), k).n == head ==> IsDefault(Find(On(k), k).e))
      ensures forall x :: x in Stored() && x.key == k ==> x == Find(On(k), k).e
    {
      SearchEnds(k);
      var d := HeadHolds();
      LinkFound(Link(head, d));
      assert Find(On(k), k) in Leaves(left) + Leaves(right);
      LinkFound(Find(On(k), k));
      forall x | x in Stored() && x.key == k
        ensures x == Find(On(k), k).e
      {
        var n := Located(x);
      }
    }

    /** Only the head branches at bit 0. */
    lemma {:induction false} HeadBit(t: PNode)
      requires Valid() && t in nodes
      ensures t.p_b == 0 <==> t == head
    {
      if t in Inner(left) {
        InnerBits(left, head.p_left, 0, t);
      } else if t in Inner(right) {
        InnerBits(right, head.p_right, 0, t);
      }
    }

    /** One of several masks goes. */
    method DropMask(t: PNode, m: Word, ghost e: Entry) returns (ok: bool)
      requires Valid() && t in nodes && e == Entry(BitsOf(t.p_key), t.p_m, t.p_mlen) && t.p_mlen != 1
      modifies `left, `right, t`p_m, t`p_mlen
      ensures Valid() && ok == Removable(e, m)
      ensures if ok then e.mlen > 0 && Stored() == old(Stored()) - {e} + Remains(e, m) else Stored() == old(Stored())
    {
      HeldOnlyBy(t, e);
      var i := 0;
      while i < t.p_mlen && m != t.p_m[i].pm_mask
        invariant 0 <= i <= t.p_mlen && forall j: nat :: j < i ==> t.p_m[j].pm_mask != m
      {
        i := i + 1;
      }
      if i >= t.p_mlen {
        return false;
      }
      RemainsDefault(e, m);
      var buf := CopyOthers(t.p_m, t.p_mlen, m);
      ReplaceMasks(t, buf, t.p_mlen - 1, e, Entry(e.key, buf, e.mlen - 1));
      return true;
    }

    method PatRemove(n: PNode?) returns (ok: bool, ghost e: Entry)
      requires Valid()
      modifies `left, `right, `nodes, nodes
      ensures Valid()
      ensures n == null || old(n.p_m) == [] ==> !ok
      ensures !ok ==> Stored() == old(Stored()) && nodes == old(nodes)
      ensures !ok && n != null && old(n.p_m) != [] ==>
                forall x :: x in old(Stored()) && x.key == old(BitsOf(n.p_key)) ==> !Removable(x, old(n.p_m[0].pm_mask))
      ensures ok ==> e in old(Stored()) && e.key == old(BitsOf(n.p_key)) && Removable(e, old(n.p_m[0].pm_mask))
      ensures ok ==> 0 < e.mlen <= |e.masks| && Stored() == old(Stored()) - {e} + Remains(e, old(n.p_m[0].pm_mask))
    {
      if n == null || n.p_m == [] {
        return false, Entry(BitsOf(0), [], 0);
      }
      ghost var k := BitsOf(n.p_key);
      var g, p, t, lo := WithParents(n.p_key);
      Ended(n.p_key, t);
      OnlyOne(k);
      e := Find(On(k), k).e;
      if t.p_key != n.p_key {
        return false, e;
      }
      if t.p_mlen == 1 {
        HeadBit(t);
        if t.p_b == 0 {
          return false, e;
        }
        if t.p_m[0].pm_mask != n.p_m[0].pm_mask {
          return false, e;
        }
        TakeOut(n.p_key, g, p, t, lo, e);
        return true, e;
      }
      ok := DropMask(t, n.p_m[0].pm_mask, e);
    }

    /** Every node but the head is reached by one up-link, inside its own subtree; the head by one on each side. */
    lemma {:induction false} UpLinks(n: PNode)
      requires Valid() && n in nodes
      ensures n == head ==> Ups(left, n) == 1 && Ups(right, n) == 1
      ensures n != head ==> var t := if n in Inner(left) then left else right;
                            n in Inner(t) && Ups(Below(t, n), n) == 1 && Ups(left, n) + Ups(right, n) == 1
    {
      OneUpLink(left, n);
      OneUpLink(right, n);
      if n in Inner(left) {
        UpLinkBelow(left, n);
      } else if n in Inner(right) {
        UpLinkBelow(right, n);
      }
    }

    /** The driver: each key is looked up and, if it is not found, goes in with a new node. */
    method Load(keys: seq<Word>, data: int)
      requires Valid() && Defaulted() && HIGH !in keys
      modifies this, nodes
      ensures Valid() && Defaulted() && fresh(nodes - old(nodes))
      ensures Stored() == Loaded(old(Stored()), keys, data)
    {
      assert keys[..0] == [];
      for i := 0 to |keys|
        invariant Valid() && Defaulted() && fresh(nodes - old(nodes))
        invariant Stored() == Loaded(old(Stored()), keys[..i], data)
      {
        LoadOne(keys[i], data);
        assert keys[..i + 1][..i] == keys[..i];
      }
      assert keys[..|keys|] == keys;
    }

    /** What the head holds tells whether it has its default mask. */
    lemma {:induction false} DefaultedBy(e: Entry)
      requires Valid() && e in Stored() && e.key == BitsOf(0) && |e.masks| > 0
      ensures Defaulted() <==> e.masks[0].pm_mask == 0
    {
      OnlyOne(BitsOf(0));
      var d := HeadHolds();
    }

    method LoadOne(key: Word, data: int)
      requires Valid() && Defaulted() && key != HIGH
      modifies this, nodes
      ensures Valid() && Defaulted() && fresh(nodes - old(nodes))
      ensures Stored() == LoadedOne(old(Stored()), key, data)
    {
      ghost var d := HeadHolds();
      var p := new PNode(key, [Mask(HOST, data)], 0);
      var pfind := PatSearch(key);
      assert pfind.p_key == key <==> Has(BitsOf(key)) by {
        var e := Entry(BitsOf(pfind.p_key), pfind.p_m, pfind.p_mlen);
        assert e in Stored();
      }
      if pfind.p_key != key {
        var q := PatInsert(p);
      }
      DefaultedBy(d);
    }
  }

  function DefaultEntry(data: int): (e: Entry) {
    Entry(BitsOf(0), [Mask(0, data)], 1)
  }

  lemma {:induction false} NoneRemovable(keys: seq<Word>, data: int)
    ensures forall x :: x in Loaded({DefaultEntry(data)}, keys, data) ==> x.mlen <= 1
    ensures forall x, m :: x in Loaded({DefaultEntry(data)}, keys, data) ==> !Removable(x, m)
  {
    LoadedEntries({DefaultEntry(data)}, keys, data);
  }

  method LoadNew(keys: seq<Word>, data: int) returns (t: Ptree)
    requires HIGH !in keys
    ensures t.Valid() && fresh(t) && fresh(t.nodes) && t.Stored() == Loaded({DefaultEntry(data)}, keys, data)
  {
    t := new Ptree(data);
    t.Load(keys, data);
  }

  /** Whatever the driver has inserted, pat_remove refuses: the nodes go in with a mask count of 0. */
  method LoadAndRemove(keys: seq<Word>, data: int, n: PNode) returns (t: Ptree, ok: bool)
    requires HIGH !in keys
    ensures t.Valid() && !ok && t.Stored() == Loaded({DefaultEntry(data)}, keys, data)
  {
    t := LoadNew(keys, data);
    NoneRemovable(keys, data);
    ghost var e := t.HeadHolds();
    ok, e := t.PatRemove(n);
  }
}
