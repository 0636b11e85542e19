/** The pass: it counts the loops of every function and tags the branches that close them. */
module LoopPass {
  import opened NaturalLoops

  datatype Option<T> = None | Some(value: T)

  datatype Location = Location(file: string, line: nat)

  class Instruction {
    const branch: bool
    const loc: Option<Location>
    var metadata: map<string, string>

    constructor (branch: bool, loc: Option<Location>)
      ensures this.branch == branch && this.loc == loc && metadata == map[]
    {
      this.branch, this.loc, metadata := branch, loc, map[];
    }
  }

  /** A block's instructions and, by number, its successors. */
  datatype Block = Block(insts: seq<Instruction>, succs: seq<nat>)

  /** A function's blocks; those of an empty function are in another module. */
  type Body = seq<Block>

  /**
   What loop analysis hands over: a loop's header, its blocks and the loops inside it; and what the search for
   updates of its induction variable finds, instruction by instruction.
   */
  datatype Loop = Loop(header: nat, blocks: set<nat>, subs: seq<Loop>, updates: seq<Instruction>)

  const KEY := "backedge: "
  const UPDATE_KEY := "IndVarUpdateInst:"
  const UPDATE_MARK := "canonical_ind_var"

  function Digits(n: nat): (s: string) {
    (if n < 10 then "" else Digits(n / 10)) + ["0123456789"[n % 10]]
  }

  /** The tag names the place in the source if that is known. */
  function Tag(i: Instruction): (s: string) {
    match i.loc
    case None => "cla"
    case Some(l) => "cla: " + l.file + ":" + Digits(l.line)
  }

  /** The number that decimal digits stand for. */
  function Val(s: string): (n: int) {
    if s == [] then 0 else 10 * Val(s[..|s| - 1]) + (s[|s| - 1] as int - '0' as int)
  }

  /** Digits, with no 0 in front. */
  predicate Numeral(s: string) {
    s != [] && (forall k :: 0 <= k < |s| ==> '0' <= s[k] <= '9') && (|s| > 1 ==> s[0] != '0')
  }

  lemma {:induction false} OneDigit(k: nat) returns (c: char)
    requires k < 10
    ensures c == "0123456789"[k] && '0' <= c <= '9' && c as int - '0' as int == k && (k > 0 ==> c != '0')
  {
    c := "0123456789"[k];
  }

  lemma {:induction false} OneMoreDigit(s: string, c: char)
    requires '0' <= c <= '9' && if s == [] then true else Numeral(s) && s[0] != '0'
    ensures Numeral(s + [c]) && Val(s + [c]) == 10 * Val(s) + (c as int - '0' as int)
  {
    assert (s + [c])[..|s|] == s;
  }

  /** The digits of a number read as that number. */
  lemma {:induction false} DigitsRead(n: nat)
    ensures Numeral(Digits(n)) && Val(Digits(n)) == n && (n > 0 ==> Digits(n)[0] != '0')
  {
    var (high, k) := (n / 10, n % 10);
    var c := OneDigit(k);
    if n >= 10 {
      DigitsRead(high);
      OneMoreDigit(Digits(high), c);
    } else {
      OneMoreDigit([], c);
    }
  }

  /** The tag gives the file and the line of the branch, if they are known. */
  ghost predicate Names(tag: string, loc: Option<Location>) {
    match loc
    case None => tag == "cla"
    case Some(l) => exists d :: tag == "cla: " + l.file + ":" + d && Numeral(d) && Val(d) == l.line
  }

  lemma {:induction false} TagNames(i: Instruction)
    ensures Names(Tag(i), i.loc)
  {
    if i.loc.Some? {
      DigitsRead(i.loc.value.line);
      assert Tag(i) == "cla: " + i.loc.value.file + ":" + Digits(i.loc.value.line);
    }
  }

  // ---------- The blocks a traversal of the loops tags ----------

  function Succs(f: Body): (s: seq<seq<nat>>)
    ensures |s| == |f| && forall b :: 0 <= b < |f| ==> s[b] == f[b].succs
  {
    seq(|f|, b requires 0 <= b < |f| => f[b].succs)
  }

  /** Edges lead to blocks, and a branch can only be a block's last instruction. */
  ghost predicate WellFormed(f: Body) {
    && (forall b, i :: 0 <= b < |f| && 0 <= i < |f[b].succs| ==> f[b].succs[i] < |f|)
    && (forall b, i :: 0 <= b < |f| && 0 <= i < |f[b].insts| && f[b].insts[i].branch ==> i == |f[b].insts| - 1)
  }

  ghost function Headers(l: Loop): (s: seq<nat>) {
    [l.header] + HeadersOf(l.subs)
  }

  ghost function HeadersOf(ls: seq<Loop>): (s: seq<nat>) {
    if ls == [] then [] else HeadersOf(ls[..|ls| - 1]) + Headers(ls[|ls| - 1])
  }

  /** The predecessors of a header that are in its loop. */
  ghost function Tagged(f: Body, l: Loop): (s: set<nat>) {
    (set b: nat | b < |f| && l.header in f[b].succs && b in l.blocks) + TaggedBy(f, l.subs)
  }

  ghost function TaggedBy(f: Body, ls: seq<Loop>): (s: set<nat>) {
    if ls == [] then {} else TaggedBy(f, ls[..|ls| - 1]) + Tagged(f, ls[|ls| - 1])
  }

  /**
   Every loop of ls, at any depth, has the blocks of the natural loop of its header; loops inside a loop have no
   blocks outside it, loops side by side have no block in common.
   */
  ghost predicate Natural(g: Graph, ls: seq<Loop>) {
    ls != [] ==>
      var (l, rest) := (ls[|ls| - 1], ls[..|ls| - 1]);
      && Header(g, l.header) && l.blocks == LoopBlocks(g, l.header)
      && (forall s :: s in l.subs ==> s.blocks <= l.blocks)
      && (forall s :: s in rest ==> s.blocks !! l.blocks)
      && Natural(g, l.subs) && Natural(g, rest)
  }

  /** The forest of natural loops: one loop for every target of a back edge. */
  ghost predicate LoopForest(f: Body, ls: seq<Loop>)
    requires WellFormed(f)
  {
    && Natural(Succs(f), ls)
    && (forall h :: Header(Succs(f), h) ==> h in HeadersOf(ls))
    && NoRepeats(HeadersOf(ls))
  }

  // ---------- The tags are exactly on the sources of back edges ----------

  lemma {:induction false} HeadersNatural(g: Graph, ls: seq<Loop>, h: nat)
    requires Natural(g, ls) && h in HeadersOf(ls)
    ensures Header(g, h)
  {
    var l := ls[|ls| - 1];
    if h == l.header {
    } else if h in HeadersOf(l.subs) {
      HeadersNatural(g, l.subs, h);
    } else {
      HeadersNatural(g, ls[..|ls| - 1], h);
    }
  }

  ghost predicate NoRepeats<T>(s: seq<T>) {
    forall i, j :: 0 <= i < j < |s| ==> s[i] != s[j]
  }

  lemma {:induction false} NoRepeatsJoin<T>(s: seq<T>, x: T, t: seq<T>)
    requires NoRepeats(s) && NoRepeats(t) && x !in s && x !in t && forall y :: y in s ==> y !in t
    ensures NoRepeats(s + ([x] + t))
  {
    var r := s + ([x] + t);
    forall i, j | 0 <= i < j < |r|
      ensures r[i] != r[j]
    {
      assert r[j] == if j < |s| then s[j] else if j == |s| then x else t[j - |s| - 1];
      assert r[i] == if i < |s| then s[i] else if i == |s| then x else t[i - |s| - 1];
      assert i < |s| ==> r[i] in s;
      assert j > |s| ==> r[j] in t;
    }
  }

  /** A forest of the loops of the headers hs. */
  ghost predicate ForestOf(g: Graph, hs: set<nat>, ls: seq<Loop>) {
    && Natural(g, ls)
    && (forall h :: h in HeadersOf(ls) <==> h in hs)
    && NoRepeats(HeadersOf(ls))
    && (forall l :: l in ls ==> l.header in hs && l.blocks == LoopBlocks(g, l.header))
  }

  lemma {:induction false} OneMoreLoop(g: Graph, h: nat, inner: set<nat>, outer: set<nat>, subs: seq<Loop>,
                                       rest: seq<Loop>, l: Loop)
    requires ForestOf(g, inner, subs) && ForestOf(g, outer, rest) && inner !! outer && h !in inner && h !in outer
    requires Header(g, h) && l == Loop(h, LoopBlocks(g, h), subs, [])
    requires forall k {:trigger k in inner} :: k in inner ==> LoopBlocks(g, k) <= LoopBlocks(g, h)
    requires forall k {:trigger k in outer} :: k in outer ==> LoopBlocks(g, k) !! LoopBlocks(g, h)
    ensures ForestOf(g, {h} + inner + outer, rest + [l])
  {
    var ls := rest + [l];
    assert ls[..|ls| - 1] == rest && ls[|ls| - 1] == l;
    assert HeadersOf(ls) == HeadersOf(rest) + ([h] + HeadersOf(subs));
    NoRepeatsJoin(HeadersOf(rest), h, HeadersOf(subs));
    assert Natural(g, ls);
  }

  /** The loops of a set of headers can always be arranged in a forest. */
  lemma {:induction false} SomeForest(g: Graph, hs: set<nat>) returns (ls: seq<Loop>)
    requires forall h :: h in hs ==> Header(g, h)
    ensures ForestOf(g, hs, ls)
    decreases hs
  {
    if hs == {} {
      ls := [];
    } else {
      forall k | k in hs
        ensures Reachable(g, k)
      {
        var u :| BackEdge(g, u, k);
        DominatorReachable(g, k, u);
      }
      var h := Outermost(g, hs);
      var inner := set k | k in hs - {h} && LoopBlocks(g, k) <= LoopBlocks(g, h);
      var outer := hs - {h} - inner;
      var subs := SomeForest(g, inner);
      var rest := SomeForest(g, outer);
      var l := Loop(h, LoopBlocks(g, h), subs, []);
      OneMoreLoop(g, h, inner, outer, subs, rest, l);
      assert {h} + inner + outer == hs;
      ls := rest + [l];
    }
  }

  /** Every function body has a forest of loops. */
  lemma {:induction false} ForestExists(f: Body)
    requires WellFormed(f)
    ensures exists ls :: LoopForest(f, ls)
  {
    var g := Succs(f);
    forall h | Header(g, h)
      ensures h in HeaderSet(g)
    {
      var u :| BackEdge(g, u, h);
    }
    var ls := SomeForest(g, HeaderSet(g));
    assert LoopForest(f, ls);
  }

  lemma {:induction false} TaggedBackEdges(f: Body, ls: seq<Loop>, b: nat)
    requires WellFormed(f) && Natural(Succs(f), ls)
    ensures b in TaggedBy(f, ls) <==> b < |f| && exists h :: h in HeadersOf(ls) && BackEdge(Succs(f), b, h)
  {
    if ls != [] {
      var (g, l) := (Succs(f), ls[|ls| - 1]);
      TaggedBackEdges(f, l.subs, b);
      TaggedBackEdges(f, ls[..|ls| - 1], b);
      if b < |f| && l.header in f[b].succs {
        LatchesAreInside(g, l.header, b);
      }
      assert HeadersOf(ls) == HeadersOf(ls[..|ls| - 1]) + ([l.header] + HeadersOf(l.subs));
      if h :| h in HeadersOf(ls) && BackEdge(g, b, h) {
        assert h == l.header || h in HeadersOf(l.subs) || h in HeadersOf(ls[..|ls| - 1]);
      }
    }
  }

  /** Tagged are the reachable blocks with an edge to a block that dominates them, and no others. */
  lemma {:induction false} ForestTags(f: Body, ls: seq<Loop>, b: nat)
    requires WellFormed(f) && LoopForest(f, ls)
    ensures b in TaggedBy(f, ls) <==> b in Sources(Succs(f))
  {
    TaggedBackEdges(f, ls, b);
    var g := Succs(f);
    if b < |f| {
      if h :| h in f[b].succs && Dominates(g, h, b) {
        assert BackEdge(g, b, h);
      }
    }
  }

  /** The targets of back edges. */
  ghost function HeaderSet(g: Graph): (s: set<nat>) {
    set h: nat | h < |g| && Header(g, h)
  }

  /** The reachable blocks with an edge to a block that dominates them. */
  ghost function Sources(g: Graph): (s: set<nat>) {
    set b: nat | b < |g| && exists h :: h in g[b] && Dominates(g, h, b)
  }

  /** The forest has as many loops as there are targets of back edges. */
  lemma {:induction false} ForestCount(f: Body, ls: seq<Loop>)
    requires WellFormed(f) && LoopForest(f, ls)
    ensures |HeadersOf(ls)| == |HeaderSet(Succs(f))|
  {
    var (g, s) := (Succs(f), HeadersOf(ls));
    forall h: nat
      ensures h in s <==> h in HeaderSet(g)
    {
      if h in s {
        HeadersNatural(g, ls, h);
        var u :| BackEdge(g, u, h);
      }
    }
    DistinctCount(s, HeaderSet(g));
  }

  lemma {:induction false} AllLoops(f: Body, ls: seq<Loop>)
    requires WellFormed(f) && LoopForest(f, ls)
    ensures |HeadersOf(ls)| == |HeaderSet(Succs(f))| && TaggedBy(f, ls) == Sources(Succs(f))
  {
    ForestCount(f, ls);
    forall b
      ensures b in TaggedBy(f, ls) <==> b in Sources(Succs(f))
    {
      ForestTags(f, ls, b);
    }
  }

  lemma {:induction false} DistinctCount<T>(s: seq<T>, c: set<T>)
    requires NoRepeats(s) && forall x :: x in s <==> x in c
    ensures |s| == |c|
  {
    if s == [] {
      assert c == {};
    } else {
      DistinctCount(s[1..], c - {s[0]});
    }
  }

  // ---------- The pass ----------

  ghost function AllInsts(f: Body): (s: set<Instruction>) {
    set b, k | 0 <= b < |f| && 0 <= k < |f[b].insts| :: f[b].insts[k]
  }

  type Tags = map<Instruction, map<string, string>>

  /** All metadata of a function. */
  ghost function Metadata(f: Body): (r: Tags)
    reads AllInsts(f)`metadata
  {
    map i | i in AllInsts(f) :: i.metadata
  }

  /** The metadata m after the branches among s have been tagged. */
  ghost function TagAll(s: seq<Instruction>, m: Tags): (r: Tags) {
    map i | i in m :: if i.branch && i in s then m[i][KEY := Tag(i)] else m[i]
  }

  ghost predicate InBlocks(f: Body, bs: set<nat>, i: Instruction) {
    exists b :: b in bs && b < |f| && i in f[b].insts
  }

  /** The metadata m after the branches of the blocks bs have been tagged. */
  ghost function TagBlocks(f: Body, bs: set<nat>, m: Tags): (r: Tags) {
    map i | i in m :: if i.branch && InBlocks(f, bs, i) then m[i][KEY := Tag(i)] else m[i]
  }

  lemma {:induction false} TagOne(s: seq<Instruction>, i: Instruction, m: Tags)
    requires i in m
    ensures TagAll(s + [i], m) == if i.branch then TagAll(s, m)[i := m[i][KEY := Tag(i)]] else TagAll(s, m)
    ensures TagAll(s, m)[i][KEY := Tag(i)] == m[i][KEY := Tag(i)]
  {
    Twice();
  }

  lemma {:induction false} Twice()
    ensures forall x: map<string, string>, v {:trigger x[KEY := v][KEY := v]} :: x[KEY := v][KEY := v] == x[KEY := v]
  {
  }

  lemma {:induction false} TagBlock(f: Body, bs: set<nat>, b: nat, m: Tags)
    requires b < |f|
    ensures TagAll(f[b].insts, TagBlocks(f, bs, m)) == TagBlocks(f, bs + {b}, m)
  {
    Twice();
    forall i | i in m
      ensures InBlocks(f, bs + {b}, i) <==> InBlocks(f, bs, i) || i in f[b].insts
    {
      if InBlocks(f, bs, i) {
        var c :| c in bs && c < |f| && i in f[c].insts;
        assert c in bs + {b};
      }
      if i in f[b].insts {
        assert b in bs + {b};
      }
    }
  }

  lemma {:induction false} TagMore(f: Body, a: set<nat>, b: set<nat>, m: Tags)
    ensures TagBlocks(f, b, TagBlocks(f, a, m)) == TagBlocks(f, a + b, m)
  {
    Twice();
    forall i | i in m
      ensures InBlocks(f, a + b, i) <==> InBlocks(f, a, i) || InBlocks(f, b, i)
    {
      if InBlocks(f, a, i) {
        var c :| c in a && c < |f| && i in f[c].insts;
        assert c in a + b;
      }
      if InBlocks(f, b, i) {
        var c :| c in b && c < |f| && i in f[c].insts;
        assert c in a + b;
      }
    }
  }

  ghost function Elements(s: seq<Instruction>): (r: set<Instruction>) {
    set i | i in s
  }

  /** The updates found for a loop and those inside it. */
  ghost function Updates(l: Loop): (s: set<Instruction>) {
    UpdatesBy(l.subs) + Elements(l.updates)
  }

  ghost function UpdatesBy(ls: seq<Loop>): (s: set<Instruction>) {
    if ls == [] then {} else UpdatesBy(ls[..|ls| - 1]) + Updates(ls[|ls| - 1])
  }

  /** l is one of the loops ls or lies, at any depth, inside one of them. */
  ghost predicate InForest(l: Loop, ls: seq<Loop>) {
    ls != [] && (l == ls[|ls| - 1] || InForest(l, ls[|ls| - 1].subs) || InForest(l, ls[..|ls| - 1]))
  }

  /** The updates are those found for any loop, at any depth. */
  lemma {:induction false} UpdatesAre(ls: seq<Loop>, i: Instruction)
    ensures i in UpdatesBy(ls) <==> exists l :: InForest(l, ls) && i in l.updates
  {
    if ls != [] {
      var (last, rest) := (ls[|ls| - 1], ls[..|ls| - 1]);
      UpdatesAre(last.subs, i);
      UpdatesAre(rest, i);
      if l :| InForest(l, last.subs) && i in l.updates {
        assert InForest(l, ls);
      }
      if l :| InForest(l, rest) && i in l.updates {
        assert InForest(l, ls);
      }
      if i in last.updates {
        assert InForest(last, ls);
      }
    }
  }

  lemma {:induction false} UpdatesOfOne(ls: seq<Loop>, k: nat)
    requires k < |ls|
    ensures Updates(ls[k]) <= UpdatesBy(ls)
  {
    if k < |ls| - 1 {
      UpdatesOfOne(ls[..|ls| - 1], k);
    }
  }

  /** The metadata m after those instructions of us whose place in the source is known have been marked. */
  ghost function Mark(us: set<Instruction>, m: Tags): (r: Tags) {
    map i | i in m :: if i in us && i.loc.Some? then m[i][UPDATE_KEY := UPDATE_MARK] else m[i]
  }

  lemma {:induction false} MarkMore(a: set<Instruction>, b: set<Instruction>, m: Tags)
    ensures Mark(b, Mark(a, m)) == Mark(a + b, m)
  {
    assert forall x: map<string, string>, v {:trigger x[UPDATE_KEY := v][UPDATE_KEY := v]} ::
        x[UPDATE_KEY := v][UPDATE_KEY := v] == x[UPDATE_KEY := v];
  }

  lemma {:induction false} MarkOne(s: seq<Instruction>, i: Instruction, m: Tags)
    requires i in m
    ensures var d := Mark(Elements(s), m);
            Mark(Elements(s + [i]), m) == if i.loc.Some? then d[i := d[i][UPDATE_KEY := UPDATE_MARK]] else d
  {
    MarkMore(Elements(s), {i}, m);
    assert Elements(s + [i]) == Elements(s) + {i};
  }

  lemma {:induction false} KeysDiffer()
    ensures KEY != UPDATE_KEY
  {
    assert |KEY| != |UPDATE_KEY|;
  }

  /** Tagging and marking do not get in each other's way. */
  lemma {:induction false} TagsAndMarks(f: Body, bs: set<nat>, us: set<Instruction>, m: Tags)
    ensures Mark(us, TagBlocks(f, bs, m)) == TagBlocks(f, bs, Mark(us, m))
  {
    KeysDiffer();
    assert forall x: map<string, string>, v, w {:trigger x[KEY := v][UPDATE_KEY := w]} ::
        x[KEY := v][UPDATE_KEY := w] == x[UPDATE_KEY := w][KEY := v];
  }

  /** Of a map's keys other than these two nothing changes. */
  lemma {:induction false} OtherKeys(f: Body, bs: set<nat>, us: set<Instruction>, m: Tags, i: Instruction, key: string)
    requires i in m && key != KEY && key != UPDATE_KEY
    ensures var r := Mark(us, TagBlocks(f, bs, m))[i];
            (key in r <==> key in m[i]) && (key in r ==> r[key] == m[i][key])
  {
  }

  /**
   The tag, naming file and line, is on exactly the branches of the blocks bs, whatever is marked; elsewhere its key is
   left alone.
   */
  lemma {:induction false} TagEntry(f: Body, bs: set<nat>, us: set<Instruction>, m: Tags, i: Instruction)
    requires i in m
    ensures var r := Mark(us, TagBlocks(f, bs, m))[i];
            if i.branch && InBlocks(f, bs, i)
            then "backedge: " in r && Names(r["backedge: "], i.loc)
            else && ("backedge: " in r <==> "backedge: " in m[i])
                 && ("backedge: " in r ==> r["backedge: "] == m[i]["backedge: "])
  {
    KeysDiffer();
    TagNames(i);
  }

  /** The mark is on exactly the updates whose place in the source is known; elsewhere its key is left alone. */
  lemma {:induction false} MarkEntry(f: Body, bs: set<nat>, us: set<Instruction>, m: Tags, i: Instruction)
    requires i in m
    ensures var r := Mark(us, TagBlocks(f, bs, m))[i];
            if i in us && i.loc != None
            then "IndVarUpdateInst:" in r && r["IndVarUpdateInst:"] == "canonical_ind_var"
            else && ("IndVarUpdateInst:" in r <==> "IndVarUpdateInst:" in m[i])
                 && ("IndVarUpdateInst:" in r ==> r["IndVarUpdateInst:"] == m[i]["IndVarUpdateInst:"])
  {
    KeysDiffer();
  }

  /** Where the tag changes anything, it is at a branch that ends a block of bs. */
  lemma {:induction false} OnlyTerminators(f: Body, bs: set<nat>, m: Tags, i: Instruction)
    requires WellFormed(f) && i in m && TagBlocks(f, bs, m)[i] != m[i]
    ensures i.branch && exists b :: b in bs && b < |f| && f[b].insts != [] && i == f[b].insts[|f[b].insts| - 1]
  {
    var b :| b in bs && b < |f| && i in f[b].insts;
    var k :| 0 <= k < |f[b].insts| && f[b].insts[k] == i;
    assert k == |f[b].insts| - 1;
  }

  /** A function and what loop analysis says about it. */
  datatype Function = Function(body: Body, loops: seq<Loop>)

  /** Loop analysis hands over the forest of natural loops and, as updates, instructions of the same function. */
  ghost predicate Analyzable(f: Function) {
    WellFormed(f.body) && LoopForest(f.body, f.loops) && UpdatesBy(f.loops) <= AllInsts(f.body)
  }

  /** The metadata m after a function has been analyzed. */
  ghost function Analyzed(f: Function, m: Tags): (r: Tags)
    requires WellFormed(f.body)
  {
    Mark(UpdatesBy(f.loops), TagBlocks(f.body, Sources(Succs(f.body)), m))
  }

  /** Loop by loop is as good as all at once. */
  lemma {:induction false} OneLoopMore(f: Body, ls: seq<Loop>, l: Loop, m: Tags)
    ensures Mark(Updates(l), TagBlocks(f, Tagged(f, l), Mark(UpdatesBy(ls), TagBlocks(f, TaggedBy(f, ls), m))))
            == Mark(UpdatesBy(ls + [l]), TagBlocks(f, TaggedBy(f, ls + [l]), m))
  {
    var n := TagBlocks(f, TaggedBy(f, ls), m);
    TagsAndMarks(f, Tagged(f, l), UpdatesBy(ls), n);
    TagMore(f, TaggedBy(f, ls), Tagged(f, l), m);
    MarkMore(UpdatesBy(ls), Updates(l), TagBlocks(f, Tagged(f, l), n));
    assert (ls + [l])[..|ls|] == ls;
  }

  lemma {:induction false} MarkOwn(f: Body, l: Loop, m: Tags)
    ensures Mark(Elements(l.updates), Mark(UpdatesBy(l.subs), TagBlocks(f, TaggedBy(f, l.subs), m)))
            == TagBlocks(f, TaggedBy(f, l.subs), Mark(Updates(l), m))
  {
    MarkMore(UpdatesBy(l.subs), Elements(l.updates), TagBlocks(f, TaggedBy(f, l.subs), m));
    TagsAndMarks(f, TaggedBy(f, l.subs), Updates(l), m);
  }

  ghost function ModuleInsts(m: seq<Function>): (s: set<Instruction>) {
    set k, i | 0 <= k < |m| && i in AllInsts(m[k].body) :: i
  }

  /** The number of targets of back edges in all functions. */
  ghost function LoopCount(m: seq<Function>): (n: nat)
    requires forall k :: 0 <= k < |m| ==> Analyzable(m[k])
  {
    if m == [] then 0
    else
      assert Analyzable(m[|m| - 1]);
      LoopCount(m[..|m| - 1]) + |HeaderSet(Succs(m[|m| - 1].body))|
  }

  class Pass {
    var NumLoops: nat

    method AddMetadataToBackEdge(f: Body, b: nat)
      requires b < |f|
      modifies AllInsts(f)`metadata
      ensures Metadata(f) == TagAll(f[b].insts, old(Metadata(f)))
      ensures forall i :: i in f[b].insts && i.branch ==>
                "backedge: " in i.metadata && Names(i.metadata["backedge: "], i.loc)
    {
      var insts := f[b].insts;
      assert insts[..0] == [];
      for k := 0 to |insts|
        invariant Metadata(f) == TagAll(insts[..k], old(Metadata(f)))
      {
        var i := f[b].insts[k];
        assert i in AllInsts(f);
        TagOne(insts[..k], i, old(Metadata(f)));
        assert insts[..k + 1] == insts[..k] + [i];
        if i.branch {
          i.metadata := i.metadata[KEY := Tag(i)];
        }
      }
      assert insts[..|insts|] == insts;
      forall i | i in insts && i.branch
        ensures "backedge: " in i.metadata && Names(i.metadata["backedge: "], i.loc)
      {
        TagNames(i);
        assert i in AllInsts(f) && i.metadata == Metadata(f)[i];
      }
    }

    /** One more update. */
    method MarkUpdate(f: Body, i: Instruction, ghost s: seq<Instruction>, ghost m: Tags)
      requires i in AllInsts(f) && Metadata(f) == Mark(Elements(s), m)
      modifies AllInsts(f)`metadata
      ensures Metadata(f) == Mark(Elements(s + [i]), m)
    {
      MarkOne(s, i, m);
      if i.loc.Some? {
        i.metadata := i.metadata[UPDATE_KEY := UPDATE_MARK];
      }
    }

    /** Every update found is marked if its place in the source is known. */
    method FindIndVarUpdateCandidates(f: Body, updates: seq<Instruction>)
      requires forall i :: i in updates ==> i in AllInsts(f)
      modifies AllInsts(f)`metadata
      ensures Metadata(f) == Mark(Elements(updates), old(Metadata(f)))
    {
      assert updates[..0] == [];
      for k := 0 to |updates|
        invariant Metadata(f) == Mark(Elements(updates[..k]), old(Metadata(f)))
      {
        MarkUpdate(f, updates[k], updates[..k], old(Metadata(f)));
        assert updates[..k + 1] == updates[..k] + [updates[k]];
      }
      assert updates[..|updates|] == updates;
    }

    method AnalyzeLoop(f: Body, l: Loop)
      requires Updates(l) <= AllInsts(f)
      modifies `NumLoops, AllInsts(f)`metadata
      ensures NumLoops == old(NumLoops) + |Headers(l)|
      ensures Metadata(f) == Mark(Updates(l), TagBlocks(f, Tagged(f, l), old(Metadata(f))))
      decreases l, 1
    {
      NumLoops := NumLoops + 1;
      AnalyzeSubloops(f, l);
      MarkAndTag(f, l, old(Metadata(f)));
    }

    /** What is done about a loop itself, after the loops inside it. */
    method MarkAndTag(f: Body, l: Loop, ghost m: Tags)
      requires Updates(l) <= AllInsts(f)
      requires Metadata(f) == Mark(UpdatesBy(l.subs), TagBlocks(f, TaggedBy(f, l.subs), m))
      modifies AllInsts(f)`metadata
      ensures Metadata(f) == Mark(Updates(l), TagBlocks(f, Tagged(f, l), m))
    {
      MarkOwn(f, l, m);
      TagsAndMarks(f, Tagged(f, l), Updates(l), m);
      FindIndVarUpdateCandidates(f, l.updates);
      TagPredecessors(f, l, Mark(Updates(l), m));
    }

    /** The loop over the loops inside a loop. */
    method AnalyzeSubloops(f: Body, l: Loop)
      requires UpdatesBy(l.subs) <= AllInsts(f)
      modifies `NumLoops, AllInsts(f)`metadata
      ensures NumLoops == old(NumLoops) + |HeadersOf(l.subs)|
      ensures Metadata(f) == Mark(UpdatesBy(l.subs), TagBlocks(f, TaggedBy(f, l.subs), old(Metadata(f))))
      decreases l, 0
    {
      for k := 0 to |l.subs|
        invariant NumLoops == old(NumLoops) + |HeadersOf(l.subs[..k])|
        invariant Metadata(f) == Mark(UpdatesBy(l.subs[..k]), TagBlocks(f, TaggedBy(f, l.subs[..k]), old(Metadata(f))))
      {
        UpdatesOfOne(l.subs, k);
        AnalyzeLoop(f, l.subs[k]);
        OneLoopMore(f, l.subs[..k], l.subs[k], old(Metadata(f)));
        assert l.subs[..k + 1] == l.subs[..k] + [l.subs[k]];
      }
      assert l.subs[..|l.subs|] == l.subs;
    }

    method TagPredecessors(f: Body, l: Loop, ghost m: Tags)
      requires Metadata(f) == TagBlocks(f, TaggedBy(f, l.subs), m)
      modifies AllInsts(f)`metadata
      ensures Metadata(f) == TagBlocks(f, Tagged(f, l), m)
    {
      ghost var done := TaggedBy(f, l.subs);
      for b: nat := 0 to |f|
        invariant Metadata(f) == TagBlocks(f, done, m)
        invariant done == TaggedBy(f, l.subs) + set c: nat | c < b && l.header in f[c].succs && c in l.blocks
      {
        if l.header in f[b].succs && b in l.blocks {
          AddMetadataToBackEdge(f, b);
          TagBlock(f, done, b, m);
          done := done + {b};
        }
      }
    }

    /** The loop over the outermost loops of a function. */
    method AnalyzeFunction(f: Body, ls: seq<Loop>)
      requires WellFormed(f) && LoopForest(f, ls) && UpdatesBy(ls) <= AllInsts(f)
      modifies `NumLoops, AllInsts(f)`metadata
      ensures NumLoops == old(NumLoops) + |HeaderSet(Succs(f))|
      ensures Metadata(f) == Mark(UpdatesBy(ls), TagBlocks(f, Sources(Succs(f)), old(Metadata(f))))
    {
      for k := 0 to |ls|
        invariant NumLoops == old(NumLoops) + |HeadersOf(ls[..k])|
        invariant Metadata(f) == Mark(UpdatesBy(ls[..k]), TagBlocks(f, TaggedBy(f, ls[..k]), old(Metadata(f))))
      {
        UpdatesOfOne(ls, k);
        AnalyzeLoop(f, ls[k]);
        OneLoopMore(f, ls[..k], ls[k], old(Metadata(f)));
        assert ls[..k + 1] == ls[..k] + [ls[k]];
      }
      assert ls[..|ls|] == ls;
      AllLoops(f, ls);
    }

    /** A function without blocks is passed over; the other functions are not touched. */
    method AnalyzeOne(m: seq<Function>, i: nat)
      requires i < |m| && Analyzable(m[i])
      requires forall k :: 0 <= k < |m| && k != i ==> AllInsts(m[i].body) !! AllInsts(m[k].body)
      modifies `NumLoops, AllInsts(m[i].body)`metadata
      ensures NumLoops == old(NumLoops) + |HeaderSet(Succs(m[i].body))|
      ensures Metadata(m[i].body) == Analyzed(m[i], old(Metadata(m[i].body)))
      ensures forall k :: 0 <= k < |m| && k != i ==> Metadata(m[k].body) == old(Metadata(m[k].body))
    {
      if m[i].body != [] {
        AnalyzeFunction(m[i].body, m[i].loops);
      } else {
        assert HeaderSet(Succs(m[i].body)) == {};
        assert AllInsts(m[i].body) == {};
      }
    }

    /**
     Back edges are tagged, updates marked, in every function; `TagEntry`, `MarkEntry` and `OtherKeys` say what that
     means for each key of each instruction.
     */
    method CustomLoopAnalysis(m: seq<Function>)
      requires forall k :: 0 <= k < |m| ==> Analyzable(m[k])
      requires forall j, k :: 0 <= j < |m| && 0 <= k < |m| && j != k ==> AllInsts(m[j].body) !! AllInsts(m[k].body)
      modifies `NumLoops, ModuleInsts(m)`metadata
      ensures NumLoops == old(NumLoops) + LoopCount(m)
      ensures forall k :: 0 <= k < |m| ==> Metadata(m[k].body) == Analyzed(m[k], old(Metadata(m[k].body)))
    {
      for i := 0 to |m|
        invariant NumLoops == old(NumLoops) + LoopCount(m[..i])
        invariant forall k :: 0 <= k < i ==> Metadata(m[k].body) == Analyzed(m[k], old(Metadata(m[k].body)))
        invariant forall k :: i <= k < |m| ==> Metadata(m[k].body) == old(Metadata(m[k].body))
      {
        assert m[..i + 1][..i] == m[..i];
        AnalyzeOne(m, i);
      }
      assert m[..|m|] == m;
    }
  }
}
