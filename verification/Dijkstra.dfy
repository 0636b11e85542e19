/**
 The shortest-path benchmark: a global linked queue and an array of distances and predecessors, updated
 in place.  The methods are proved against the state and steps of `ShortestPaths`.
 */
module Dijkstra {
  import opened ShortestPaths

  class QItem {
    var iNode: int
    var iDist: int
    var iPrev: int
    var qNext: QItem?

    constructor (iNode: int, iDist: int, iPrev: int)
      ensures this.iNode == iNode && this.iDist == iDist && this.iPrev == iPrev && qNext == null
    {
      this.iNode, this.iDist, this.iPrev, qNext := iNode, iDist, iPrev, null;
    }
  }

  datatype NodeRec = NodeRec(iDist: int, iPrev: int)

  class Search {
    const AdjMatrix: Matrix
    const rgnNodes: array<NodeRec>
    var qHead: QItem?
    var g_qCount: int
    ghost var items: seq<QItem>
    ghost var queue: seq<Item>

    constructor (adj: Matrix)
      ensures AdjMatrix == adj && rgnNodes.Length == NUM_NODES && fresh(rgnNodes)
      ensures QueueValid() && queue == []
    {
      AdjMatrix := adj;
      rgnNodes := new NodeRec[NUM_NODES](_ => NodeRec(NONE, NONE));
      qHead, g_qCount, items, queue := null, 0, [], [];
    }

    ghost function ItemAt(i: nat): (r: QItem?)
      reads this
    {
      if i < |items| then items[i] else null
    }

    /** The linked list holds the entries of the queue, in order. */
    ghost predicate QueueValid()
      reads this, items
    {
      && g_qCount == |items| == |queue| && qHead == ItemAt(0)
      && (forall i {:trigger items[i].qNext} :: 0 <= i < |items| ==> items[i].qNext == ItemAt(i + 1))
      && forall i {:trigger items[i].iNode} {:trigger queue[i]} :: 0 <= i < |items| ==>
           items[i].iNode == queue[i].node && items[i].iDist == queue[i].dist && items[i].iPrev == queue[i].prev
    }

    /** Append at the end, walking there from the head. */
    method Enqueue0(iNode: int, iDist: int, iPrev: int, ghost path: seq<int>)
      requires QueueValid()
      modifies this, set q | q in items
      ensures QueueValid() && queue == old(queue) + [Item(iNode, iDist, iPrev, path)]
      ensures fresh(set q | q in items && q !in old(items))
    {
      var qNew := new QItem(iNode, iDist, iPrev);
      var qLast := qHead;
      if qLast == null {
        qHead := qNew;
      } else {
        ghost var k := 0;
        while qLast.qNext != null
          invariant 0 <= k < |items| && qLast == items[k]
          decreases |items| - k
        {
          assert items[k].qNext == ItemAt(k + 1);
          qLast := qLast.qNext;
          k := k + 1;
        }
        assert items[k].qNext == ItemAt(k + 1);
        assert forall i :: 0 <= i < k ==> items[i].qNext == items[i + 1];
        qLast.qNext := qNew;
      }
      items := items + [qNew];
      queue := queue + [Item(iNode, iDist, iPrev, path)];
      g_qCount := g_qCount + 1;
    }

    /** Take the first entry; an empty queue leaves the three values as they are. */
    method Dequeue0(iNode0: int, iDist0: int, iPrev0: int) returns (iNode: int, iDist: int, iPrev: int)
      requires QueueValid()
      modifies this
      ensures QueueValid()
      ensures old(queue) == [] ==> (iNode, iDist, iPrev) == (iNode0, iDist0, iPrev0) && queue == []
      ensures old(queue) != [] ==>
                && queue == old(queue[1..]) && items == old(items[1..])
                && (iNode, iDist, iPrev) == (old(queue[0]).node, old(queue[0]).dist, old(queue[0]).prev)
    {
      iNode, iDist, iPrev := iNode0, iDist0, iPrev0;
      if qHead != null {
        assert items[0].qNext == ItemAt(1);
        iNode, iDist, iPrev := qHead.iNode, qHead.iDist, qHead.iPrev;
        qHead := qHead.qNext;
        items, queue := items[1..], queue[1..];
        g_qCount := g_qCount - 1;
      }
    }

    /** The arrays and the queue on the heap are those of state s. */
    ghost predicate Represents(s: State)
      reads this, items, rgnNodes
    {
      && QueueValid() && s.queue == queue && rgnNodes.Length == NUM_NODES == |s.dist| == |s.prev|
      && forall v {:trigger rgnNodes[v]} {:trigger s.dist[v]} {:trigger s.prev[v]} :: 0 <= v < NUM_NODES ==>
           rgnNodes[v] == NodeRec(s.dist[v], s.prev[v])
    }

    /** One turn of the inner loop. */
    method TryNode(iNode: int, iDist: int, i: int, ghost s: State, ghost it: Item)
      requires ValidMatrix(AdjMatrix) && Represents(s) && |s.stamp| == NUM_NODES
      requires 0 <= i < NUM_NODES && 0 <= iNode < NUM_NODES && iNode == it.node && iDist == it.dist
      modifies this, rgnNodes, set q | q in items
      ensures Represents(Step(AdjMatrix, s, it, i))
      ensures fresh(set q | q in items && q !in old(items))
    {
      var iCost := AdjMatrix[iNode][i];
      if iCost != NONE {
        if NONE == rgnNodes[i].iDist || rgnNodes[i].iDist > iCost + iDist {
          rgnNodes[i] := NodeRec(iDist + iCost, iNode);
          Enqueue0(i, iDist + iCost, iNode, it.path + [i]);
        }
      }
    }

    /** The inner loop: try to improve every node by going there from the entry just taken. */
    method RelaxAll(iNode: int, iDist: int, ghost start: int, ghost s: State, ghost it: Item) returns (ghost t: State)
      requires ValidMatrix(AdjMatrix) && s in StatesAt(AdjMatrix, start, it, 0) && Represents(s)
      requires iNode == it.node && iDist == it.dist && 0 <= iNode < NUM_NODES
      modifies this, rgnNodes, set q | q in items
      ensures t in States(AdjMatrix, start) && Represents(t)
      ensures t == s || 0 <= Sum(t.dist) < Sum(s.dist)
      ensures fresh(set q | q in items && q !in old(items))
    {
      t := s;
      var i := 0;
      while i < NUM_NODES
        invariant 0 <= i <= NUM_NODES && t in StatesAt(AdjMatrix, start, it, i) && Represents(t)
        invariant t == s || 0 <= Sum(t.dist) < Sum(s.dist)
        invariant fresh(set q | q in items && q !in old(items))
      {
        ghost var u := NextState(AdjMatrix, start, t, it, i);
        TryNode(iNode, iDist, i, t, it);
        t := u;
        i := i + 1;
      }
      LastState(AdjMatrix, start, t, it);
    }

    /** The nodes print_path prints. */
    method PrintPath(chNode: int, ghost start: int, ghost s: State) returns (printed: seq<int>)
      requires ValidMatrix(AdjMatrix) && s in States(AdjMatrix, start) && Represents(s) && 0 <= chNode < NUM_NODES
      ensures Common(AdjMatrix, start, s)
      ensures printed == if s.dist[chNode] == NONE then [chNode] else Chain(AdjMatrix, start, s, chNode)
      decreases |s.dist|, Far(s, chNode).0, Far(s, chNode).1
    {
      LinkDescends(AdjMatrix, start, s, chNode);
      printed := [];
      if rgnNodes[chNode].iPrev != NONE {
        printed := PrintPath(rgnNodes[chNode].iPrev, start, s);
      }
      printed := printed + [chNode];
    }

    ghost function Far(s: State, v: int): (r: (int, int)) {
      if 0 <= v < |s.dist| && v < |s.stamp| then (s.dist[v], s.stamp[v]) else (0, 0)
    }

    method InitNodes()
      requires rgnNodes.Length == NUM_NODES
      modifies rgnNodes
      ensures forall v {:trigger rgnNodes[v]} :: 0 <= v < NUM_NODES ==> rgnNodes[v] == NodeRec(NONE, NONE)
    {
      var ch := 0;
      while ch < NUM_NODES
        invariant 0 <= ch <= NUM_NODES
        invariant forall v {:trigger rgnNodes[v]} :: 0 <= v < ch ==> rgnNodes[v] == NodeRec(NONE, NONE)
      {
        rgnNodes[ch] := NodeRec(NONE, NONE);
        ch := ch + 1;
      }
    }

    /** The queue loop, from the start node alone in the queue until it is empty. */
    method RunQueue(chStart: int) returns (ghost s: State)
      requires ValidMatrix(AdjMatrix) && 0 <= chStart < NUM_NODES && Represents(Initial(chStart))
      modifies this, rgnNodes, set q | q in items
      ensures s in States(AdjMatrix, chStart) && s.queue == [] && Represents(s)
    {
      s := Initial(chStart);
      FirstState(AdjMatrix, chStart);
      var iNode, iDist, iPrev := 0, 0, 0;
      while g_qCount > 0
        invariant s in States(AdjMatrix, chStart) && Represents(s)
        invariant fresh(set q | q in items && q !in old(items))
        decreases Sum(s.dist), |s.queue|
      {
        ghost var it := s.queue[0];
        TakeState(AdjMatrix, chStart, s);
        iNode, iDist, iPrev := Dequeue0(iNode, iDist, iPrev);
        s := RelaxAll(iNode, iDist, chStart, s.(queue := s.queue[1..]), it);
      }
    }

    /**
     One search.  The first result is what is printed as the cost, the second the printed path.  The
     queue is empty again afterwards.
     */
    method FindPath(chStart: int, chEnd: int) returns (cost: int, path: seq<int>)
      requires ValidMatrix(AdjMatrix) && rgnNodes.Length == NUM_NODES && QueueValid() && queue == []
      requires 0 <= chStart < NUM_NODES && 0 <= chEnd < NUM_NODES
      modifies this, rgnNodes
      ensures QueueValid() && queue == []
      ensures chStart == chEnd ==> cost == 0 && path == [chStart]
      ensures chStart != chEnd ==> Exact(AdjMatrix, chStart, Distances())
      ensures chStart != chEnd ==> cost == rgnNodes[chEnd].iDist
      ensures chStart != chEnd && Reachable(AdjMatrix, chStart, chEnd) ==>
                PathFromTo(AdjMatrix, path, chStart, chEnd) && Cost(AdjMatrix, path) == cost
      ensures chStart != chEnd && !Reachable(AdjMatrix, chStart, chEnd) ==> cost == NONE && path == [chEnd]
    {
      InitNodes();
      if chStart == chEnd {
        cost, path := 0, [chStart];
      } else {
        rgnNodes[chStart] := NodeRec(0, NONE);
        Enqueue0(chStart, 0, NONE, [chStart]);
        ghost var s := RunQueue(chStart);
        EndState(AdjMatrix, chStart, s);
        assert Distances() == s.dist;
        cost := rgnNodes[chEnd].iDist;
        path := PrintPath(chEnd, chStart, s);
        if s.dist[chEnd] != NONE {
          ChainIsShortest(AdjMatrix, chStart, s, chEnd);
        }
      }
    }

    /** All recorded distances. */
    ghost function Distances(): (d: seq<int>)
      requires rgnNodes.Length == NUM_NODES
      reads this, rgnNodes
      ensures |d| == NUM_NODES
    {
      seq(NUM_NODES,
          v requires 0 <= v < NUM_NODES && rgnNodes.Length == NUM_NODES reads this, rgnNodes => rgnNodes[v].iDist)
    }
  }
}
