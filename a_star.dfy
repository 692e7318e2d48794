/**
 * The open set of the A* search (src/node/a_star.rs): a priority queue of
 * nodes keyed by weight, with push-or-decrease semantics, built from a map
 * from node to heap handle over the lazily invalidating heap.
 */
module AStar {
  import opened Wrappers
  import opened FibonacciHeap

  /**
   * `AStarNode`: a node with a weight. Equality looks only at the node,
   * ordering only at the weight.
   */
  datatype AStarNode<N> = AStarNode(node: N, weight: real)

  datatype Ordering = Less | Equal | Greater

  /** `AStarNode`'s `PartialEq`. */
  predicate NodeEq<N(==)>(a: AStarNode<N>, b: AStarNode<N>)
  {
    a.node == b.node
  }

  /** `AStarNode`'s `Ord`: the order of the weights. */
  function Compare<N>(a: AStarNode<N>, b: AStarNode<N>): (r: Ordering)
    ensures r == Equal <==> a.weight == b.weight
    ensures r == Less <==> b.weight > a.weight
  {
    if a.weight < b.weight then Less else if a.weight > b.weight then Greater else Equal
  }

  /**
   * Equality and order disagree: entries for different nodes can compare
   * equal, and entries for the same node can compare unequal.
   */
  lemma EqualityIsNotOrder<N>(n: N, m: N, w: real, v: real)
    requires n != m && w != v
    ensures Compare(AStarNode(n, w), AStarNode(m, w)) == Equal && !NodeEq(AStarNode(n, w), AStarNode(m, w))
    ensures Compare(AStarNode(n, w), AStarNode(n, v)) != Equal && NodeEq(AStarNode(n, w), AStarNode(n, v))
  {
  }

  /** The heap key of an entry: its weight. */
  function Weight<N>(a: AStarNode<N>): real
  {
    a.weight
  }

  /**
   * The handle map indexes the heap: every recorded handle is live and holds
   * its node, and every live cell is the one recorded for its node.
   */
  ghost predicate Indexes<N>(handles: map<N, Handle>, cs: seq<Cell<AStarNode<N>>>)
  {
    (forall n :: n in handles ==> handles[n] in LiveOf(cs) && cs[handles[n]].t.node == n) &&
    (forall h :: h in LiveOf(cs) ==> cs[h].t.node in handles && handles[cs[h].t.node] == h)
  }

  /** The weight recorded for each queued node. */
  ghost function WeightsOf<N>(handles: map<N, Handle>, cs: seq<Cell<AStarNode<N>>>): map<N, real>
    requires Indexes(handles, cs)
  {
    map n | n in handles :: cs[handles[n]].t.weight
  }

  /** The map is empty exactly when no cell is live. */
  lemma EmptyIndexes<N>(handles: map<N, Handle>, cs: seq<Cell<AStarNode<N>>>)
    requires Indexes(handles, cs)
    ensures handles == map[] <==> LiveOf(cs) == {}
  {
    if handles != map[] {
      var n :| n in handles;
      assert handles[n] in LiveOf(cs);
    }
    if LiveOf(cs) != {} {
      var h :| h in LiveOf(cs);
      assert cs[h].t.node in handles;
    }
  }

  /** Recording a fresh cell for a node not yet queued keeps the index. */
  lemma IndexesAfterInsert<N>(handles: map<N, Handle>, cs: seq<Cell<AStarNode<N>>>, node: N, weight: real)
    requires Indexes(handles, cs) && node !in handles
    ensures Indexes(handles[node := |cs|], cs + [Cell(AStarNode(node, weight), true, true)])
    ensures WeightsOf(handles[node := |cs|], cs + [Cell(AStarNode(node, weight), true, true)])
        == WeightsOf(handles, cs)[node := weight]
  {
    var cs' := cs + [Cell(AStarNode(node, weight), true, true)];
    assert LiveOf(cs') == LiveOf(cs) + {|cs|};
  }

  /** Replacing a node's cell by a fresh one, invalidating the old, keeps the index. */
  lemma IndexesAfterReplace<N>(handles: map<N, Handle>, cs: seq<Cell<AStarNode<N>>>, node: N, weight: real)
    requires Indexes(handles, cs) && node in handles
    ensures Indexes(handles[node := |cs|],
      cs[handles[node] := cs[handles[node]].(valid := false)] + [Cell(AStarNode(node, weight), true, true)])
    ensures WeightsOf(handles[node := |cs|],
      cs[handles[node] := cs[handles[node]].(valid := false)] + [Cell(AStarNode(node, weight), true, true)])
        == WeightsOf(handles, cs)[node := weight]
  {
    var old_h := handles[node];
    var cs1 := cs[old_h := cs[old_h].(valid := false)];
    var cs' := cs1 + [Cell(AStarNode(node, weight), true, true)];
    assert LiveOf(cs1) == LiveOf(cs) - {old_h};
    assert LiveOf(cs') == LiveOf(cs) - {old_h} + {|cs|};
  }

  /** Taking out the live cell of a node and forgetting the node keeps the index. */
  lemma IndexesAfterRemove<N>(handles: map<N, Handle>, cs: seq<Cell<AStarNode<N>>>, cs': seq<Cell<AStarNode<N>>>, h: Handle)
    requires Indexes(handles, cs) && h in LiveOf(cs)
    requires |cs'| == |cs| && forall j :: 0 <= j < |cs| ==> cs'[j].t == cs[j].t
    requires LiveOf(cs') == LiveOf(cs) - {h}
    ensures cs[h].t.node in handles && handles[cs[h].t.node] == h
    ensures Indexes(handles - {cs[h].t.node}, cs')
    ensures WeightsOf(handles - {cs[h].t.node}, cs') == WeightsOf(handles, cs) - {cs[h].t.node}
  {
  }

  /** A live cell of smallest weight holds a node of smallest recorded weight. */
  lemma IndexesMin<N>(handles: map<N, Handle>, cs: seq<Cell<AStarNode<N>>>, h: Handle)
    requires Indexes(handles, cs) && h in LiveOf(cs)
    requires forall j :: j in LiveOf(cs) ==> cs[h].t.weight <= cs[j].t.weight
    ensures cs[h].t.node in WeightsOf(handles, cs)
    ensures forall n :: n in WeightsOf(handles, cs) ==>
        WeightsOf(handles, cs)[cs[h].t.node] <= WeightsOf(handles, cs)[n]
  {
    forall n | n in WeightsOf(handles, cs)
      ensures WeightsOf(handles, cs)[cs[h].t.node] <= WeightsOf(handles, cs)[n]
    {
      assert handles[n] in LiveOf(cs);
    }
  }

  class AStarHeap<N(==)> {
    var handles: map<N, Handle>
    const heap: FibonacciHeap<AStarNode<N>>
    /** The queue's contents: each queued node with its current weight. */
    ghost var weights: map<N, real>

    /**
     * The heap is ordered by weight, every recorded handle points at a
     * valid cell still in the heap that holds its node, and every such cell
     * is the one recorded for its node.
     */
    ghost predicate Valid()
      reads this, heap
    {
      heap.key == Weight && Indexes(handles, heap.cells) && weights == WeightsOf(handles, heap.cells)
    }

    /** `AStarHeap::new`: an empty queue. */
    constructor()
      ensures Valid() && fresh(heap)
      ensures weights == map[]
    {
      handles := map[];
      weights := map[];
      heap := new FibonacciHeap(Weight);
    }

    /**
     * `push`: a node not queued is queued with `weight`; a queued node gets
     * `weight` if that is strictly smaller than its current one, and is
     * otherwise left alone.
     */
    method Push(node: N, weight: real)
      requires Valid()
      modifies this, heap
      ensures Valid()
      ensures node !in old(weights) || weight < old(weights)[node] ==>
          weights == old(weights)[node := weight]
      ensures node in old(weights) && weight >= old(weights)[node] ==>
          weights == old(weights)
    {
      if node !in handles {
        IndexesAfterInsert(handles, heap.cells, node, weight);
        var h := heap.Push(AStarNode(node, weight));
        handles := handles[node := h];
        weights := weights[node := weight];
      } else {
        IndexesAfterReplace(handles, heap.cells, node, weight);
        var r := heap.DecreaseKey(handles[node], AStarNode(node, weight));
        match r
        case Ok(h) =>
          handles := handles[node := h];
          weights := weights[node := weight];
        case Err(e) =>
          match e
          case KeyNotPresent =>
            assert false;
          case KeyNotValid =>
            assert false;
          case CannotIncreaseKey =>
      }
    }

    /**
     * `pop`: the node of smallest weight, which leaves the queue; `None`
     * when the queue is empty.
     */
    method Pop() returns (r: Option<N>)
      requires Valid()
      modifies this, heap
      ensures Valid()
      ensures r.None? <==> old(weights) == map[]
      ensures r.Some? ==> r.value in old(weights)
      ensures r.Some? ==> forall n :: n in old(weights) ==> old(weights)[r.value] <= old(weights)[n]
      ensures r.Some? ==> weights == old(weights) - {r.value}
      ensures r.None? ==> weights == old(weights)
    {
      ghost var cs := heap.cells;
      EmptyIndexes(handles, cs);
      var a, popped := heap.Pop();
      match a
      case None =>
        r := None;
      case Some(entry) =>
        IndexesMin(handles, cs, popped);
        IndexesAfterRemove(handles, cs, heap.cells, popped);
        handles := handles - {entry.node};
        weights := weights - {entry.node};
        r := Some(entry.node);
    }
  }
}
