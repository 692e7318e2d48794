/**
 * The road network store (src/node/mod.rs): nodes and edges with their id
 * counters, the two spatial indexes from chunk to the ids registered there,
 * the collision queries that scan them, and the A* search over incident
 * edges.
 */
module Nodes {
  import opened Wrappers
  import opened Vec
  import opened Traffic
  import opened Chunks
  import opened AStar

  /** `NonZeroU64`: the raw value of every id. */
  type Id = n: nat | n > 0 witness 1

  /** `NodeId`. */
  type NodeId = Id

  /** `EdgeId`. */
  type EdgeId = Id

  /** `Inner`: an id counter and the items stored under the ids it issued. */
  datatype Inner<V> = Inner(idMaker: nat, items: map<Id, V>) {

    /** Every id in use was issued already. */
    predicate Issued()
    {
      forall i :: i in items ==> i <= idMaker
    }

    /**
     * `get_id`: bumps the counter and issues its new value, an id larger than
     * every one issued before and so not in use.
     */
    function GetId(): (r: (Id, Inner<V>))
      ensures r.0 > idMaker && r.1.idMaker == r.0
      ensures r.1.items == items
      ensures Issued() ==> r.0 !in items && r.1.Issued()
    {
      (idMaker + 1, this.(idMaker := idMaker + 1))
    }
  }

  /** A fresh counter issues 1 first, and every later id is larger than the one before. */
  lemma IdsCountUp<V>(inner: Inner<V>)
    ensures inner.idMaker == 0 ==> inner.GetId().0 == 1
    ensures inner.GetId().0 < inner.GetId().1.GetId().0
    ensures inner.GetId().1.GetId().0 == inner.GetId().0 + 1
  {
  }

  /** `Node`: its id, its position and the ids of its edges, in the order they were made. */
  datatype Node = Node(id: NodeId, pos: Vec2, edges: seq<EdgeId>)

  /** `Edge`: its id, its end nodes, its speed and its lanes. */
  datatype Edge = Edge(id: EdgeId, nodes: (NodeId, NodeId), speed: real, laneDef: LaneDefinition)

  predicate IsEnd(e: Edge, n: NodeId)
  {
    e.nodes.0 == n || e.nodes.1 == n
  }

  /**
   * `Edge::get_other_node`: the end that is not `node`. Asking with a node
   * the edge does not touch is a (debug) assertion failure.
   */
  function GetOtherNode(e: Edge, node: NodeId): (r: NodeId)
    requires IsEnd(e, node)
    ensures multiset{node, r} == multiset{e.nodes.0, e.nodes.1}
  {
    if e.nodes.0 == node then e.nodes.1 else e.nodes.0
  }

  /** Going to the other end and back returns to the start, loops included. */
  lemma OtherOfOther(e: Edge, n: NodeId)
    requires IsEnd(e, n)
    ensures IsEnd(e, GetOtherNode(e, n)) && GetOtherNode(e, GetOtherNode(e, n)) == n
  {
  }

  /**
   * The point of segment `ab` that `distance_to_sqr` measures from: the
   * projection of `p` when it falls on the segment, else the end beyond which
   * it falls. For a segment of length zero the parameter is NaN, no
   * comparison holds and `b` is taken.
   */
  function ClosestPoint(a: Vec2, b: Vec2, p: Vec2): (c: Vec2)
    ensures exists t :: 0.0 <= t <= 1.0 && c == a.Add(b.Sub(a).Scale(t))
    ensures b.Sub(a).LengthSquared() == 0.0 ==> c == b
    ensures b.Sub(a).LengthSquared() != 0.0 ==>
      var q, len := p.Sub(a).Dot(b.Sub(a)), b.Sub(a).LengthSquared();
      (0.0 <= q <= len ==> c.Sub(p).Dot(b.Sub(a)) == 0.0) &&
      (q < 0.0 ==> c == a) &&
      (q > len ==> c == b)
  {
    var ab := b.Sub(a);
    var ap := p.Sub(a);
    var len := ab.LengthSquared();
    if len == 0.0 then
      assert b == a.Add(ab.Scale(1.0));
      b
    else
      assert len > 0.0 by { SumOfSquares(ab.x, ab.y); }
      var q := ap.Dot(ab);
      var t := q / len;
      assert t * len == q;
      assert 0.0 <= t <= 1.0 <==> 0.0 <= q <= len by { QuotientBounds(q, len); }
      assert t < 0.0 <==> q < 0.0 by { QuotientBounds(q, len); }
      if 0.0 <= t <= 1.0 then
        assert a.Add(ab.Scale(t)).Sub(p).Dot(ab) == t * len - q;
        a.Add(ab.Scale(t))
      else if t < 0.0 then
        assert a == a.Add(ab.Scale(0.0));
        a
      else
        assert b == a.Add(ab.Scale(1.0));
        b
  }

  /** A square is never negative, and is positive unless its root is zero. */
  lemma Square(x: real)
    ensures x * x >= 0.0
    ensures x != 0.0 ==> x * x > 0.0
  {
    if x < 0.0 {
      assert x * x == (-x) * (-x);
    }
  }

  /** A sum of two squares is never negative, and is positive unless both are zero. */
  lemma SumOfSquares(x: real, y: real)
    ensures x * x + y * y >= 0.0
    ensures x != 0.0 || y != 0.0 ==> x * x + y * y > 0.0
  {
    Square(x);
    Square(y);
  }

  /** Dividing by a positive `d` keeps the comparisons of `q` with 0 and `d`. */
  lemma QuotientBounds(q: real, d: real)
    requires d > 0.0
    ensures q / d < 0.0 <==> q < 0.0
    ensures q / d <= 1.0 <==> q <= d
  {
    assert (q / d) * d == q;
  }

  /**
   * `Edge::distance_to_sqr`: the squared distance from `p` to the point of
   * the segment that `ClosestPoint` picks.
   */
  function DistanceToSqr(a: Vec2, b: Vec2, p: Vec2): (r: real)
    ensures r >= 0.0
    ensures ClosestPoint(a, b, p) == p ==> r == 0.0
  {
    var c := ClosestPoint(a, b, p);
    SumOfSquares(c.x - p.x, c.y - p.y);
    assert c == p ==> c.Sub(p) == Vec2(0.0, 0.0);
    c.DistanceSquared(p)
  }

  /** Both ends of a segment are at distance zero from it. */
  lemma EndsOnSegment(a: Vec2, b: Vec2)
    ensures DistanceToSqr(a, b, a) == 0.0
    ensures DistanceToSqr(a, b, b) == 0.0
  {
    var ab := b.Sub(a);
    var len := ab.LengthSquared();
    if len != 0.0 {
      assert a.Sub(a).Dot(ab) == 0.0;
      assert 0.0 / len == 0.0;
      assert a.Add(ab.Scale(0.0)) == a;
      assert ClosestPoint(a, b, a) == a;
      assert b.Sub(a).Dot(ab) == len;
      assert len / len == 1.0;
      assert a.Add(ab.Scale(1.0)) == b;
      assert ClosestPoint(a, b, b) == b;
    }
  }

  /** `Node::radius`. */
  const Radius: real := 10.0

  /** `n` copies of `x`. */
  function Repeat<X>(x: X, n: nat): seq<X>
  {
    if n == 0 then [] else Repeat(x, n - 1) + [x]
  }

  lemma {:induction false} RepeatCount<X>(x: X, n: nat, y: X)
    ensures multiset(Repeat(x, n))[y] == if y == x then n else 0
    ensures y in Repeat(x, n) <==> y == x && n > 0
  {
    if n > 0 {
      RepeatCount(x, n - 1, y);
      assert multiset(Repeat(x, n)) == multiset(Repeat(x, n - 1)) + multiset{x};
    }
  }

  /** The ids listed for chunk `c`; a chunk never written to lists none. */
  function Bucket<X>(m: map<ChunkPos, seq<X>>, c: ChunkPos): seq<X>
  {
    if c in m then m[c] else []
  }

  /** `lookup.entry(c).or_insert_with(Vec::new).push(x)`. */
  function Register<X>(m: map<ChunkPos, seq<X>>, c: ChunkPos, x: X): map<ChunkPos, seq<X>>
  {
    m[c := Bucket(m, c) + [x]]
  }

  /** Registering `x` in each of `cs`, first to last. */
  function RegisterAll<X>(m: map<ChunkPos, seq<X>>, cs: seq<ChunkPos>, x: X): map<ChunkPos, seq<X>>
  {
    if cs == [] then m else Register(RegisterAll(m, cs[..|cs| - 1], x), cs[|cs| - 1], x)
  }

  lemma RegisterAllSnoc<X>(m: map<ChunkPos, seq<X>>, cs: seq<ChunkPos>, c: ChunkPos, x: X)
    ensures RegisterAll(m, cs + [c], x) == Register(RegisterAll(m, cs, x), c, x)
  {
    assert (cs + [c])[..|cs + [c]| - 1] == cs;
  }

  /** Registering `xs` and then `ys` is registering `xs + ys`. */
  lemma {:induction false} RegisterAllAppend<X>(m: map<ChunkPos, seq<X>>, xs: seq<ChunkPos>, ys: seq<ChunkPos>, x: X)
    ensures RegisterAll(RegisterAll(m, xs, x), ys, x) == RegisterAll(m, xs + ys, x)
  {
    if ys == [] {
      assert xs + ys == xs;
    } else {
      var init := ys[..|ys| - 1];
      var last := ys[|ys| - 1];
      assert ys == init + [last];
      assert xs + ys == (xs + init) + [last];
      RegisterAllAppend(m, xs, init, x);
      RegisterAllSnoc(RegisterAll(m, xs, x), init, last, x);
      RegisterAllSnoc(m, xs + init, last, x);
    }
  }

  /**
   * After registering `x` in each of `cs`, every bucket holds what it held,
   * followed by `x` once for each time its chunk occurs in `cs`.
   */
  lemma {:induction false} RegisterAllBucket<X>(m: map<ChunkPos, seq<X>>, cs: seq<ChunkPos>, x: X, c: ChunkPos)
    ensures Bucket(RegisterAll(m, cs, x), c) == Bucket(m, c) + Repeat(x, multiset(cs)[c])
  {
    if cs != [] {
      var init := cs[..|cs| - 1];
      var last := cs[|cs| - 1];
      assert cs == init + [last];
      RegisterAllBucket(m, init, x, c);
      RegisterAllBucketStep(m, init, last, x, c);
    }
  }

  lemma RegisterAllBucketStep<X>(m: map<ChunkPos, seq<X>>, init: seq<ChunkPos>, last: ChunkPos, x: X, c: ChunkPos)
    requires Bucket(RegisterAll(m, init, x), c) == Bucket(m, c) + Repeat(x, multiset(init)[c])
    ensures Bucket(RegisterAll(m, init + [last], x), c) == Bucket(m, c) + Repeat(x, multiset(init + [last])[c])
  {
    var k := multiset(init)[c];
    var k' := multiset(init + [last])[c];
    assert k' == k + (if c == last then 1 else 0) by {
      assert multiset(init + [last]) == multiset(init) + multiset{last};
    }
    assert Bucket(RegisterAll(m, init + [last], x), c) ==
        Bucket(RegisterAll(m, init, x), c) + (if c == last then [x] else []) by {
      RegisterAllSnoc(m, init, last, x);
      BucketOfRegister(RegisterAll(m, init, x), last, x, c);
    }
    if c == last {
      assert Repeat(x, k') == Repeat(x, k) + [x];
    }
  }

  /** Registering in chunk `d` appends to that bucket alone. */
  lemma BucketOfRegister<X>(m: map<ChunkPos, seq<X>>, d: ChunkPos, x: X, c: ChunkPos)
    ensures Bucket(Register(m, d, x), c) == Bucket(m, c) + (if c == d then [x] else [])
  {
  }

  /** A sequence without repetitions holds each chunk at most once. */
  lemma {:induction false} NoDuplicatesCount(s: seq<ChunkPos>, c: ChunkPos)
    requires NoDuplicates(s)
    ensures multiset(s)[c] <= 1
  {
    if s != [] {
      var init := s[..|s| - 1];
      assert s == init + [s[|s| - 1]];
      assert multiset(s) == multiset(init) + multiset{s[|s| - 1]};
      assert NoDuplicates(init);
      NoDuplicatesCount(init, c);
      if c == s[|s| - 1] {
        assert c !in init;
      }
    }
  }

  /** No edge ever registers twice in one chunk. */
  lemma RasteriseNoDuplicates(a: Vec2, b: Vec2)
    ensures NoDuplicates(Rasterise(a, b))
  {
    var ca := FromWorldPos(a);
    var cb := FromWorldPos(b);
    if ca.x == cb.x || ca.y == cb.y {
      RasteriseStraight(a, b);
    } else if b.Sub(a).GetMaxAxis().Some? {
      RasteriseSlope(a, b);
    } else {
      RasteriseDiagonal(a, b);
    }
  }

  // ----- The invariant of the store, on its values -----

  /** Every item is stored under its own id. */
  predicate Keyed(nodes: map<NodeId, Node>, edges: map<EdgeId, Edge>)
  {
    (forall n :: n in nodes ==> nodes[n].id == n) &&
    (forall e :: e in edges ==> edges[e].id == e)
  }

  /** Both ends of every edge are stored nodes. */
  predicate EndsExist(nodes: map<NodeId, Node>, edges: map<EdgeId, Edge>)
  {
    forall e :: e in edges ==> edges[e].nodes.0 in nodes && edges[e].nodes.1 in nodes
  }

  /**
   * Incidence: a node lists an edge exactly when the edge is stored and the
   * node is one of its ends.
   */
  predicate Incidence(nodes: map<NodeId, Node>, edges: map<EdgeId, Edge>)
    requires EndsExist(nodes, edges)
  {
    (forall e :: e in edges ==> e in nodes[edges[e].nodes.0].edges && e in nodes[edges[e].nodes.1].edges) &&
    (forall n, e :: n in nodes && e in nodes[n].edges ==> e in edges && IsEnd(edges[e], n))
  }

  /** Bucket `c` lists `i` at most once. */
  ghost predicate ListedOnce(lookup: map<ChunkPos, seq<Id>>, c: ChunkPos, i: Id)
  {
    multiset(Bucket(lookup, c))[i] <= 1
  }

  /** Each index bucket lists an id at most once. */
  ghost predicate BucketsOnce(lookup: map<ChunkPos, seq<Id>>)
  {
    forall c, i :: ListedOnce(lookup, c, i)
  }

  /** If bucket `c` lists `n`, then `n` is a stored node whose home chunk is `c`. */
  ghost predicate NodeListed(nodes: map<NodeId, Node>, lookup: map<ChunkPos, seq<NodeId>>, c: ChunkPos, n: NodeId)
  {
    n in Bucket(lookup, c) ==> n in nodes && FromWorldPos(nodes[n].pos) == c
  }

  /** A stored `n` is listed in the bucket of its home chunk. */
  ghost predicate NodeAtHome(nodes: map<NodeId, Node>, lookup: map<ChunkPos, seq<NodeId>>, n: NodeId)
  {
    n in nodes ==> n in Bucket(lookup, FromWorldPos(nodes[n].pos))
  }

  /** A node is listed exactly in the bucket of its home chunk. */
  ghost predicate NodeBuckets(nodes: map<NodeId, Node>, lookup: map<ChunkPos, seq<NodeId>>)
  {
    (forall c, n :: NodeListed(nodes, lookup, c, n)) &&
    (forall n :: NodeAtHome(nodes, lookup, n)) &&
    BucketsOnce(lookup)
  }

  /** The chunks an edge is registered in. */
  function EdgeChunks(nodes: map<NodeId, Node>, e: Edge): seq<ChunkPos>
    requires e.nodes.0 in nodes && e.nodes.1 in nodes
  {
    Rasterise(nodes[e.nodes.0].pos, nodes[e.nodes.1].pos)
  }

  /** If bucket `c` lists `e`, then `e` is a stored edge rasterised to `c`. */
  ghost predicate EdgeListed(nodes: map<NodeId, Node>, edges: map<EdgeId, Edge>, lookup: map<ChunkPos, seq<EdgeId>>,
                             c: ChunkPos, e: EdgeId)
    requires EndsExist(nodes, edges)
  {
    e in Bucket(lookup, c) ==> e in edges && c in EdgeChunks(nodes, edges[e])
  }

  /** A stored `e` is listed in the bucket of `c` when it is rasterised to `c`. */
  ghost predicate EdgeInChunk(nodes: map<NodeId, Node>, edges: map<EdgeId, Edge>, lookup: map<ChunkPos, seq<EdgeId>>,
                              e: EdgeId, c: ChunkPos)
    requires EndsExist(nodes, edges)
  {
    e in edges && c in EdgeChunks(nodes, edges[e]) ==> e in Bucket(lookup, c)
  }

  /** An edge is listed exactly in the buckets of the chunks it is rasterised to. */
  ghost predicate EdgeBuckets(nodes: map<NodeId, Node>, edges: map<EdgeId, Edge>, lookup: map<ChunkPos, seq<EdgeId>>)
    requires EndsExist(nodes, edges)
  {
    (forall c, e :: EdgeListed(nodes, edges, lookup, c, e)) &&
    (forall e, c :: EdgeInChunk(nodes, edges, lookup, e, c)) &&
    BucketsOnce(lookup)
  }

  /** The invariant of `NodeManager`, on the values of its fields. */
  ghost predicate StoreInv(nodes: Inner<Node>, edges: Inner<Edge>,
                           nodeLookup: map<ChunkPos, seq<NodeId>>, edgeLookup: map<ChunkPos, seq<EdgeId>>)
  {
    nodes.Issued() && edges.Issued() && Keyed(nodes.items, edges.items) &&
    EndsExist(nodes.items, edges.items) && Incidence(nodes.items, edges.items) &&
    NodeBuckets(nodes.items, nodeLookup) && EdgeBuckets(nodes.items, edges.items, edgeLookup)
  }

  /** The empty store. */
  lemma EmptyStore()
    ensures StoreInv(Inner(0, map[]), Inner(0, map[]), map[], map[])
  {
  }

  /** A new node with no edges, listed in its home chunk, keeps the invariant. */
  lemma AddNodeKeeps(nodes: Inner<Node>, edges: Inner<Edge>,
                     nodeLookup: map<ChunkPos, seq<NodeId>>, edgeLookup: map<ChunkPos, seq<EdgeId>>,
                     id: NodeId, pos: Vec2)
    requires StoreInv(nodes, edges, nodeLookup, edgeLookup)
    requires id == nodes.idMaker + 1
    ensures StoreInv(Inner(id, nodes.items[id := Node(id, pos, [])]), edges,
                     Register(nodeLookup, FromWorldPos(pos), id), edgeLookup)
  {
    var ns := nodes.items[id := Node(id, pos, [])];
    assert id !in nodes.items;
    AddNodeToBuckets(nodes.items, nodeLookup, id, pos);
    SamePositions(nodes.items, ns, edges.items, edgeLookup);
    AddNodeIncidence(nodes.items, edges.items, id, pos);
  }

  lemma AddNodeIncidence(nodes: map<NodeId, Node>, edges: map<EdgeId, Edge>, id: NodeId, pos: Vec2)
    requires EndsExist(nodes, edges) && Incidence(nodes, edges) && Keyed(nodes, edges) && id !in nodes
    ensures EndsExist(nodes[id := Node(id, pos, [])], edges)
    ensures Incidence(nodes[id := Node(id, pos, [])], edges)
    ensures Keyed(nodes[id := Node(id, pos, [])], edges)
  {
  }

  /** Listing a new node in its home chunk keeps the node index exact. */
  lemma AddNodeToBuckets(nodes: map<NodeId, Node>, nodeLookup: map<ChunkPos, seq<NodeId>>, id: NodeId, pos: Vec2)
    requires NodeBuckets(nodes, nodeLookup) && id !in nodes
    ensures NodeBuckets(nodes[id := Node(id, pos, [])], Register(nodeLookup, FromWorldPos(pos), id))
  {
    var ns := nodes[id := Node(id, pos, [])];
    var home := FromWorldPos(pos);
    assert RegisterAll(nodeLookup, [home], id) == Register(RegisterAll(nodeLookup, [], id), home, id);
    forall c ensures id !in Bucket(nodeLookup, c) {
      assert NodeListed(nodes, nodeLookup, c, id);
    }
    RegisterFresh(nodeLookup, [home], id);
    var r := Register(nodeLookup, home, id);
    forall c, n ensures NodeListed(ns, r, c, n) {
      assert NodeListed(nodes, nodeLookup, c, n);
    }
    forall n ensures NodeAtHome(ns, r, n) {
      assert NodeAtHome(nodes, nodeLookup, n);
    }
  }

  /** The edge index stays exact while the stored nodes keep their positions. */
  lemma SamePositions(nodes: map<NodeId, Node>, ns: map<NodeId, Node>, edges: map<EdgeId, Edge>,
                      edgeLookup: map<ChunkPos, seq<EdgeId>>)
    requires EndsExist(nodes, edges) && EdgeBuckets(nodes, edges, edgeLookup)
    requires nodes.Keys <= ns.Keys && forall n :: n in nodes ==> ns[n].pos == nodes[n].pos
    ensures EndsExist(ns, edges) && EdgeBuckets(ns, edges, edgeLookup)
  {
    forall c, e ensures EdgeListed(ns, edges, edgeLookup, c, e) {
      assert EdgeListed(nodes, edges, edgeLookup, c, e);
      if e in edges {
        assert EdgeChunks(ns, edges[e]) == EdgeChunks(nodes, edges[e]);
      }
    }
    forall e, c ensures EdgeInChunk(ns, edges, edgeLookup, e, c) {
      assert EdgeInChunk(nodes, edges, edgeLookup, e, c);
      if e in edges {
        assert EdgeChunks(ns, edges[e]) == EdgeChunks(nodes, edges[e]);
      }
    }
  }

  /** `nodes` with `id` appended to the edge lists of `a` and `b` (twice to one list when they coincide). */
  ghost predicate Attached(old_nodes: map<NodeId, Node>, nodes: map<NodeId, Node>, a: NodeId, b: NodeId, id: EdgeId)
  {
    nodes.Keys == old_nodes.Keys &&
    forall n :: n in nodes ==>
      nodes[n] == old_nodes[n].(edges := old_nodes[n].edges +
        Repeat(id, (if n == a then 1 else 0) + (if n == b then 1 else 0)))
  }

  /** A new edge, listed by both ends and in the chunks it is rasterised to, keeps the invariant. */
  lemma MakeEdgeKeeps(nodes: Inner<Node>, edges: Inner<Edge>,
                      nodeLookup: map<ChunkPos, seq<NodeId>>, edgeLookup: map<ChunkPos, seq<EdgeId>>,
                      ns: map<NodeId, Node>, id: EdgeId, e: Edge)
    requires StoreInv(nodes, edges, nodeLookup, edgeLookup)
    requires id == edges.idMaker + 1 && e.id == id
    requires e.nodes.0 in nodes.items && e.nodes.1 in nodes.items
    requires Attached(nodes.items, ns, e.nodes.0, e.nodes.1, id)
    ensures StoreInv(nodes.(items := ns), Inner(id, edges.items[id := e]), nodeLookup,
                     RegisterAll(edgeLookup, EdgeChunks(nodes.items, e), id))
  {
    var es := edges.items[id := e];
    assert id !in edges.items;
    assert EndsExist(ns, es) && Incidence(ns, es) && Keyed(ns, es) by {
      AttachedFacts(nodes.items, ns, e, id);
      AttachKeepsIncidence(nodes.items, ns, edges.items, e, id);
    }
    assert NodeBuckets(ns, nodeLookup) by {
      AttachedFacts(nodes.items, ns, e, id);
      NodesMoveNot(nodes.items, ns, nodeLookup);
    }
    assert EdgeBuckets(ns, es, RegisterAll(edgeLookup, EdgeChunks(nodes.items, e), id)) by {
      SamePositions(nodes.items, ns, edges.items, edgeLookup);
      AddEdgeToBuckets(ns, edges.items, edgeLookup, id, e);
      assert EdgeChunks(ns, e) == EdgeChunks(nodes.items, e);
    }
  }

  /** Changing nodes other than by position keeps the node index. */
  lemma NodesMoveNot(nodes: map<NodeId, Node>, ns: map<NodeId, Node>, lookup: map<ChunkPos, seq<NodeId>>)
    requires NodeBuckets(nodes, lookup)
    requires ns.Keys == nodes.Keys && forall n :: n in ns ==> ns[n].pos == nodes[n].pos
    ensures NodeBuckets(ns, lookup)
  {
    forall c, n ensures NodeListed(ns, lookup, c, n) {
      assert NodeListed(nodes, lookup, c, n);
    }
    forall n ensures NodeAtHome(ns, lookup, n) {
      assert NodeAtHome(nodes, lookup, n);
    }
  }

  /** What attaching an edge does to each node: same position, one more edge (or two for a loop). */
  lemma AttachedFacts(nodes: map<NodeId, Node>, ns: map<NodeId, Node>, e: Edge, id: EdgeId)
    requires Attached(nodes, ns, e.nodes.0, e.nodes.1, id)
    ensures forall n :: n in ns ==> ns[n].pos == nodes[n].pos && ns[n].id == nodes[n].id
    ensures forall n, x :: n in ns ==> (x in ns[n].edges <==> x in nodes[n].edges || (x == id && IsEnd(e, n)))
  {
    forall n, x | n in ns
      ensures x in ns[n].edges <==> x in nodes[n].edges || (x == id && IsEnd(e, n))
    {
      RepeatCount(id, (if n == e.nodes.0 then 1 else 0) + (if n == e.nodes.1 then 1 else 0), x);
    }
  }

  lemma AttachKeepsIncidence(nodes: map<NodeId, Node>, ns: map<NodeId, Node>, edges: map<EdgeId, Edge>, e: Edge, id: EdgeId)
    requires EndsExist(nodes, edges) && Incidence(nodes, edges) && Keyed(nodes, edges)
    requires id !in edges && e.id == id && e.nodes.0 in nodes && e.nodes.1 in nodes
    requires ns.Keys == nodes.Keys
    requires forall n :: n in ns ==> ns[n].pos == nodes[n].pos && ns[n].id == nodes[n].id
    requires forall n, x :: n in ns ==> (x in ns[n].edges <==> x in nodes[n].edges || (x == id && IsEnd(e, n)))
    ensures EndsExist(ns, edges[id := e]) && Incidence(ns, edges[id := e]) && Keyed(ns, edges[id := e])
  {
  }

  /** Registering a new edge in the chunks it is rasterised to keeps the edge index exact. */
  lemma AddEdgeToBuckets(ns: map<NodeId, Node>, edges: map<EdgeId, Edge>, edgeLookup: map<ChunkPos, seq<EdgeId>>,
                         id: EdgeId, e: Edge)
    requires EndsExist(ns, edges) && EdgeBuckets(ns, edges, edgeLookup)
    requires id !in edges && e.nodes.0 in ns && e.nodes.1 in ns
    ensures EndsExist(ns, edges[id := e])
    ensures EdgeBuckets(ns, edges[id := e], RegisterAll(edgeLookup, EdgeChunks(ns, e), id))
  {
    var es := edges[id := e];
    var cs := EdgeChunks(ns, e);
    RasteriseNoDuplicates(ns[e.nodes.0].pos, ns[e.nodes.1].pos);
    forall c ensures id !in Bucket(edgeLookup, c) {
      assert EdgeListed(ns, edges, edgeLookup, c, id);
    }
    RegisterFresh(edgeLookup, cs, id);
    var r := RegisterAll(edgeLookup, cs, id);
    forall c, x ensures EdgeListed(ns, es, r, c, x) {
      assert EdgeListed(ns, edges, edgeLookup, c, x);
    }
    forall x, c ensures EdgeInChunk(ns, es, r, x, c) {
      assert EdgeInChunk(ns, edges, edgeLookup, x, c);
    }
  }

  /**
   * Registering an id not yet listed anywhere, once in each of chunks without
   * repetitions, lists it in exactly those chunks and keeps every bucket free
   * of repetitions.
   */
  lemma RegisterFresh(m: map<ChunkPos, seq<Id>>, cs: seq<ChunkPos>, x: Id)
    requires BucketsOnce(m) && NoDuplicates(cs)
    requires forall c :: x !in Bucket(m, c)
    ensures BucketsOnce(RegisterAll(m, cs, x))
    ensures forall c, y :: y in Bucket(RegisterAll(m, cs, x), c) <==> y in Bucket(m, c) || (y == x && c in cs)
  {
    var r := RegisterAll(m, cs, x);
    forall c, y
      ensures ListedOnce(r, c, y)
      ensures y in Bucket(r, c) <==> y in Bucket(m, c) || (y == x && c in cs)
    {
      assert ListedOnce(m, c, y);
      RegisterAllBucket(m, cs, x, c);
      RepeatCount(x, multiset(cs)[c], y);
      NoDuplicatesCount(cs, c);
      assert multiset(Bucket(r, c)) == multiset(Bucket(m, c)) + multiset(Repeat(x, multiset(cs)[c]));
    }
  }

  // ----- Creation order -----

  /** How many of the two ends of `e` are `n`: two for a loop at `n`. */
  function EndCount(e: Edge, n: NodeId): nat
  {
    (if e.nodes.0 == n then 1 else 0) + (if e.nodes.1 == n then 1 else 0)
  }

  /**
   * The edges among ids `1..m` that have `n` as an end, by id, each listed
   * once per end at `n`: what `make_edge` calls in id order append to the
   * edge list of `n`.
   */
  ghost function IncidentUpTo(edges: map<EdgeId, Edge>, n: NodeId, m: nat): seq<EdgeId>
    decreases m
  {
    if m == 0 then []
    else IncidentUpTo(edges, n, m - 1) + (if m in edges then Repeat<EdgeId>(m, EndCount(edges[m], n)) else [])
  }

  /** The node index `add_node` calls in id order build from the nodes `1..m`. */
  ghost function NodeIndexUpTo(nodes: map<NodeId, Node>, m: nat): map<ChunkPos, seq<NodeId>>
    decreases m
  {
    if m == 0 then map[]
    else
      var prev := NodeIndexUpTo(nodes, m - 1);
      if m in nodes then Register<NodeId>(prev, FromWorldPos(nodes[m].pos), m) else prev
  }

  /** The edge index `make_edge` calls in id order build from the edges `1..m`. */
  ghost function EdgeIndexUpTo(nodes: map<NodeId, Node>, edges: map<EdgeId, Edge>, m: nat): map<ChunkPos, seq<EdgeId>>
    decreases m
  {
    if m == 0 then map[]
    else
      var prev := EdgeIndexUpTo(nodes, edges, m - 1);
      if m in edges && edges[m].nodes.0 in nodes && edges[m].nodes.1 in nodes
      then RegisterAll<EdgeId>(prev, EdgeChunks(nodes, edges[m]), m)
      else prev
  }

  /**
   * The store holds things in the order they were made: every node lists its
   * edges by id, and every bucket of the two indexes lists its ids in the
   * order `add_node` and `make_edge` registered them.
   */
  ghost predicate CreationOrder(nodes: Inner<Node>, edges: Inner<Edge>,
                                nodeLookup: map<ChunkPos, seq<NodeId>>, edgeLookup: map<ChunkPos, seq<EdgeId>>)
  {
    (forall n :: n in nodes.items ==> nodes.items[n].edges == IncidentUpTo(edges.items, n, edges.idMaker)) &&
    nodeLookup == NodeIndexUpTo(nodes.items, nodes.idMaker) &&
    edgeLookup == EdgeIndexUpTo(nodes.items, edges.items, edges.idMaker)
  }

  /** The edges incident to `n` depend only on the edges with ids up to `m`. */
  lemma {:induction false} IncidentSame(edges: map<EdgeId, Edge>, edges': map<EdgeId, Edge>, n: NodeId, m: nat)
    requires forall k :: 0 < k <= m ==> (k in edges <==> k in edges') && (k in edges ==> edges'[k] == edges[k])
    ensures IncidentUpTo(edges', n, m) == IncidentUpTo(edges, n, m)
    decreases m
  {
    if m > 0 {
      IncidentSame(edges, edges', n, m - 1);
    }
  }

  /** A node no edge touches lists no edge. */
  lemma {:induction false} IncidentNone(edges: map<EdgeId, Edge>, n: NodeId, m: nat)
    requires forall k :: k in edges ==> !IsEnd(edges[k], n)
    ensures IncidentUpTo(edges, n, m) == []
    decreases m
  {
    if m > 0 {
      IncidentNone(edges, n, m - 1);
    }
  }

  /** The node index depends only on the positions of the nodes with ids up to `m`. */
  lemma {:induction false} NodeIndexSame(nodes: map<NodeId, Node>, ns: map<NodeId, Node>, m: nat)
    requires forall k :: 0 < k <= m ==> (k in nodes <==> k in ns) && (k in nodes ==> ns[k].pos == nodes[k].pos)
    ensures NodeIndexUpTo(ns, m) == NodeIndexUpTo(nodes, m)
    decreases m
  {
    if m > 0 {
      NodeIndexSame(nodes, ns, m - 1);
    }
  }

  /** The edge index depends only on the edges with ids up to `m` and the positions of their ends. */
  lemma {:induction false} EdgeIndexSame(nodes: map<NodeId, Node>, ns: map<NodeId, Node>,
                                         edges: map<EdgeId, Edge>, edges': map<EdgeId, Edge>, m: nat)
    requires forall k :: 0 < k <= m ==> (k in edges <==> k in edges')
    requires forall k :: 0 < k <= m && k in edges ==>
      edges'[k] == edges[k] && edges[k].nodes.0 in nodes && edges[k].nodes.1 in nodes &&
      edges[k].nodes.0 in ns && edges[k].nodes.1 in ns &&
      ns[edges[k].nodes.0].pos == nodes[edges[k].nodes.0].pos && ns[edges[k].nodes.1].pos == nodes[edges[k].nodes.1].pos
    ensures EdgeIndexUpTo(ns, edges', m) == EdgeIndexUpTo(nodes, edges, m)
    decreases m
  {
    if m > 0 {
      EdgeIndexSame(nodes, ns, edges, edges', m - 1);
      if m in edges {
        assert EdgeChunks(ns, edges'[m]) == EdgeChunks(nodes, edges[m]);
      }
    }
  }

  /** `add_node` keeps the creation order: the new node lists no edge and comes last in its bucket. */
  lemma AddNodeInOrder(nodes: Inner<Node>, edges: Inner<Edge>,
                       nodeLookup: map<ChunkPos, seq<NodeId>>, edgeLookup: map<ChunkPos, seq<EdgeId>>,
                       id: NodeId, pos: Vec2)
    requires nodes.Issued() && EndsExist(nodes.items, edges.items)
    requires CreationOrder(nodes, edges, nodeLookup, edgeLookup)
    requires id == nodes.idMaker + 1
    ensures CreationOrder(Inner(id, nodes.items[id := Node(id, pos, [])]), edges,
                          Register(nodeLookup, FromWorldPos(pos), id), edgeLookup)
  {
    var ns := nodes.items[id := Node(id, pos, [])];
    assert id !in nodes.items;
    assert forall n :: n in ns ==> ns[n].edges == IncidentUpTo(edges.items, n, edges.idMaker) by {
      IncidentNone(edges.items, id, edges.idMaker);
    }
    assert NodeIndexUpTo(ns, id) == Register(nodeLookup, FromWorldPos(pos), id) by {
      NodeIndexSame(nodes.items, ns, nodes.idMaker);
    }
    assert EdgeIndexUpTo(ns, edges.items, edges.idMaker) == edgeLookup by {
      EdgeIndexSame(nodes.items, ns, edges.items, edges.items, edges.idMaker);
    }
  }

  /** `make_edge` keeps the creation order: its id comes last in the lists of its ends and in its buckets. */
  lemma MakeEdgeInOrder(nodes: Inner<Node>, edges: Inner<Edge>,
                        nodeLookup: map<ChunkPos, seq<NodeId>>, edgeLookup: map<ChunkPos, seq<EdgeId>>,
                        ns: map<NodeId, Node>, id: EdgeId, e: Edge)
    requires edges.Issued() && EndsExist(nodes.items, edges.items)
    requires CreationOrder(nodes, edges, nodeLookup, edgeLookup)
    requires id == edges.idMaker + 1
    requires e.nodes.0 in nodes.items && e.nodes.1 in nodes.items
    requires Attached(nodes.items, ns, e.nodes.0, e.nodes.1, id)
    ensures CreationOrder(nodes.(items := ns), Inner(id, edges.items[id := e]), nodeLookup,
                          RegisterAll(edgeLookup, EdgeChunks(nodes.items, e), id))
  {
    var m := edges.idMaker;
    assert m + 1 !in edges.items;
    assert forall n :: n in ns ==> ns[n].edges == IncidentUpTo(edges.items[m + 1 := e], n, m + 1) by {
      AttachInOrder(nodes.items, ns, edges.items, e, m);
    }
    assert ns.Keys == nodes.items.Keys && forall n :: n in ns ==> ns[n].pos == nodes.items[n].pos;
    assert NodeIndexUpTo(ns, nodes.idMaker) == nodeLookup by {
      NodeIndexSame(nodes.items, ns, nodes.idMaker);
    }
    assert EdgeIndexUpTo(ns, edges.items[m + 1 := e], m + 1) == RegisterAll<EdgeId>(edgeLookup, EdgeChunks(nodes.items, e), m + 1) by {
      EdgeIndexAttach(nodes.items, ns, edges.items, e, m);
    }
  }

  /** A new last edge extends the edge index by its registration in its chunks. */
  lemma EdgeIndexAttach(nodes: map<NodeId, Node>, ns: map<NodeId, Node>, edges: map<EdgeId, Edge>, e: Edge, m: nat)
    requires m + 1 !in edges && EndsExist(nodes, edges) && e.nodes.0 in nodes && e.nodes.1 in nodes
    requires ns.Keys == nodes.Keys && forall n :: n in ns ==> ns[n].pos == nodes[n].pos
    ensures EdgeIndexUpTo(ns, edges[m + 1 := e], m + 1) ==
            RegisterAll<EdgeId>(EdgeIndexUpTo(nodes, edges, m), EdgeChunks(nodes, e), m + 1)
  {
    EdgeIndexSame(nodes, ns, edges, edges[m + 1 := e], m);
  }

  /** Appending a new last edge `m + 1` to the lists of its ends keeps each list in id order. */
  lemma AttachInOrder(nodes: map<NodeId, Node>, ns: map<NodeId, Node>, edges: map<EdgeId, Edge>, e: Edge, m: nat)
    requires m + 1 !in edges
    requires forall n :: n in nodes ==> nodes[n].edges == IncidentUpTo(edges, n, m)
    requires Attached(nodes, ns, e.nodes.0, e.nodes.1, m + 1)
    ensures forall n :: n in ns ==> ns[n].edges == IncidentUpTo(edges[m + 1 := e], n, m + 1)
  {
    forall n | n in ns
      ensures ns[n].edges == IncidentUpTo(edges[m + 1 := e], n, m + 1)
    {
      assert n in nodes;
      assert ns[n].edges == nodes[n].edges + Repeat<EdgeId>(m + 1, EndCount(e, n));
      IncidentSnoc(edges, e, m, n);
    }
  }

  /** The edges incident to `n` up to a new last edge `m + 1`: those before it, then `m + 1` once per end at `n`. */
  lemma IncidentSnoc(edges: map<EdgeId, Edge>, e: Edge, m: nat, n: NodeId)
    requires m + 1 !in edges
    ensures IncidentUpTo(edges[m + 1 := e], n, m + 1) == IncidentUpTo(edges, n, m) + Repeat<EdgeId>(m + 1, EndCount(e, n))
  {
    IncidentSame(edges, edges[m + 1 := e], n, m);
  }

  /**
   * `NodeManager`: the node and edge stores, the chunk indexes of both, and
   * the scratch list of the last node collision query. The selection fields
   * the user interface keeps here are not part of the model.
   */
  class NodeManager {
    var nodes: Inner<Node>
    var edges: Inner<Edge>
    var nodeLookup: map<ChunkPos, seq<NodeId>>
    var edgeLookup: map<ChunkPos, seq<EdgeId>>
    /** The ids the last node collision query examined, in order. */
    var testedNodes: seq<NodeId>

    /**
     * Ids come from the counters, every item is stored under its id, edges
     * join stored nodes that list them, and both indexes are exact.
     */
    ghost predicate Valid()
      reads this
    {
      StoreInv(nodes, edges, nodeLookup, edgeLookup)
    }

    /** Every node lists its edges, and every bucket its ids, in the order they were made. */
    ghost predicate InOrder()
      reads this
    {
      CreationOrder(nodes, edges, nodeLookup, edgeLookup)
    }

    /** The part of the invariant the graph queries rely on: edges join stored nodes that list them. */
    ghost predicate Graph()
      reads this
    {
      EndsExist(nodes.items, edges.items) && Incidence(nodes.items, edges.items)
    }

    /**
     * `NodeManager::new`: the demo grid. Eleven columns of eleven nodes, 100
     * apart, are added column by column from (-500, -500), so 121 nodes;
     * then every column is joined bottom to top (the middle one with speed 2
     * and 16 lanes, the others with speed 1 and 12 lanes), and every row left
     * to right with speed 1 and 12 lanes, so 220 edges. Each node lists its
     * edges, and each bucket its ids, in the order they were made; so a
     * grid node lists the column edge below it, the one above it, the row
     * edge on its left and the one on its right, those the grid has.
     */
    constructor()
      ensures Valid() && InOrder() && testedNodes == []
      ensures nodes.idMaker == 121 && edges.idMaker == 220
      ensures GridNodes(nodes.items) && ColumnEdges(edges.items) && RowEdges(edges.items)
      ensures GridEdgeLists(nodes.items)
    {
      nodes := Inner(0, map[]);
      edges := Inner(0, map[]);
      nodeLookup := map[];
      edgeLookup := map[];
      testedNodes := [];
      new;
      EmptyStore();
      var ids := AddGridNodes();
      AddColumnEdges(ids);
      AddRowEdges(ids);
      GridListsFromOrder(nodes.items, edges.items);
    }

    /** The node loop of `new`: column `x` from bottom to top, for each `x` from left to right. */
    method AddGridNodes() returns (ids: seq<seq<NodeId>>)
      requires Valid() && InOrder() && nodes.idMaker == 0
      modifies this
      ensures Valid() && InOrder() && nodes.idMaker == 121
      ensures GridNodes(nodes.items) && IdTable(ids)
      ensures edges == old(edges) && testedNodes == old(testedNodes)
    {
      ids := [];
      for i := 0 to GridLen
        invariant Valid() && InOrder() && nodes.idMaker == i * 11 && |ids| == i
        invariant ColumnsPlaced(nodes.items, i)
        invariant forall k :: 0 <= k < i ==> IdColumn(ids[k], k - GridRadius)
        invariant edges == old(edges) && testedNodes == old(testedNodes)
      {
        ghost var before := nodes.items;
        var column := AddGridColumn(i - GridRadius);
        ColumnsPlacedGrow(before, nodes.items, i);
        ids := ids + [column];
      }
    }

    /** The inner node loop of `new`: the nodes of column `x`, from bottom to top. */
    method AddGridColumn(x: int) returns (column: seq<NodeId>)
      requires Valid() && InOrder() && -GridRadius <= x <= GridRadius && nodes.idMaker == (x + 5) * 11
      modifies this
      ensures Valid() && InOrder() && nodes.idMaker == (x + 6) * 11
      ensures IdColumn(column, x) && RowsPlaced(nodes.items, x, GridLen)
      ensures Keeps(old(nodes.items), nodes.items)
      ensures edges == old(edges) && testedNodes == old(testedNodes)
    {
      column := [];
      for j := 0 to GridLen
        invariant Valid() && InOrder() && nodes.idMaker == (x + 5) * 11 + j && |column| == j
        invariant forall k :: 0 <= k < j ==> column[k] == GridId(x, k - GridRadius)
        invariant RowsPlaced(nodes.items, x, j)
        invariant Keeps(old(nodes.items), nodes.items)
        invariant edges == old(edges) && testedNodes == old(testedNodes)
      {
        var y := j - GridRadius;
        ghost var before := nodes.items;
        var id := AddNode(Vec2(x as real * 100.0, y as real * 100.0));
        RowsPlacedGrow(old(nodes.items), before, nodes.items, x, j, Node(id, Vec2(x as real * 100.0, y as real * 100.0), []));
        column := column + [id];
      }
    }

    /** The column loop of `new`: each column joined bottom to top, left to right. */
    method AddColumnEdges(ids: seq<seq<NodeId>>)
      requires Valid() && InOrder() && GridNodes(nodes.items) && IdTable(ids) && edges.idMaker == 0
      modifies this
      ensures Valid() && InOrder() && GridNodes(nodes.items) && ColumnEdges(edges.items)
      ensures edges.idMaker == 110 && nodes.idMaker == old(nodes.idMaker)
      ensures testedNodes == old(testedNodes)
    {
      for i := 0 to GridLen
        invariant Valid() && InOrder() && GridNodes(nodes.items) && nodes.idMaker == old(nodes.idMaker)
        invariant edges.idMaker == i * 10
        invariant ColumnsLinked(edges.items, i)
        invariant testedNodes == old(testedNodes)
      {
        assert IdColumn(ids[i], i - GridRadius);
        ghost var before := edges.items;
        AddColumnLinks(i - GridRadius, ids[i]);
        ColumnsLinkedGrow(before, edges.items, i);
      }
    }

    /** The edges of one column: each node joined to the one before it. */
    method AddColumnLinks(x: int, column: seq<NodeId>)
      requires Valid() && InOrder() && GridNodes(nodes.items) && -GridRadius <= x <= GridRadius && IdColumn(column, x)
      requires edges.idMaker == (x + 5) * 10
      modifies this
      ensures Valid() && InOrder() && GridNodes(nodes.items) && nodes.idMaker == old(nodes.idMaker)
      ensures edges.idMaker == (x + 6) * 10
      ensures ColumnLinks(edges.items, x, 10)
      ensures Keeps(old(edges.items), edges.items)
      ensures testedNodes == old(testedNodes)
    {
      var lastNode: Option<NodeId> := None;
      for k := 0 to GridLen
        invariant Valid() && InOrder() && GridNodes(nodes.items) && nodes.idMaker == old(nodes.idMaker)
        invariant lastNode == if k == 0 then None else Some(column[k - 1])
        invariant edges.idMaker == (x + 5) * 10 + (if k == 0 then 0 else k - 1)
        invariant ColumnLinks(edges.items, x, if k == 0 then 0 else k - 1)
        invariant Keeps(old(edges.items), edges.items)
        invariant testedNodes == old(testedNodes)
      {
        var node := column[k];
        if lastNode.Some? {
          AddColumnLink(x, k - 1, lastNode.value, node, old(edges.items));
        }
        lastNode := Some(node);
      }
    }

    /** One round of the column loop of `new`: the edge from node `a` up to node `b`. */
    method AddColumnLink(x: int, j: int, a: NodeId, b: NodeId, ghost start: map<EdgeId, Edge>)
      requires Valid() && InOrder() && GridNodes(nodes.items) && -GridRadius <= x <= GridRadius
      requires 0 <= j < 2 * GridRadius && a == GridId(x, j - GridRadius) && b == GridId(x, j + 1 - GridRadius)
      requires edges.idMaker == (x + 5) * 10 + j
      requires ColumnLinks(edges.items, x, j) && Keeps(start, edges.items)
      modifies this
      ensures Valid() && InOrder() && GridNodes(nodes.items) && nodes.idMaker == old(nodes.idMaker)
      ensures edges.idMaker == (x + 5) * 10 + j + 1
      ensures ColumnLinks(edges.items, x, j + 1) && Keeps(start, edges.items)
      ensures testedNodes == old(testedNodes)
    {
      ghost var edgesBefore := edges.items;
      assert NodeAt(nodes.items, x, j - GridRadius) && NodeAt(nodes.items, x, j + 1 - GridRadius);
      var id := MakeGridEdge(a, b, ColumnSpeed(x), ColumnLanes(x));
      ColumnLinksGrow(start, edgesBefore, edges.items, x, j, id, a, b, ColumnSpeed(x), ColumnLanes(x));
    }

    /** The row loop of `new`: each row joined left to right, bottom to top. */
    method AddRowEdges(ids: seq<seq<NodeId>>)
      requires Valid() && InOrder() && GridNodes(nodes.items) && IdTable(ids) && ColumnEdges(edges.items)
      requires edges.idMaker == 110
      modifies this
      ensures Valid() && InOrder() && GridNodes(nodes.items) && ColumnEdges(edges.items) && RowEdges(edges.items)
      ensures edges.idMaker == 220 && nodes.idMaker == old(nodes.idMaker)
      ensures testedNodes == old(testedNodes)
    {
      for i := 0 to GridLen
        invariant Valid() && InOrder() && GridNodes(nodes.items) && ColumnEdges(edges.items)
        invariant nodes.idMaker == old(nodes.idMaker)
        invariant edges.idMaker == 110 + i * 10
        invariant RowsLinked(edges.items, i)
        invariant testedNodes == old(testedNodes)
      {
        ghost var before := edges.items;
        AddRowLinks(i - GridRadius, ids);
        RowsLinkedGrow(before, edges.items, i);
        ColumnEdgesKept(before, edges.items);
      }
    }

    /** The edges of one row: each node joined to the one left of it. */
    method AddRowLinks(y: int, ids: seq<seq<NodeId>>)
      requires Valid() && InOrder() && GridNodes(nodes.items) && -GridRadius <= y <= GridRadius && IdTable(ids)
      requires edges.idMaker == 110 + (y + 5) * 10
      modifies this
      ensures Valid() && InOrder() && GridNodes(nodes.items) && nodes.idMaker == old(nodes.idMaker)
      ensures edges.idMaker == 110 + (y + 6) * 10
      ensures RowLinks(edges.items, y, 10)
      ensures Keeps(old(edges.items), edges.items)
      ensures testedNodes == old(testedNodes)
    {
      var lastNode: Option<NodeId> := None;
      for k := 0 to GridLen
        invariant Valid() && InOrder() && GridNodes(nodes.items) && nodes.idMaker == old(nodes.idMaker)
        invariant lastNode == if k == 0 then None else Some(GridId(k - 1 - GridRadius, y))
        invariant edges.idMaker == 110 + (y + 5) * 10 + (if k == 0 then 0 else k - 1)
        invariant RowLinks(edges.items, y, if k == 0 then 0 else k - 1)
        invariant Keeps(old(edges.items), edges.items)
        invariant testedNodes == old(testedNodes)
      {
        assert IdColumn(ids[k], k - GridRadius);
        var node := ids[k][y + GridRadius];
        if lastNode.Some? {
          AddRowLink(y, k - 1, lastNode.value, node, old(edges.items));
        }
        lastNode := Some(node);
      }
    }

    /** One round of the row loop of `new`: the edge from node `a` right to node `b`. */
    method AddRowLink(y: int, j: int, a: NodeId, b: NodeId, ghost start: map<EdgeId, Edge>)
      requires Valid() && InOrder() && GridNodes(nodes.items) && -GridRadius <= y <= GridRadius
      requires 0 <= j < 2 * GridRadius && a == GridId(j - GridRadius, y) && b == GridId(j + 1 - GridRadius, y)
      requires edges.idMaker == 110 + (y + 5) * 10 + j
      requires RowLinks(edges.items, y, j) && Keeps(start, edges.items)
      modifies this
      ensures Valid() && InOrder() && GridNodes(nodes.items) && nodes.idMaker == old(nodes.idMaker)
      ensures edges.idMaker == 110 + (y + 5) * 10 + j + 1
      ensures RowLinks(edges.items, y, j + 1) && Keeps(start, edges.items)
      ensures testedNodes == old(testedNodes)
    {
      ghost var edgesBefore := edges.items;
      assert NodeAt(nodes.items, j - GridRadius, y) && NodeAt(nodes.items, j + 1 - GridRadius, y);
      var id := MakeGridEdge(a, b, 1.0, 12);
      RowLinksGrow(start, edgesBefore, edges.items, y, j, id, a, b);
    }

    /** `make_edge` between two grid nodes, which moves none of them and keeps the creation order. */
    method MakeGridEdge(a: NodeId, b: NodeId, speed: real, size: u8) returns (id: EdgeId)
      requires Valid() && InOrder() && GridNodes(nodes.items)
      requires a in nodes.items && b in nodes.items
      requires 1 <= size <= MaxLanes
      modifies this
      ensures Valid() && InOrder() && GridNodes(nodes.items) && nodes.idMaker == old(nodes.idMaker)
      ensures id == old(edges.idMaker) + 1 && id !in old(edges.items)
      ensures edges == Inner(id, old(edges.items)[id := Edge.Edge(id, (a, b), speed, NewLaneDefinition(size).value)])
      ensures nodeLookup == old(nodeLookup) && testedNodes == old(testedNodes)
    {
      ghost var before := nodes.items;
      id := MakeEdge(a, b, speed, size);
      GridNodesAttached(before, nodes.items, a, b, id);
    }

    /** `add_node`: a new node at `pos` with no edges, listed in its home chunk. */
    method AddNode(pos: Vec2) returns (id: NodeId)
      requires Valid()
      modifies this
      ensures Valid()
      ensures id == old(nodes.idMaker) + 1 && id !in old(nodes.items)
      ensures nodes == Inner(id, old(nodes.items)[id := Node(id, pos, [])])
      ensures nodeLookup == Register(old(nodeLookup), FromWorldPos(pos), id)
      ensures edges == old(edges) && edgeLookup == old(edgeLookup) && testedNodes == old(testedNodes)
      ensures old(InOrder()) ==> InOrder()
    {
      ghost var n0, e0, nl0, el0 := nodes, edges, nodeLookup, edgeLookup;
      ghost var after := Inner(nodes.idMaker + 1, nodes.items[nodes.idMaker + 1 := Node(nodes.idMaker + 1, pos, [])]);
      ghost var lookupAfter := Register(nodeLookup, FromWorldPos(pos), nodes.idMaker + 1);
      AddNodeKeeps(nodes, edges, nodeLookup, edgeLookup, nodes.idMaker + 1, pos);
      var issued := nodes.GetId();
      id := issued.0;
      nodes := issued.1.(items := issued.1.items[id := Node(id, pos, [])]);
      nodeLookup := Register(nodeLookup, FromWorldPos(pos), id);
      assert nodes == after && nodeLookup == lookupAfter;
      if CreationOrder(n0, e0, nl0, el0) {
        AddNodeInOrder(n0, e0, nl0, el0, id, pos);
        assert CreationOrder(after, e0, lookupAfter, el0);
      }
    }

    /**
     * The "add edge to lookup" part of `make_edge`: registers `id` in the
     * chunks of the segment `ab`, with the same three cases and loops.
     */
    method RegisterEdgeChunks(a: Vec2, b: Vec2, id: EdgeId)
      modifies this`edgeLookup
      ensures edgeLookup == RegisterAll(old(edgeLookup), Rasterise(a, b), id)
      ensures nodes == old(nodes) && edges == old(edges)
      ensures nodeLookup == old(nodeLookup) && testedNodes == old(testedNodes)
    {
      var chunkA := FromWorldPos(a);
      var chunkB := FromWorldPos(b);
      if chunkA == chunkB {
        RegisterAllSnoc(edgeLookup, [], chunkA, id);
        edgeLookup := Register(edgeLookup, chunkA, id);
      } else if chunkA.x == chunkB.x || chunkA.y == chunkB.y {
        RegisterStraight(a, b, id);
      } else {
        var ab := b.Sub(a);
        match ab.GetMaxAxis()
        case Some(axis) =>
          RegisterSlope(a, b, axis, id);
        case None =>
          RegisterDiagonal(a, b, id);
      }
    }

    /** Registers `id` in both end chunks, the first steps of every case with distinct ends. */
    method RegisterEnds(chunkA: ChunkPos, chunkB: ChunkPos, id: EdgeId)
      modifies this`edgeLookup
      ensures edgeLookup == RegisterAll(old(edgeLookup), [chunkA, chunkB], id)
      ensures nodes == old(nodes) && edges == old(edges)
      ensures nodeLookup == old(nodeLookup) && testedNodes == old(testedNodes)
    {
      RegisterAllSnoc(edgeLookup, [], chunkA, id);
      RegisterAllSnoc(edgeLookup, [chunkA], chunkB, id);
      assert [chunkA] + [chunkB] == [chunkA, chunkB];
      edgeLookup := Register(edgeLookup, chunkA, id);
      edgeLookup := Register(edgeLookup, chunkB, id);
    }

    /** End chunks on one row or column: every chunk between them, stepping by `step * offset`. */
    method RegisterStraight(a: Vec2, b: Vec2, id: EdgeId)
      requires FromWorldPos(a) != FromWorldPos(b)
      requires FromWorldPos(a).x == FromWorldPos(b).x || FromWorldPos(a).y == FromWorldPos(b).y
      modifies this`edgeLookup
      ensures edgeLookup == RegisterAll(old(edgeLookup), Rasterise(a, b), id)
      ensures nodes == old(nodes) && edges == old(edges)
      ensures nodeLookup == old(nodeLookup) && testedNodes == old(testedNodes)
    {
      ghost var lookup0 := edgeLookup;
      var chunkA := FromWorldPos(a);
      var chunkB := FromWorldPos(b);
      var spam := chunkB.Sub(chunkA);
      RasteriseIsStraight(a, b);
      var axis := spam.AbsV().GetMaxAxis().value;
      StepCount(chunkA, chunkB, axis);
      var steps := spam.AbsV().GetComp(axis) + 1;
      RegisterEnds(chunkA, chunkB, id);
      var offset := spam.SignumV().GetComp(axis);
      RegisterStraightSteps(chunkA, axis, offset, steps, id);
      RegisterAllAppend(lookup0, [chunkA, chunkB], AxisRun(chunkA, axis, offset, InnerSteps(steps)), id);
    }

    /** Steps 1 to `steps - 2` along one row or column. */
    method RegisterStraightSteps(chunkA: ChunkPos, axis: Axis, offset: int, steps: int, id: EdgeId)
      modifies this`edgeLookup
      ensures edgeLookup == RegisterAll(old(edgeLookup), AxisRun(chunkA, axis, offset, InnerSteps(steps)), id)
      ensures nodes == old(nodes) && edges == old(edges)
      ensures nodeLookup == old(nodeLookup) && testedNodes == old(testedNodes)
    {
      ghost var lookup0 := edgeLookup;
      ghost var run := AxisRun(chunkA, axis, offset, InnerSteps(steps));
      assert run[..0] == [];
      if steps > 2 {
        for step := 1 to steps - 1
          invariant edgeLookup == RegisterAll(lookup0, run[..step - 1], id)
        {
          var chunk := chunkA.WithOffsetOn(axis, step * offset);
          assert run[step - 1] == chunk;
          assert run[..step] == run[..step - 1] + [chunk];
          RegisterAllSnoc(lookup0, run[..step - 1], chunk, id);
          edgeLookup := Register(edgeLookup, chunk, id);
        }
      }
      assert run[..InnerSteps(steps)] == run;
    }

    /**
     * The general case: one chunk per step along the axis of the larger
     * signed coordinate difference, its other coordinate the one the
     * line crosses at the middle of that column.
     */
    method RegisterSlope(a: Vec2, b: Vec2, axis: Axis, id: EdgeId)
      requires FromWorldPos(a).x != FromWorldPos(b).x && FromWorldPos(a).y != FromWorldPos(b).y
      requires b.Sub(a).GetMaxAxis() == Some(axis)
      modifies this`edgeLookup
      ensures edgeLookup == RegisterAll(old(edgeLookup), Rasterise(a, b), id)
      ensures nodes == old(nodes) && edges == old(edges)
      ensures nodeLookup == old(nodeLookup) && testedNodes == old(testedNodes)
    {
      ghost var lookup0 := edgeLookup;
      var chunkA := FromWorldPos(a);
      var chunkB := FromWorldPos(b);
      var spam := chunkB.Sub(chunkA);
      var steps := spam.AbsV().GetComp(axis) + 1;
      SlopeCase(a, b, axis);
      RegisterEnds(chunkA, chunkB, id);
      var offset := spam.SignumV().GetComp(axis);
      RegisterSlopeSteps(a, b, chunkA, axis, offset, steps, id);
      RegisterAllAppend(lookup0, [chunkA, chunkB], SlopeRun(a, b, chunkA, axis, offset, InnerSteps(steps)), id);
    }

    /** Steps 1 to `steps - 2` of the general case. */
    method RegisterSlopeSteps(a: Vec2, b: Vec2, chunkA: ChunkPos, axis: Axis, offset: int, steps: int, id: EdgeId)
      requires b.GetComp(axis) != a.GetComp(axis)
      modifies this`edgeLookup
      ensures edgeLookup == RegisterAll(old(edgeLookup), SlopeRun(a, b, chunkA, axis, offset, InnerSteps(steps)), id)
      ensures nodes == old(nodes) && edges == old(edges)
      ensures nodeLookup == old(nodeLookup) && testedNodes == old(testedNodes)
    {
      ghost var lookup0 := edgeLookup;
      ghost var run := SlopeRun(a, b, chunkA, axis, offset, InnerSteps(steps));
      assert run[..0] == [];
      if steps > 2 {
        var chunk := chunkA;
        for step := 1 to steps - 1
          invariant edgeLookup == RegisterAll(lookup0, run[..step - 1], id)
          invariant chunk == chunkA.WithOffsetOn(axis, (step - 1) * offset)
        {
          OffsetsAdd(chunkA, axis, (step - 1) * offset, offset);
          NextMultiple(step, offset);
          chunk := chunk.WithOffsetOn(axis, offset);
          // main_comp, other_comp and with_comp of the source
          var cell := SlopeCell(a, b, axis, chunk);
          assert run[step - 1] == cell;
          assert run[..step] == run[..step - 1] + [cell];
          RegisterAllSnoc(lookup0, run[..step - 1], cell, id);
          edgeLookup := Register(edgeLookup, cell, id);
        }
      }
      assert run[..InnerSteps(steps)] == run;
    }

    /** A perfect diagonal: one chunk per step on both axes together. */
    method RegisterDiagonal(a: Vec2, b: Vec2, id: EdgeId)
      requires FromWorldPos(a).x != FromWorldPos(b).x && FromWorldPos(a).y != FromWorldPos(b).y
      requires b.Sub(a).GetMaxAxis() == None
      modifies this`edgeLookup
      ensures edgeLookup == RegisterAll(old(edgeLookup), Rasterise(a, b), id)
      ensures nodes == old(nodes) && edges == old(edges)
      ensures nodeLookup == old(nodeLookup) && testedNodes == old(testedNodes)
    {
      ghost var lookup0 := edgeLookup;
      var chunkA := FromWorldPos(a);
      var chunkB := FromWorldPos(b);
      var spam := chunkB.Sub(chunkA);
      var steps := spam.AbsV().GetComp(X) + 1;
      StepCount(chunkA, chunkB, X);
      RasteriseIsDiagonal(a, b);
      RegisterEnds(chunkA, chunkB, id);
      var offset := spam.SignumV().GetComp(X);
      RegisterDiagonalSteps(chunkA, offset, steps, id);
      RegisterAllAppend(lookup0, [chunkA, chunkB], DiagonalRun(chunkA, offset, InnerSteps(steps)), id);
    }

    /** Steps 1 to `steps - 2` of a perfect diagonal. */
    method RegisterDiagonalSteps(chunkA: ChunkPos, offset: int, steps: int, id: EdgeId)
      modifies this`edgeLookup
      ensures edgeLookup == RegisterAll(old(edgeLookup), DiagonalRun(chunkA, offset, InnerSteps(steps)), id)
      ensures nodes == old(nodes) && edges == old(edges)
      ensures nodeLookup == old(nodeLookup) && testedNodes == old(testedNodes)
    {
      ghost var lookup0 := edgeLookup;
      ghost var run := DiagonalRun(chunkA, offset, InnerSteps(steps));
      assert run[..0] == [];
      if steps > 2 {
        var chunk := chunkA;
        for step := 1 to steps - 1
          invariant edgeLookup == RegisterAll(lookup0, run[..step - 1], id)
          invariant chunk == IVec2(chunkA.x + (step - 1) * offset, chunkA.y + (step - 1) * offset)
        {
          NextMultiple(step, offset);
          chunk := chunk.WithOffsetOn(X, offset).WithOffsetOn(Y, offset);
          assert run[step - 1] == chunk;
          assert run[..step] == run[..step - 1] + [chunk];
          RegisterAllSnoc(lookup0, run[..step - 1], chunk, id);
          edgeLookup := Register(edgeLookup, chunk, id);
        }
      }
      assert run[..InnerSteps(steps)] == run;
    }

    /**
     * `make_edge`: a new edge from `a` to `b`, appended to the edge lists of
     * both ends (twice to one list for a loop) and registered in the chunks
     * of its segment. A missing end node or a lane count outside 1..=40 panics.
     */
    method MakeEdge(a: NodeId, b: NodeId, speed: real, size: u8) returns (id: EdgeId)
      requires Valid()
      requires a in nodes.items && b in nodes.items
      requires 1 <= size <= MaxLanes
      modifies this
      ensures Valid()
      ensures id == old(edges.idMaker) + 1 && id !in old(edges.items)
      ensures edges == Inner(id, old(edges.items)[id := Edge.Edge(id, (a, b), speed, NewLaneDefinition(size).value)])
      ensures nodes.idMaker == old(nodes.idMaker)
      ensures Attached(old(nodes.items), nodes.items, a, b, id)
      ensures edgeLookup == RegisterAll(old(edgeLookup), Rasterise(old(nodes.items)[a].pos, old(nodes.items)[b].pos), id)
      ensures nodeLookup == old(nodeLookup) && testedNodes == old(testedNodes)
      ensures old(InOrder()) ==> InOrder()
    {
      ghost var n0, e0, nl0, el0 := nodes, edges, nodeLookup, edgeLookup;
      var issued := edges.GetId();
      id := issued.0;
      var e := Edge.Edge(id, (a, b), speed, NewLaneDefinition(size).value);
      MakeEdgeKeeps(nodes, edges, nodeLookup, edgeLookup, AttachBoth(nodes.items, a, b, id), id, e);
      var posA, posB := AttachEdge(e);
      RegisterEdgeChunks(posA, posB, id);
      if CreationOrder(n0, e0, nl0, el0) {
        MakeEdgeInOrder(n0, e0, nl0, el0, nodes.items, id, e);
      }
    }

    /**
     * The first half of `make_edge`: stores `e` under its id, which becomes
     * the counter's value, and appends the id to the edge lists of its ends.
     */
    method AttachEdge(e: Edge) returns (posA: Vec2, posB: Vec2)
      requires e.nodes.0 in nodes.items && e.nodes.1 in nodes.items
      modifies this`nodes, this`edges
      ensures posA == old(nodes.items)[e.nodes.0].pos && posB == old(nodes.items)[e.nodes.1].pos
      ensures nodes == old(nodes).(items := AttachBoth(old(nodes.items), e.nodes.0, e.nodes.1, e.id))
      ensures edges == Inner(e.id, old(edges.items)[e.id := e])
      ensures edgeLookup == old(edgeLookup) && nodeLookup == old(nodeLookup) && testedNodes == old(testedNodes)
    {
      edges := Inner(e.id, edges.items[e.id := e]);
      var nodeA := nodes.items[e.nodes.0];
      nodes := nodes.(items := nodes.items[e.nodes.0 := nodeA.(edges := nodeA.edges + [e.id])]);
      posA := nodeA.pos;
      var nodeB := nodes.items[e.nodes.1];
      nodes := nodes.(items := nodes.items[e.nodes.1 := nodeB.(edges := nodeB.edges + [e.id])]);
      posB := nodeB.pos;
    }

    /**
     * `Node::get_neighbours`: for each edge of node `n`, in order, the node at
     * its other end and the edge. The output vector is cleared first, so only
     * the new entries are returned.
     */
    method GetNeighbours(n: NodeId) returns (vec: seq<(NodeId, EdgeId)>)
      requires Graph() && n in nodes.items
      ensures |vec| == |nodes.items[n].edges|
      ensures forall i :: 0 <= i < |vec| ==>
          vec[i].1 == nodes.items[n].edges[i] && vec[i].1 in edges.items &&
          multiset{n, vec[i].0} == multiset{edges.items[vec[i].1].nodes.0, edges.items[vec[i].1].nodes.1}
    {
      vec := [];
      var es := nodes.items[n].edges;
      for i := 0 to |es|
        invariant |vec| == i
        invariant forall j :: 0 <= j < i ==>
            vec[j].1 == es[j] && vec[j].1 in edges.items &&
            multiset{n, vec[j].0} == multiset{edges.items[vec[j].1].nodes.0, edges.items[vec[j].1].nodes.1}
      {
        var edge := edges.items[es[i]];
        vec := vec + [(GetOtherNode(edge, n), es[i])];
      }
    }

    /**
     * `Node::find_edge`: the first edge of `n` whose other end is `other`,
     * or `None` when no edge of `n` leads there.
     */
    method FindEdge(n: NodeId, other: NodeId) returns (r: Option<EdgeId>, ghost at: nat)
      requires Graph() && n in nodes.items
      ensures r.None? <==> !Links(nodes.items, edges.items, n, other)
      ensures r.Some? ==> at < |nodes.items[n].edges| && nodes.items[n].edges[at] == r.value &&
                          FirstLink(nodes.items, edges.items, n, other, at)
    {
      var es := nodes.items[n].edges;
      for i := 0 to |es|
        invariant forall j :: 0 <= j < i ==> GetOtherNode(edges.items[es[j]], n) != other
      {
        if GetOtherNode(edges.items[es[i]], n) == other {
          assert FirstLink(nodes.items, edges.items, n, other, i);
          return Some(es[i]), i;
        }
      }
      return None, 0;
    }

    /**
     * `reconstruct_path`: follows `came_from` from `goal`, appending for each
     * link the first edge of the node joining it to the next, until a node
     * without a link. The edges run from the goal back towards the start;
     * `chain` is the sequence of nodes passed, link by link.
     * The ranking of the links, which `a_star` maintains, makes the loop end.
     */
    method ReconstructPath(cameFrom: map<NodeId, NodeId>, goal: NodeId,
                           ghost g: map<NodeId, real>, ghost stamp: map<NodeId, nat>)
      returns (vec: seq<EdgeId>, ghost last: NodeId, ghost chain: seq<NodeId>, ghost idx: seq<nat>)
      requires Graph() && goal in g && goal in stamp
      requires Ranked(nodes.items, edges.items, cameFrom, g, stamp)
      ensures IsWalk(edges.items, goal, vec, last)
      ensures last in g && last !in cameFrom
      ensures goal !in cameFrom ==> vec == []
      ensures |chain| == |vec| + 1 && chain[0] == goal && chain[|vec|] == last
      ensures FollowsCameFrom(nodes.items, edges.items, cameFrom, chain, vec, idx)
    {
      vec := [];
      var lastNode := goal;
      chain, idx := [goal], [];
      ghost var visited: set<NodeId> := {};
      ghost var ns, es := nodes.items, edges.items;
      while lastNode in cameFrom
        invariant nodes.items == ns && edges.items == es
        invariant lastNode in g && lastNode in stamp
        invariant IsWalk(es, goal, vec, lastNode)
        invariant |chain| == |vec| + 1 && chain[0] == goal && chain[|vec|] == lastNode
        invariant FollowsCameFrom(ns, es, cameFrom, chain, vec, idx)
        invariant visited <= cameFrom.Keys && lastNode !in visited
        invariant Outranks(g, stamp, visited, lastNode)
        invariant goal !in cameFrom ==> vec == []
        decreases |cameFrom.Keys - visited|
      {
        var next := cameFrom[lastNode];
        assert LinksBack(ns, es, cameFrom, g, stamp, lastNode);
        var found, j := FindEdge(lastNode, next);
        var e := found.value;
        ReconstructStep(ns, es, cameFrom, g, stamp, goal, vec, chain, idx, visited, lastNode, e, j);
        vec := vec + [e];
        chain, idx := chain + [next], idx + [j];
        visited := visited + {lastNode};
        lastNode := next;
      }
      last := lastNode;
    }

    /**
     * One relaxation of `a_star`: the g-score through `current` over `path`
     * replaces that of `neighbour` only when strictly smaller (a missing one
     * counts as infinite); then `neighbour` is linked to `current` and
     * pushed with its f-score. Otherwise nothing changes.
     */
    method Relax(openSet: AStarHeap<NodeId>, current: NodeId, neighbour: NodeId, path: EdgeId, goalPos: Vec2,
                 h: (Vec2, Vec2) -> real, dist: (Vec2, Vec2) -> real,
                 cameFrom: map<NodeId, NodeId>, g: map<NodeId, real>)
      returns (cameFrom': map<NodeId, NodeId>, g': map<NodeId, real>, tentative: real)
      requires openSet.Valid()
      requires current in g && current in nodes.items && neighbour in nodes.items && path in edges.items
      requires dist(nodes.items[current].pos, nodes.items[neighbour].pos) >= 0.0
      requires edges.items[path].speed > 0.0
      modifies openSet, openSet.heap
      ensures openSet.Valid()
      ensures tentative == old(g[current] + dist(nodes.items[current].pos, nodes.items[neighbour].pos) / edges.items[path].speed)
      ensures tentative >= g[current]
      ensures Relaxed(cameFrom, g, current, neighbour, tentative, cameFrom', g')
      ensures Improves(g, neighbour, tentative) ==> openSet.weights.Keys == old(openSet.weights).Keys + {neighbour}
      ensures Improves(g, neighbour, tentative) ==>
        var f := tentative + h(nodes.items[neighbour].pos, goalPos);
        openSet.weights == if neighbour in old(openSet.weights) && f >= old(openSet.weights)[neighbour]
                           then old(openSet.weights) else old(openSet.weights)[neighbour := f]
      ensures !Improves(g, neighbour, tentative) ==> openSet.weights == old(openSet.weights)
    {
      var d := dist(nodes.items[current].pos, nodes.items[neighbour].pos);
      CostNonNegative(d, edges.items[path].speed);
      tentative := g[current] + d / edges.items[path].speed;
      if neighbour !in g || tentative < g[neighbour] {
        cameFrom' := cameFrom[neighbour := current];
        g' := g[neighbour := tentative];
        var fScore := tentative + h(nodes.items[neighbour].pos, goalPos);
        openSet.Push(neighbour, fScore);
      } else {
        cameFrom', g' := cameFrom, g;
      }
    }

    /**
     * The expansion of a popped node that is not the goal: every edge of
     * `current` joins `explored`, and the node at its other end is relaxed.
     * Afterwards every neighbour of `current` is reached, so `current` joins
     * the expanded nodes.
     */
    method Expand(openSet: AStarHeap<NodeId>, current: NodeId, goalPos: Vec2,
                  h: (Vec2, Vec2) -> real, dist: (Vec2, Vec2) -> real, ghost start: NodeId, ghost goal: NodeId,
                  cameFrom: map<NodeId, NodeId>, g: map<NodeId, real>, explored: seq<EdgeId>,
                  ghost stamp: map<NodeId, nat>, ghost clock: nat, ghost closed: set<NodeId>)
      returns (cameFrom': map<NodeId, NodeId>, g': map<NodeId, real>, explored': seq<EdgeId>,
               ghost stamp': map<NodeId, nat>, ghost clock': nat)
      requires Graph() && openSet.Valid()
      requires current in g && current != goal
      requires SearchInv(nodes.items, edges.items, start, goal, cameFrom, g, stamp, clock, closed)
      requires Frontier(openSet.weights.Keys, g.Keys, closed + {current})
      requires forall p, q :: dist(p, q) >= 0.0
      requires forall e :: e in edges.items ==> edges.items[e].speed > 0.0
      modifies openSet, openSet.heap
      ensures openSet.Valid()
      ensures SearchInv(nodes.items, edges.items, start, goal, cameFrom', g', stamp', clock', closed + {current})
      ensures current in g' && Frontier(openSet.weights.Keys, g'.Keys, closed + {current})
      ensures explored' == explored + nodes.items[current].edges
    {
      var neighbours := GetNeighbours(current);
      ghost var es := nodes.items[current].edges;
      NeighboursAreEnds(nodes.items, edges.items, current, neighbours);
      cameFrom', g', explored', stamp', clock' := cameFrom, g, explored, stamp, clock;
      for i := 0 to |neighbours|
        invariant openSet.Valid()
        invariant SearchInv(nodes.items, edges.items, start, goal, cameFrom', g', stamp', clock', closed)
        invariant current in g'
        invariant Frontier(openSet.weights.Keys, g'.Keys, closed + {current})
        invariant explored' == explored + es[..i]
        invariant Reached(neighbours[..i], g'.Keys)
      {
        var neighbour := neighbours[i].0;
        var path := neighbours[i].1;
        assert path == es[i];
        PrefixSnoc(explored, es, i);
        explored' := explored' + [path];
        ghost var before := g'.Keys;
        cameFrom', g', stamp', clock' := ExpandEdge(openSet, current, neighbour, path, goalPos, h, dist,
                                                    start, goal, cameFrom', g', stamp', clock', closed);
        ReachedGrows(neighbours, i, before, g'.Keys);
      }
      assert es[..|neighbours|] == es;
      assert neighbours[..|neighbours|] == neighbours;
      ReachedAll(nodes.items, edges.items, current, neighbours, g'.Keys);
      CloseNode(nodes.items, edges.items, start, goal, cameFrom', g', stamp', clock', closed, current);
    }

    /**
     * The relaxation of one neighbour during an expansion, with the ghost
     * bookkeeping that shows the search state survives it: a neighbour whose
     * g-score improves is stamped with the current time.
     */
    method ExpandEdge(openSet: AStarHeap<NodeId>, current: NodeId, neighbour: NodeId, path: EdgeId, goalPos: Vec2,
                      h: (Vec2, Vec2) -> real, dist: (Vec2, Vec2) -> real, ghost start: NodeId, ghost goal: NodeId,
                      cameFrom: map<NodeId, NodeId>, g: map<NodeId, real>,
                      ghost stamp: map<NodeId, nat>, ghost clock: nat, ghost closed: set<NodeId>)
      returns (cameFrom': map<NodeId, NodeId>, g': map<NodeId, real>, ghost stamp': map<NodeId, nat>, ghost clock': nat)
      requires Graph() && openSet.Valid()
      requires current in g && path in edges.items && IsEnd(edges.items[path], current)
      requires neighbour == GetOtherNode(edges.items[path], current)
      requires SearchInv(nodes.items, edges.items, start, goal, cameFrom, g, stamp, clock, closed)
      requires Frontier(openSet.weights.Keys, g.Keys, closed + {current})
      requires dist(nodes.items[current].pos, nodes.items[neighbour].pos) >= 0.0
      requires edges.items[path].speed > 0.0
      modifies openSet, openSet.heap
      ensures openSet.Valid()
      ensures SearchInv(nodes.items, edges.items, start, goal, cameFrom', g', stamp', clock', closed)
      ensures Frontier(openSet.weights.Keys, g'.Keys, closed + {current})
      ensures g.Keys + {neighbour} <= g'.Keys
    {
      ghost var open := openSet.weights.Keys;
      ghost var ns, es := nodes.items, edges.items;
      var t;
      cameFrom', g', t := Relax(openSet, current, neighbour, path, goalPos, h, dist, cameFrom, g);
      assert nodes.items == ns && edges.items == es;
      stamp', clock' := NextStamp(g, stamp, clock, neighbour, t), NextClock(g, clock, neighbour, t);
      RelaxOutcome(ns, es, start, goal, cameFrom, g, stamp, clock, closed, current, neighbour, path, t, cameFrom', g');
      FrontierRelax(open, openSet.weights.Keys, cameFrom, g, cameFrom', g', closed + {current}, current, neighbour, t);
    }

    /**
     * `a_star`: from `start`, repeatedly expands the queued node of smallest
     * f-score (g-score plus `h` towards the goal) until the goal comes out,
     * whose path is then reconstructed, or the queue runs dry. Every edge of
     * every expanded node is recorded in `explored`, in order; the first node
     * expanded is `start`, and every expanded node is reachable from it. The distance
     * between two positions is `dist` (glam's `distance`), and the loop is
     * cut short after `fuel` iterations, which `outOfFuel` reports.
     */
    method AStarSearch(start: NodeId, goal: NodeId, h: (Vec2, Vec2) -> real, dist: (Vec2, Vec2) -> real, fuel: nat)
      returns (path: Option<seq<EdgeId>>, explored: seq<EdgeId>, outOfFuel: bool, ghost expanded: seq<NodeId>)
      requires Graph() && start in nodes.items && goal in nodes.items
      requires forall p, q :: dist(p, q) >= 0.0
      requires forall e :: e in edges.items ==> edges.items[e].speed > 0.0
      ensures start == goal && fuel > 0 ==> path == Some([]) && explored == []
      ensures path.Some? ==> IsWalk(edges.items, goal, path.value, start)
      ensures path.None? && !outOfFuel ==> forall p :: !IsWalk(edges.items, start, p, goal)
      ensures outOfFuel ==> path.None? && |expanded| == fuel
      ensures forall i :: 0 <= i < |expanded| ==> expanded[i] in nodes.items && expanded[i] != goal
      ensures explored == EdgesOf(nodes.items, expanded)
      ensures start != goal && fuel > 0 ==> |expanded| > 0 && expanded[0] == start
      ensures AllReachable(edges.items, start, expanded)
    {
      var openSet := new AStarHeap<NodeId>();
      explored := [];
      expanded := [];
      var goalPos := nodes.items[goal].pos;
      openSet.Push(start, h(nodes.items[start].pos, goalPos));
      var cameFrom: map<NodeId, NodeId> := map[];
      var g: map<NodeId, real> := map[start := 0.0];
      ghost var stamp: map<NodeId, nat> := map[start := 0];
      ghost var clock: nat := 1;
      ghost var closed: set<NodeId> := {};
      ghost var ns, es := nodes.items, edges.items;
      SearchStarts(ns, es, start, goal);
      var steps := 0;
      while true
        invariant fresh(openSet) && fresh(openSet.heap) && openSet.Valid()
        invariant nodes.items == ns && edges.items == es
        invariant SearchLoop(ns, es, start, goal, cameFrom, g, stamp, clock, closed, openSet.weights.Keys,
                             fuel, steps, expanded, explored)
        decreases fuel - steps
      {
        if steps == fuel {
          SearchEnds(ns, es, start, goal, cameFrom, g, stamp, clock, closed, openSet.weights.Keys, fuel, steps, expanded, explored);
          return None, explored, true, expanded;
        }
        ghost var queued := openSet.weights.Keys;
        var popped := openSet.Pop();
        assert nodes.items == ns && edges.items == es;
        if popped.None? {
          NoPathLeft(ns, es, start, goal, cameFrom, g, stamp, clock, closed);
          SearchEnds(ns, es, start, goal, cameFrom, g, stamp, clock, closed, queued, fuel, steps, expanded, explored);
          return None, explored, false, expanded;
        }
        var current := popped.value;
        if current == goal {
          GoalReached(ns, es, start, goal, cameFrom, g, stamp, clock, closed, queued, fuel, steps, expanded, explored);
          var p;
          ghost var last, chain, idx;
          p, last, chain, idx := ReconstructPath(cameFrom, goal, g, stamp);
          WalkEndsAtStart(ns, es, start, goal, cameFrom, g, stamp, clock, closed, p, last);
          SearchEnds(ns, es, start, goal, cameFrom, g, stamp, clock, closed, queued, fuel, steps, expanded, explored);
          return Some(p), explored, false, expanded;
        }
        var cameFrom', g', explored';
        ghost var stamp', clock';
        cameFrom', g', explored', stamp', clock' := Expand(openSet, current, goalPos, h, dist, start, goal,
                                                           cameFrom, g, explored, stamp, clock, closed);
        SearchAdvance(ns, es, start, goal, cameFrom, g, stamp, clock, closed, queued, fuel, steps, expanded, explored,
                      current, cameFrom', g', stamp', clock', openSet.weights.Keys, explored');
        cameFrom, g, explored, stamp, clock := cameFrom', g', explored', stamp', clock';
        closed := closed + {current};
        expanded := expanded + [current];
        steps := steps + 1;
      }
    }

    /**
     * `try_node_collision`: clears the list of tested nodes, then goes
     * through the buckets of the chunks around `pos` in search order,
     * recording every node it examines, and returns the first within
     * `Radius` of `pos`. None is found exactly when no stored node is that
     * close.
     */
    method TryNodeCollision(pos: Vec2) returns (r: Option<NodeId>)
      requires Valid()
      modifies this`testedNodes
      ensures ScanFinds(Scan(nodeLookup, SearchOrder(pos)), NodeHitSet(nodes.items, pos), r)
      ensures r.None? ==> testedNodes == Scan(nodeLookup, SearchOrder(pos))
      ensures r.Some? ==>
          (exists k :: FirstIn(Scan(nodeLookup, SearchOrder(pos)), NodeHitSet(nodes.items, pos), k) &&
                       testedNodes == Scan(nodeLookup, SearchOrder(pos))[..k + 1])
      ensures r.None? <==> NodeHitSet(nodes.items, pos) == {}
    {
      NodeScanComplete(nodes.items, nodeLookup, pos);
      NodeBucketsStored(nodes.items, nodeLookup);
      testedNodes := [];
      r := ScanNodeArea(pos);
    }

    /** The chunk loop of `try_node_collision`, appending to the tested nodes. */
    method ScanNodeArea(pos: Vec2) returns (r: Option<NodeId>)
      requires ListsStored(nodes.items, nodeLookup) && testedNodes == []
      modifies this`testedNodes
      ensures ScanFinds(Scan(nodeLookup, SearchOrder(pos)), NodeHitSet(nodes.items, pos), r)
      ensures r.None? ==> testedNodes == Scan(nodeLookup, SearchOrder(pos))
      ensures r.Some? ==>
          (exists k :: FirstIn(Scan(nodeLookup, SearchOrder(pos)), NodeHitSet(nodes.items, pos), k) &&
                       testedNodes == Scan(nodeLookup, SearchOrder(pos))[..k + 1])
    {
      ghost var hits := NodeHitSet(nodes.items, pos);
      ghost var order := SearchOrder(pos);
      var it := NewIter(GetArea(pos));
      ghost var done: seq<ChunkPos> := [];
      while true
        invariant done + it.Drain() == order
        invariant testedNodes == Scan(nodeLookup, done)
        invariant NoneIn(Scan(nodeLookup, done), hits)
        decreases it.Size()
      {
        var next := it.Next();
        ghost var rest := next.1.Drain();
        it.DrainNext();
        if next.0.None? {
          assert done + [] == done;
          return None;
        }
        var c := next.0.value;
        assert done + [c] + rest == done + ([c] + rest);
        it := next.1;
        ghost var before := testedNodes;
        r := ScanNodeChunk(pos, c);
        if r.Some? {
          ghost var k :| FirstIn(Bucket(nodeLookup, c), hits, k) && testedNodes == before + Bucket(nodeLookup, c)[..k + 1];
          ScanHit(nodeLookup, done, c, rest, hits, k);
          return r;
        }
        ScanMiss(nodeLookup, done, c, hits);
        done := done + [c];
      }
    }

    /** The bucket of chunk `c`, if it has one, searched by `try_node_collision`. */
    method ScanNodeChunk(pos: Vec2, c: ChunkPos) returns (r: Option<NodeId>)
      requires ListsStored(nodes.items, nodeLookup)
      modifies this`testedNodes
      ensures ScanFinds(Bucket(nodeLookup, c), NodeHitSet(nodes.items, pos), r)
      ensures r.None? ==> testedNodes == old(testedNodes) + Bucket(nodeLookup, c)
      ensures r.Some? ==>
          (exists k :: FirstIn(Bucket(nodeLookup, c), NodeHitSet(nodes.items, pos), k) &&
                       testedNodes == old(testedNodes) + Bucket(nodeLookup, c)[..k + 1])
    {
      if c in nodeLookup {
        assert Bucket(nodeLookup, c) == nodeLookup[c];
        r := ScanNodeBucket(pos, nodeLookup[c]);
      } else {
        r := None;
      }
    }

    /** The inner loop of `try_node_collision`: one bucket, recording each node examined. */
    method ScanNodeBucket(pos: Vec2, vec: seq<NodeId>) returns (r: Option<NodeId>)
      requires forall j :: 0 <= j < |vec| ==> vec[j] in nodes.items
      modifies this`testedNodes
      ensures ScanFinds(vec, NodeHitSet(nodes.items, pos), r)
      ensures r.None? ==> testedNodes == old(testedNodes) + vec
      ensures r.Some? ==>
          (exists k :: FirstIn(vec, NodeHitSet(nodes.items, pos), k) && testedNodes == old(testedNodes) + vec[..k + 1])
    {
      ghost var hits := NodeHitSet(nodes.items, pos);
      for i := 0 to |vec|
        invariant testedNodes == old(testedNodes) + vec[..i]
        invariant forall j :: 0 <= j < i ==> vec[j] !in hits
      {
        testedNodes := testedNodes + [vec[i]];
        assert vec[..i + 1] == vec[..i] + [vec[i]];
        if nodes.items[vec[i]].pos.DistanceSquared(pos) <= Radius * Radius {
          assert FirstIn(vec, hits, i);
          return Some(vec[i]);
        }
      }
      return None;
    }

    /**
     * `try_edge_collision`: goes through the buckets of the chunks around
     * `pos` in search order and returns the first edge within half of
     * `Radius` of `pos`. None is found exactly when no edge registered in
     * one of those chunks is that close.
     */
    method TryEdgeCollision(pos: Vec2) returns (r: Option<EdgeId>)
      requires Valid()
      ensures ScanFinds(Scan(edgeLookup, SearchOrder(pos)), EdgeHitSet(nodes.items, edges.items, pos), r)
      ensures r.None? <==> forall e :: e in EdgeHitSet(nodes.items, edges.items, pos) ==>
          forall c :: c in AreaChunks(GetArea(pos)) ==> c !in EdgeChunks(nodes.items, edges.items[e])
    {
      EdgeBucketsStored(nodes.items, edges.items, edgeLookup);
      r := ScanEdgeArea(pos);
      EdgeScanMeaning(nodes.items, edges.items, edgeLookup, pos, r);
    }

    /** The chunk loop of `try_edge_collision`. */
    method ScanEdgeArea(pos: Vec2) returns (r: Option<EdgeId>)
      requires EndsExist(nodes.items, edges.items) && ListsStored(edges.items, edgeLookup)
      ensures ScanFinds(Scan(edgeLookup, SearchOrder(pos)), EdgeHitSet(nodes.items, edges.items, pos), r)
    {
      ghost var hits := EdgeHitSet(nodes.items, edges.items, pos);
      ghost var order := SearchOrder(pos);
      var it := NewIter(GetArea(pos));
      ghost var done: seq<ChunkPos> := [];
      while true
        invariant done + it.Drain() == order
        invariant NoneIn(Scan(edgeLookup, done), hits)
        decreases it.Size()
      {
        var next := it.Next();
        ghost var rest := next.1.Drain();
        it.DrainNext();
        if next.0.None? {
          assert done + [] == done;
          return None;
        }
        var c := next.0.value;
        assert done + [c] + rest == done + ([c] + rest);
        it := next.1;
        r := ScanEdgeChunk(pos, c);
        if r.Some? {
          ghost var k :| FirstIn(Bucket(edgeLookup, c), hits, k) && Bucket(edgeLookup, c)[k] == r.value;
          ScanHit(edgeLookup, done, c, rest, hits, k);
          return r;
        }
        ScanMiss(edgeLookup, done, c, hits);
        done := done + [c];
      }
    }

    /** The bucket of chunk `c`, if it has one, searched by `try_edge_collision`. */
    method ScanEdgeChunk(pos: Vec2, c: ChunkPos) returns (r: Option<EdgeId>)
      requires EndsExist(nodes.items, edges.items) && ListsStored(edges.items, edgeLookup)
      ensures ScanFinds(Bucket(edgeLookup, c), EdgeHitSet(nodes.items, edges.items, pos), r)
    {
      if c in edgeLookup {
        assert Bucket(edgeLookup, c) == edgeLookup[c];
        r := ScanEdgeBucket(pos, edgeLookup[c]);
      } else {
        r := None;
      }
    }

    /** The inner loop of `try_edge_collision`: one bucket. */
    method ScanEdgeBucket(pos: Vec2, vec: seq<EdgeId>) returns (r: Option<EdgeId>)
      requires EndsExist(nodes.items, edges.items)
      requires forall j :: 0 <= j < |vec| ==> vec[j] in edges.items
      ensures ScanFinds(vec, EdgeHitSet(nodes.items, edges.items, pos), r)
    {
      ghost var hits := EdgeHitSet(nodes.items, edges.items, pos);
      for i := 0 to |vec|
        invariant forall j :: 0 <= j < i ==> vec[j] !in hits
      {
        var edge := edges.items[vec[i]];
        var a := nodes.items[edge.nodes.0].pos;
        var b := nodes.items[edge.nodes.1].pos;
        if DistanceToSqr(a, b, pos) <= (Radius / 2.0) * (Radius / 2.0) {
          assert FirstIn(vec, hits, i);
          return Some(vec[i]);
        }
      }
      return None;
    }
  }

  /** Some edge of `n` has `m` at its other end. */
  ghost predicate Links(nodes: map<NodeId, Node>, edges: map<EdgeId, Edge>, n: NodeId, m: NodeId)
    requires n in nodes && EndsExist(nodes, edges) && Incidence(nodes, edges)
  {
    exists i :: 0 <= i < |nodes[n].edges| && GetOtherNode(edges[nodes[n].edges[i]], n) == m
  }

  /** Edge number `i` of `n` is the first that has `m` at its other end. */
  ghost predicate FirstLink(nodes: map<NodeId, Node>, edges: map<EdgeId, Edge>, n: NodeId, m: NodeId, i: nat)
    requires n in nodes && EndsExist(nodes, edges) && Incidence(nodes, edges)
  {
    i < |nodes[n].edges| && GetOtherNode(edges[nodes[n].edges[i]], n) == m &&
    forall j :: 0 <= j < i ==> GetOtherNode(edges[nodes[n].edges[j]], n) != m
  }

  /**
   * Step `i` of what `reconstruct_path` builds along `chain`: node `i` has a
   * `came_from` link to node `i + 1`, and edge `i` of `path` is the first
   * edge of node `i` that joins the two, at index `idx[i]` of its list.
   */
  ghost predicate FollowsAt(nodes: map<NodeId, Node>, edges: map<EdgeId, Edge>, cameFrom: map<NodeId, NodeId>,
                            chain: seq<NodeId>, path: seq<EdgeId>, idx: seq<nat>, i: nat)
    requires EndsExist(nodes, edges) && Incidence(nodes, edges)
    requires i < |path| && |chain| == |path| + 1 && |idx| == |path|
  {
    chain[i] in cameFrom && cameFrom[chain[i]] == chain[i + 1] && chain[i] in nodes &&
    FirstLink(nodes, edges, chain[i], chain[i + 1], idx[i]) && nodes[chain[i]].edges[idx[i]] == path[i]
  }

  /** `path` follows the `came_from` links along `chain`, step by step. */
  ghost predicate FollowsCameFrom(nodes: map<NodeId, Node>, edges: map<EdgeId, Edge>, cameFrom: map<NodeId, NodeId>,
                                  chain: seq<NodeId>, path: seq<EdgeId>, idx: seq<nat>)
    requires EndsExist(nodes, edges) && Incidence(nodes, edges)
    decreases |path|
  {
    |chain| == |path| + 1 && |idx| == |path| &&
    (|path| > 0 ==>
      FollowsCameFrom(nodes, edges, cameFrom, chain[..|path|], path[..|path| - 1], idx[..|path| - 1]) &&
      FollowsAt(nodes, edges, cameFrom, chain, path, idx, |path| - 1))
  }

  /** Every step of a followed path is a `came_from` link and the first edge joining its ends. */
  lemma {:induction false} FollowsEach(nodes: map<NodeId, Node>, edges: map<EdgeId, Edge>, cameFrom: map<NodeId, NodeId>,
                                       chain: seq<NodeId>, path: seq<EdgeId>, idx: seq<nat>, i: nat)
    requires EndsExist(nodes, edges) && Incidence(nodes, edges)
    requires FollowsCameFrom(nodes, edges, cameFrom, chain, path, idx) && i < |path|
    ensures FollowsAt(nodes, edges, cameFrom, chain, path, idx, i)
    decreases |path|
  {
    if i < |path| - 1 {
      var chain', path', idx' := chain[..|path|], path[..|path| - 1], idx[..|path| - 1];
      FollowsEach(nodes, edges, cameFrom, chain', path', idx', i);
      assert chain'[i] == chain[i] && chain'[i + 1] == chain[i + 1] && path'[i] == path[i] && idx'[i] == idx[i];
    }
  }

  /** One more link followed, with `find_edge`'s edge for it. */
  lemma FollowsSnoc(nodes: map<NodeId, Node>, edges: map<EdgeId, Edge>, cameFrom: map<NodeId, NodeId>,
                    chain: seq<NodeId>, path: seq<EdgeId>, idx: seq<nat>, e: EdgeId, j: nat)
    requires EndsExist(nodes, edges) && Incidence(nodes, edges)
    requires FollowsCameFrom(nodes, edges, cameFrom, chain, path, idx)
    requires chain[|path|] in cameFrom && chain[|path|] in nodes
    requires FirstLink(nodes, edges, chain[|path|], cameFrom[chain[|path|]], j) && nodes[chain[|path|]].edges[j] == e
    ensures FollowsCameFrom(nodes, edges, cameFrom, chain + [cameFrom[chain[|path|]]], path + [e], idx + [j])
  {
    var chain', path', idx' := chain + [cameFrom[chain[|path|]]], path + [e], idx + [j];
    assert chain'[..|path'|] == chain && path'[..|path'| - 1] == path && idx'[..|path'| - 1] == idx;
    assert chain'[|path|] == chain[|path|] && chain'[|path| + 1] == cameFrom[chain[|path|]] && path'[|path|] == e && idx'[|path|] == j;
  }

  // ----- Collision queries -----

  /** The ids the buckets of `cs` list, bucket after bucket. */
  function Scan<X>(lookup: map<ChunkPos, seq<X>>, cs: seq<ChunkPos>): seq<X>
  {
    if cs == [] then [] else Bucket(lookup, cs[0]) + Scan(lookup, cs[1..])
  }

  lemma ScanCons<X>(lookup: map<ChunkPos, seq<X>>, c: ChunkPos, cs: seq<ChunkPos>)
    ensures Scan(lookup, [c] + cs) == Bucket(lookup, c) + Scan(lookup, cs)
  {
    assert ([c] + cs)[1..] == cs;
  }

  /** Scanning two runs of chunks scans the first, then the second. */
  lemma {:induction false} ScanAppend<X>(lookup: map<ChunkPos, seq<X>>, xs: seq<ChunkPos>, ys: seq<ChunkPos>)
    ensures Scan(lookup, xs + ys) == Scan(lookup, xs) + Scan(lookup, ys)
  {
    if xs == [] {
      assert xs + ys == ys;
    } else {
      assert (xs + ys)[1..] == xs[1..] + ys;
      ScanAppend(lookup, xs[1..], ys);
    }
  }

  /** A scan lists exactly the ids of the buckets of its chunks. */
  lemma {:induction false} ScanHolds<X>(lookup: map<ChunkPos, seq<X>>, cs: seq<ChunkPos>, x: X)
    ensures x in Scan(lookup, cs) <==> exists c :: c in cs && x in Bucket(lookup, c)
  {
    if cs != [] {
      ScanHolds(lookup, cs[1..], x);
      assert forall c :: c in cs <==> c == cs[0] || c in cs[1..];
    }
  }

  /** Position `k` holds the first element of `s` in `hits`. */
  ghost predicate FirstIn<X>(s: seq<X>, hits: set<X>, k: int)
  {
    0 <= k < |s| && s[k] in hits && forall j :: 0 <= j < k ==> s[j] !in hits
  }

  /** `r` is what a linear search of `s` for an element of `hits` returns. */
  ghost predicate ScanFinds<X>(s: seq<X>, hits: set<X>, r: Option<X>)
  {
    match r
    case None => NoneIn(s, hits)
    case Some(x) => exists k :: FirstIn(s, hits, k) && s[k] == x
  }

  /** No element of `s` is in `hits`. */
  ghost predicate NoneIn<X>(s: seq<X>, hits: set<X>)
  {
    forall j :: 0 <= j < |s| ==> s[j] !in hits
  }

  /** A search that meets no hit in the next bucket goes on past it. */
  lemma ScanMiss<X>(lookup: map<ChunkPos, seq<X>>, done: seq<ChunkPos>, c: ChunkPos, hits: set<X>)
    requires NoneIn(Scan(lookup, done), hits) && NoneIn(Bucket(lookup, c), hits)
    ensures Scan(lookup, done + [c]) == Scan(lookup, done) + Bucket(lookup, c)
    ensures NoneIn(Scan(lookup, done + [c]), hits)
  {
    ScanAppend(lookup, done, [c]);
    ScanCons(lookup, c, []);
  }

  /**
   * A search that meets its first hit in the bucket of `c`, at position
   * `k`, has found the first hit of the whole scan.
   */
  lemma ScanHit<X>(lookup: map<ChunkPos, seq<X>>, done: seq<ChunkPos>, c: ChunkPos, rest: seq<ChunkPos>,
                   hits: set<X>, k: int)
    requires NoneIn(Scan(lookup, done), hits) && FirstIn(Bucket(lookup, c), hits, k)
    ensures var s := Scan(lookup, done + [c] + rest);
      var i := |Scan(lookup, done)| + k;
      FirstIn(s, hits, i) && s[i] == Bucket(lookup, c)[k] && s[..i + 1] == Scan(lookup, done) + Bucket(lookup, c)[..k + 1]
  {
    assert done + [c] + rest == done + ([c] + rest);
    ScanAppend(lookup, done, [c] + rest);
    ScanCons(lookup, c, rest);
    FirstInAppend(Scan(lookup, done), Bucket(lookup, c), Scan(lookup, rest), hits, k);
  }

  /** A first hit after a run without hits is the first hit of the whole. */
  lemma FirstInAppend<X>(pre: seq<X>, s: seq<X>, post: seq<X>, hits: set<X>, k: int)
    requires NoneIn(pre, hits)
    requires FirstIn(s, hits, k)
    ensures FirstIn(pre + s + post, hits, |pre| + k)
    ensures (pre + s + post)[|pre| + k] == s[k]
    ensures (pre + s + post)[..|pre| + k + 1] == pre + s[..k + 1]
  {
    var all := pre + s + post;
    forall j | 0 <= j < |pre| + k
      ensures all[j] !in hits
    {
      if j >= |pre| {
        assert all[j] == s[j - |pre|];
      }
    }
  }

  /** The nodes within `Radius` of `p`: what `try_node_collision` looks for. */
  ghost function NodeHitSet(nodes: map<NodeId, Node>, p: Vec2): set<NodeId>
  {
    set n | n in nodes && nodes[n].pos.DistanceSquared(p) <= Radius * Radius
  }

  /** The edges within half of `Radius` of `p`: what `try_edge_collision` looks for. */
  ghost function EdgeHitSet(nodes: map<NodeId, Node>, edges: map<EdgeId, Edge>, p: Vec2): set<EdgeId>
    requires EndsExist(nodes, edges)
  {
    set e | e in edges &&
      DistanceToSqr(nodes[edges[e].nodes.0].pos, nodes[edges[e].nodes.1].pos, p) <= (Radius / 2.0) * (Radius / 2.0)
  }

  /** Every id an index lists is stored in `m`. */
  ghost predicate ListsStored<V>(m: map<Id, V>, lookup: map<ChunkPos, seq<Id>>)
  {
    forall c, j :: 0 <= j < |Bucket(lookup, c)| ==> Bucket(lookup, c)[j] in m
  }

  lemma NodeBucketsStored(nodes: map<NodeId, Node>, lookup: map<ChunkPos, seq<NodeId>>)
    requires NodeBuckets(nodes, lookup)
    ensures ListsStored(nodes, lookup)
  {
    forall c, j | 0 <= j < |Bucket(lookup, c)|
      ensures Bucket(lookup, c)[j] in nodes
    {
      assert NodeListed(nodes, lookup, c, Bucket(lookup, c)[j]);
    }
  }

  lemma EdgeBucketsStored(nodes: map<NodeId, Node>, edges: map<EdgeId, Edge>, lookup: map<ChunkPos, seq<EdgeId>>)
    requires EndsExist(nodes, edges) && EdgeBuckets(nodes, edges, lookup)
    ensures ListsStored(edges, lookup)
  {
    forall c, j | 0 <= j < |Bucket(lookup, c)|
      ensures Bucket(lookup, c)[j] in edges
    {
      assert EdgeListed(nodes, edges, lookup, c, Bucket(lookup, c)[j]);
    }
  }

  /** A square of at most `r * r` has a root between `-r` and `r`. */
  lemma SquareBound(d: real, r: real)
    requires r >= 0.0 && d * d <= r * r
    ensures -r <= d <= r
  {
    if d > r {
      SquareGrows(d, r);
    }
    if d < -r {
      SquareGrows(-d, r);
    }
  }

  lemma SquareGrows(d: real, r: real)
    requires 0.0 <= r < d
    ensures r * r < d * d
  {
    var e := d - r;
    assert d * d == r * r + 2.0 * r * e + e * e;
    assert r * e >= 0.0;
    assert e * e > 0.0;
  }

  /**
   * The node index is complete for collisions: a node within `Radius` of
   * `p` lies in one of the chunks searched around `p`, so the scan meets it.
   */
  lemma NodeScanComplete(nodes: map<NodeId, Node>, lookup: map<ChunkPos, seq<NodeId>>, p: Vec2)
    requires NodeBuckets(nodes, lookup)
    ensures forall n :: n in NodeHitSet(nodes, p) ==> n in Scan(lookup, SearchOrder(p))
  {
    forall n | n in NodeHitSet(nodes, p)
      ensures n in Scan(lookup, SearchOrder(p))
    {
      var q := nodes[n].pos;
      var d := q.Sub(p);
      assert d.x * d.x <= Radius * Radius && d.y * d.y <= Radius * Radius;
      SquareBound(d.x, Radius);
      SquareBound(d.y, Radius);
      AreaFacts(p, q);
      SearchOrderIsArea(p, FromWorldPos(q));
      assert NodeAtHome(nodes, lookup, n);
      ScanHolds(lookup, SearchOrder(p), n);
    }
  }

  /**
   * A search of the edge index around `p` finds an edge exactly when some
   * edge close enough to `p` is registered in a chunk of the area.
   */
  lemma EdgeScanMeaning(nodes: map<NodeId, Node>, edges: map<EdgeId, Edge>, lookup: map<ChunkPos, seq<EdgeId>>,
                        p: Vec2, r: Option<EdgeId>)
    requires EndsExist(nodes, edges) && EdgeBuckets(nodes, edges, lookup)
    requires ScanFinds(Scan(lookup, SearchOrder(p)), EdgeHitSet(nodes, edges, p), r)
    ensures r.None? <==> forall e :: e in EdgeHitSet(nodes, edges, p) ==>
        forall c :: c in AreaChunks(GetArea(p)) ==> c !in EdgeChunks(nodes, edges[e])
  {
    var s := Scan(lookup, SearchOrder(p));
    var hits := EdgeHitSet(nodes, edges, p);
    if r.None? {
      forall e, c | e in hits && c in AreaChunks(GetArea(p))
        ensures c !in EdgeChunks(nodes, edges[e])
      {
        if c in EdgeChunks(nodes, edges[e]) {
          assert EdgeInChunk(nodes, edges, lookup, e, c);
          SearchOrderIsArea(p, c);
          ScanHolds(lookup, SearchOrder(p), e);
        }
      }
    } else {
      var k :| FirstIn(s, hits, k) && s[k] == r.value;
      ScanHolds(lookup, SearchOrder(p), s[k]);
      var c :| c in SearchOrder(p) && s[k] in Bucket(lookup, c);
      assert EdgeListed(nodes, edges, lookup, c, s[k]);
      SearchOrderIsArea(p, c);
    }
  }

  // ----- The demo grid of `new` -----

  /** `RADIUS` of `new`: the grid runs from -5 to 5 on both axes. */
  const GridRadius: int := 5

  /** `LEN` of `new`: 11 nodes per column and per row. */
  const GridLen: int := 2 * GridRadius + 1

  /** The id `new` gives the node of column `x` and row `y`: columns are added one after another. */
  function GridId(x: int, y: int): (r: NodeId)
    requires -GridRadius <= x <= GridRadius && -GridRadius <= y <= GridRadius
    ensures 1 <= r <= 121
  {
    (x + 5) * 11 + (y + 5) + 1
  }

  /** The place of the grid node of column `x` and row `y`. */
  function GridPos(x: int, y: int): Vec2
  {
    Vec2(x as real * 100.0, y as real * 100.0)
  }

  /** The grid node of column `x` and row `y` is stored at its place. */
  ghost predicate NodeAt(nodes: map<NodeId, Node>, x: int, y: int)
    requires -GridRadius <= x <= GridRadius && -GridRadius <= y <= GridRadius
  {
    GridId(x, y) in nodes && nodes[GridId(x, y)].pos == GridPos(x, y)
  }

  /** Every grid node is stored at its place. */
  ghost predicate GridNodes(nodes: map<NodeId, Node>)
  {
    forall x, y :: -GridRadius <= x <= GridRadius && -GridRadius <= y <= GridRadius ==> NodeAt(nodes, x, y)
  }

  /** The first `n` columns are placed. */
  ghost predicate ColumnsPlaced(nodes: map<NodeId, Node>, n: int)
  {
    forall x, y :: -GridRadius <= x <= GridRadius && x < n - GridRadius && -GridRadius <= y <= GridRadius ==> NodeAt(nodes, x, y)
  }

  /** The first `n` nodes of column `x` are placed. */
  ghost predicate RowsPlaced(nodes: map<NodeId, Node>, x: int, n: int)
    requires -GridRadius <= x <= GridRadius
  {
    forall y :: -GridRadius <= y <= GridRadius && y < n - GridRadius ==> NodeAt(nodes, x, y)
  }

  /** `m'` still holds everything `m` holds. */
  ghost predicate Keeps<V>(m: map<Id, V>, m': map<Id, V>)
  {
    forall i :: i in m ==> i in m' && m'[i] == m[i]
  }

  /** Adding the node with the next grid id places one more node of the column. */
  lemma RowsPlacedGrow(start: map<NodeId, Node>, nodes: map<NodeId, Node>, nodes': map<NodeId, Node>,
                       x: int, j: int, node: Node)
    requires -GridRadius <= x <= GridRadius && 0 <= j < GridLen
    requires RowsPlaced(nodes, x, j) && Keeps(start, nodes)
    requires GridId(x, j - GridRadius) !in nodes && node.pos == GridPos(x, j - GridRadius)
    requires nodes' == nodes[GridId(x, j - GridRadius) := node]
    ensures RowsPlaced(nodes', x, j + 1) && Keeps(start, nodes')
  {
    forall y | -GridRadius <= y < j + 1 - GridRadius
      ensures NodeAt(nodes', x, y)
    {
      if y < j - GridRadius {
        assert NodeAt(nodes, x, y);
      }
    }
  }

  /** A finished column, added over the earlier ones, places one more column. */
  lemma ColumnsPlacedGrow(nodes: map<NodeId, Node>, nodes': map<NodeId, Node>, i: int)
    requires 0 <= i < GridLen
    requires ColumnsPlaced(nodes, i) && Keeps(nodes, nodes') && RowsPlaced(nodes', i - GridRadius, GridLen)
    ensures ColumnsPlaced(nodes', i + 1)
  {
    forall x, y | -GridRadius <= x < i + 1 - GridRadius && -GridRadius <= y <= GridRadius
      ensures NodeAt(nodes', x, y)
    {
      if x < i - GridRadius {
        assert NodeAt(nodes, x, y);
      } else {
        assert NodeAt(nodes', i - GridRadius, y);
      }
    }
  }

  /** Attaching an edge moves no node. */
  lemma GridNodesAttached(old_nodes: map<NodeId, Node>, nodes: map<NodeId, Node>, a: NodeId, b: NodeId, id: EdgeId)
    requires GridNodes(old_nodes) && Attached(old_nodes, nodes, a, b, id)
    ensures GridNodes(nodes)
  {
    forall x, y | -GridRadius <= x <= GridRadius && -GridRadius <= y <= GridRadius
      ensures NodeAt(nodes, x, y)
    {
      assert NodeAt(old_nodes, x, y);
    }
  }

  /** `ids` of `new`, one column: the ids of column `x`, bottom to top. */
  ghost predicate IdColumn(column: seq<NodeId>, x: int)
    requires -GridRadius <= x <= GridRadius
  {
    |column| == GridLen && forall k :: 0 <= k < GridLen ==> column[k] == GridId(x, k - GridRadius)
  }

  /** `ids` of `new`: the id of each node by column and row. */
  ghost predicate IdTable(ids: seq<seq<NodeId>>)
  {
    |ids| == GridLen && forall i :: 0 <= i < GridLen ==> IdColumn(ids[i], i - GridRadius)
  }

  /** The id of edge `j` of column `x`: the 110 column edges come first, column by column. */
  function ColumnEdgeId(x: int, j: int): EdgeId
    requires -GridRadius <= x <= GridRadius && 0 <= j < 2 * GridRadius
  {
    (x + 5) * 10 + j + 1
  }

  /** The id of edge `j` of row `y`: the row edges follow, row by row. */
  function RowEdgeId(y: int, j: int): EdgeId
    requires -GridRadius <= y <= GridRadius && 0 <= j < 2 * GridRadius
  {
    110 + (y + 5) * 10 + j + 1
  }

  /** The middle column is the fast road. */
  function ColumnSpeed(x: int): real
  {
    if x == 0 then 2.0 else 1.0
  }

  /** The middle column is the wide road. */
  function ColumnLanes(x: int): u8
  {
    if x == 0 then 16 else 12
  }

  /** Edge `j` of column `x` joins row `j - 5` to row `j - 4`. */
  ghost predicate ColumnEdgeAt(edges: map<EdgeId, Edge>, x: int, j: int)
    requires -GridRadius <= x <= GridRadius && 0 <= j < 2 * GridRadius
  {
    var id := ColumnEdgeId(x, j);
    id in edges &&
    edges[id] == Edge.Edge(id, (GridId(x, j - GridRadius), GridId(x, j + 1 - GridRadius)),
                           ColumnSpeed(x), NewLaneDefinition(ColumnLanes(x)).value)
  }

  /** Edge `j` of row `y` joins column `j - 5` to column `j - 4`. */
  ghost predicate RowEdgeAt(edges: map<EdgeId, Edge>, y: int, j: int)
    requires -GridRadius <= y <= GridRadius && 0 <= j < 2 * GridRadius
  {
    var id := RowEdgeId(y, j);
    id in edges &&
    edges[id] == Edge.Edge(id, (GridId(j - GridRadius, y), GridId(j + 1 - GridRadius, y)),
                           1.0, NewLaneDefinition(12).value)
  }

  /** The first `n` edges of column `x` are stored. */
  ghost predicate ColumnLinks(edges: map<EdgeId, Edge>, x: int, n: int)
    requires -GridRadius <= x <= GridRadius
  {
    forall j :: 0 <= j < n && j < 2 * GridRadius ==> ColumnEdgeAt(edges, x, j)
  }

  /** The first `n` edges of row `y` are stored. */
  ghost predicate RowLinks(edges: map<EdgeId, Edge>, y: int, n: int)
    requires -GridRadius <= y <= GridRadius
  {
    forall j :: 0 <= j < n && j < 2 * GridRadius ==> RowEdgeAt(edges, y, j)
  }

  /** The edges of the first `n` columns are stored. */
  ghost predicate ColumnsLinked(edges: map<EdgeId, Edge>, n: int)
  {
    forall x :: -GridRadius <= x < n - GridRadius && x <= GridRadius ==> ColumnLinks(edges, x, 2 * GridRadius)
  }

  /** The edges of the first `n` rows are stored. */
  ghost predicate RowsLinked(edges: map<EdgeId, Edge>, n: int)
  {
    forall y :: -GridRadius <= y < n - GridRadius && y <= GridRadius ==> RowLinks(edges, y, 2 * GridRadius)
  }

  /** Every column edge is stored. */
  ghost predicate ColumnEdges(edges: map<EdgeId, Edge>)
  {
    ColumnsLinked(edges, GridLen)
  }

  /** Every row edge is stored. */
  ghost predicate RowEdges(edges: map<EdgeId, Edge>)
  {
    RowsLinked(edges, GridLen)
  }

  /** Storing column edge `j` over the earlier ones stores one more edge of the column. */
  lemma ColumnLinksGrow(start: map<EdgeId, Edge>, edges: map<EdgeId, Edge>, edges': map<EdgeId, Edge>, x: int, j: int,
                        id: EdgeId, a: NodeId, b: NodeId, speed: real, size: u8)
    requires -GridRadius <= x <= GridRadius && 0 <= j < 2 * GridRadius
    requires ColumnLinks(edges, x, j) && Keeps(start, edges)
    requires id == ColumnEdgeId(x, j) && id !in edges
    requires a == GridId(x, j - GridRadius) && b == GridId(x, j + 1 - GridRadius)
    requires speed == ColumnSpeed(x) && size == ColumnLanes(x)
    requires edges' == edges[id := Edge.Edge(id, (a, b), speed, NewLaneDefinition(size).value)]
    ensures ColumnLinks(edges', x, j + 1) && Keeps(start, edges')
  {
    forall k | 0 <= k < j + 1 && k < 2 * GridRadius
      ensures ColumnEdgeAt(edges', x, k)
    {
      if k < j {
        assert ColumnEdgeAt(edges, x, k);
      }
    }
  }

  /** Storing row edge `j` over the earlier ones stores one more edge of the row. */
  lemma RowLinksGrow(start: map<EdgeId, Edge>, edges: map<EdgeId, Edge>, edges': map<EdgeId, Edge>, y: int, j: int,
                     id: EdgeId, a: NodeId, b: NodeId)
    requires -GridRadius <= y <= GridRadius && 0 <= j < 2 * GridRadius
    requires RowLinks(edges, y, j) && Keeps(start, edges)
    requires id == RowEdgeId(y, j) && id !in edges
    requires a == GridId(j - GridRadius, y) && b == GridId(j + 1 - GridRadius, y)
    requires edges' == edges[id := Edge.Edge(id, (a, b), 1.0, NewLaneDefinition(12).value)]
    ensures RowLinks(edges', y, j + 1) && Keeps(start, edges')
  {
    forall k | 0 <= k < j + 1 && k < 2 * GridRadius
      ensures RowEdgeAt(edges', y, k)
    {
      if k < j {
        assert RowEdgeAt(edges, y, k);
      }
    }
  }

  /** A finished column over the earlier ones stores one more column. */
  lemma ColumnsLinkedGrow(edges: map<EdgeId, Edge>, edges': map<EdgeId, Edge>, i: int)
    requires 0 <= i < GridLen
    requires ColumnsLinked(edges, i) && Keeps(edges, edges') && ColumnLinks(edges', i - GridRadius, 2 * GridRadius)
    ensures ColumnsLinked(edges', i + 1)
  {
    forall x | -GridRadius <= x < i + 1 - GridRadius && x <= GridRadius
      ensures ColumnLinks(edges', x, 2 * GridRadius)
    {
      if x < i - GridRadius {
        ColumnLinksKept(edges, edges', x);
      }
    }
  }

  /** A finished row over the earlier ones stores one more row. */
  lemma RowsLinkedGrow(edges: map<EdgeId, Edge>, edges': map<EdgeId, Edge>, i: int)
    requires 0 <= i < GridLen
    requires RowsLinked(edges, i) && Keeps(edges, edges') && RowLinks(edges', i - GridRadius, 2 * GridRadius)
    ensures RowsLinked(edges', i + 1)
  {
    forall y | -GridRadius <= y < i + 1 - GridRadius && y <= GridRadius
      ensures RowLinks(edges', y, 2 * GridRadius)
    {
      if y < i - GridRadius {
        assert RowLinks(edges, y, 2 * GridRadius);
        forall j | 0 <= j < 2 * GridRadius
          ensures RowEdgeAt(edges', y, j)
        {
          assert RowEdgeAt(edges, y, j);
        }
      }
    }
  }

  /** Stored column edges stay stored. */
  lemma ColumnLinksKept(edges: map<EdgeId, Edge>, edges': map<EdgeId, Edge>, x: int)
    requires -GridRadius <= x <= GridRadius
    requires ColumnLinks(edges, x, 2 * GridRadius) && Keeps(edges, edges')
    ensures ColumnLinks(edges', x, 2 * GridRadius)
  {
    forall j | 0 <= j < 2 * GridRadius
      ensures ColumnEdgeAt(edges', x, j)
    {
      assert ColumnEdgeAt(edges, x, j);
    }
  }

  /** All column edges stay stored. */
  lemma ColumnEdgesKept(edges: map<EdgeId, Edge>, edges': map<EdgeId, Edge>)
    requires ColumnEdges(edges) && Keeps(edges, edges')
    ensures ColumnEdges(edges')
  {
    forall x | -GridRadius <= x < GridLen - GridRadius && x <= GridRadius
      ensures ColumnLinks(edges', x, 2 * GridRadius)
    {
      ColumnLinksKept(edges, edges', x);
    }
  }

  /**
   * The edges of the grid node of column `x` and row `y`, as `new` leaves
   * them: the column edge below it, the one above it, the row edge on its
   * left and the one on its right, each where the grid has it.
   */
  function GridEdgeList(x: int, y: int): seq<EdgeId>
    requires -GridRadius <= x <= GridRadius && -GridRadius <= y <= GridRadius
  {
    (if y > -GridRadius then [ColumnEdgeId(x, y + GridRadius - 1)] else []) +
    (if y < GridRadius then [ColumnEdgeId(x, y + GridRadius)] else []) +
    (if x > -GridRadius then [RowEdgeId(y, x + GridRadius - 1)] else []) +
    (if x < GridRadius then [RowEdgeId(y, x + GridRadius)] else [])
  }

  /** Every grid node lists exactly the edges of `GridEdgeList`, in that order. */
  ghost predicate GridEdgeLists(nodes: map<NodeId, Node>)
  {
    forall x, y :: -GridRadius <= x <= GridRadius && -GridRadius <= y <= GridRadius ==>
      GridId(x, y) in nodes && nodes[GridId(x, y)].edges == GridEdgeList(x, y)
  }

  /** Distinct places have distinct grid ids. */
  lemma GridIdInjective(x: int, y: int, x': int, y': int)
    requires -GridRadius <= x <= GridRadius && -GridRadius <= y <= GridRadius
    requires -GridRadius <= x' <= GridRadius && -GridRadius <= y' <= GridRadius
    requires GridId(x, y) == GridId(x', y')
    ensures x == x' && y == y'
  {
  }

  /** Edges that do not touch `n` add nothing to its list. */
  lemma {:induction false} IncidentSkip(edges: map<EdgeId, Edge>, n: NodeId, lo: nat, m: nat)
    requires lo <= m
    requires forall k :: lo < k <= m && k in edges ==> !IsEnd(edges[k], n)
    ensures IncidentUpTo(edges, n, m) == IncidentUpTo(edges, n, lo)
    decreases m
  {
    if m > lo {
      IncidentSkip(edges, n, lo, m - 1);
      assert m in edges ==> EndCount(edges[m], n) == 0;
    }
  }

  /** An increasing list whose elements are up to `m`, stored and touch `n` once each. */
  ghost predicate IncidentList(edges: map<EdgeId, Edge>, n: NodeId, m: nat, s: seq<EdgeId>)
  {
    (forall i, j :: 0 <= i < j < |s| ==> s[i] < s[j]) &&
    (forall i :: 0 <= i < |s| ==> s[i] <= m && s[i] in edges && EndCount(edges[s[i]], n) == 1)
  }

  /** Every edge among `1..m` that touches `n` is in `s`. */
  ghost predicate IncidentCovered(edges: map<EdgeId, Edge>, n: NodeId, m: nat, s: seq<EdgeId>)
  {
    forall k :: 0 < k <= m && k in edges && IsEnd(edges[k], n) ==> k in s
  }

  /** No edge after the last of `s` touches `n`. */
  lemma IncidentAfterLast(edges: map<EdgeId, Edge>, n: NodeId, m: nat, s: seq<EdgeId>)
    requires s != [] && IncidentList(edges, n, m, s) && IncidentCovered(edges, n, m, s)
    ensures IncidentUpTo(edges, n, m) == IncidentUpTo(edges, n, s[|s| - 1])
  {
    var last := s[|s| - 1];
    forall i | 0 <= i < |s| - 1
      ensures s[i] < last
    {
      assert s[i] < s[|s| - 1];
    }
    IncidentSkip(edges, n, last, m);
  }

  /** Without its last element, `s` still lists and covers the touching edges below that element. */
  lemma IncidentInit(edges: map<EdgeId, Edge>, n: NodeId, m: nat, s: seq<EdgeId>, below: nat)
    requires s != [] && IncidentList(edges, n, m, s) && IncidentCovered(edges, n, m, s)
    requires below + 1 == s[|s| - 1]
    ensures IncidentList(edges, n, below, s[..|s| - 1]) && IncidentCovered(edges, n, below, s[..|s| - 1])
  {
    var init := s[..|s| - 1];
    forall i | 0 <= i < |init|
      ensures init[i] <= below
    {
      assert s[i] < s[|s| - 1];
    }
    forall k | 0 < k <= below && k in edges && IsEnd(edges[k], n)
      ensures k in init
    {
      var i :| 0 <= i < |s| && s[i] == k;
      assert init[i] == k;
    }
  }

  /**
   * The edges among `1..m` that touch `n` are given by a list `s`: when `s`
   * is increasing, touches `n` once at each of its edges and holds every
   * edge touching `n`, it is what `n` lists.
   */
  lemma {:induction false} IncidentExactly(edges: map<EdgeId, Edge>, n: NodeId, m: nat, s: seq<EdgeId>)
    requires IncidentList(edges, n, m, s) && IncidentCovered(edges, n, m, s)
    ensures IncidentUpTo(edges, n, m) == s
    decreases |s|
  {
    if s == [] {
      IncidentSkip(edges, n, 0, m);
    } else {
      var last, init := s[|s| - 1], s[..|s| - 1];
      assert last > 0 && last in edges && EndCount(edges[last], n) == 1;
      var below: nat := last as int - 1;
      IncidentAfterLast(edges, n, m, s);
      assert IncidentUpTo(edges, n, last) == IncidentUpTo(edges, n, below) + [last] by {
        assert Repeat<EdgeId>(last, 1) == [last];
      }
      IncidentInit(edges, n, m, s, below);
      IncidentExactly(edges, n, below, init);
      assert s == init + [last];
    }
  }

  /** Every edge of the grid that touches the node of column `x` and row `y` is in its `GridEdgeList`. */
  lemma GridTouches(edges: map<EdgeId, Edge>, x: int, y: int, k: EdgeId)
    requires ColumnEdges(edges) && RowEdges(edges)
    requires -GridRadius <= x <= GridRadius && -GridRadius <= y <= GridRadius
    requires k <= 220 && k in edges && IsEnd(edges[k], GridId(x, y))
    ensures k in GridEdgeList(x, y)
  {
    if k <= 110 {
      var x', j := (k - 1) / 10 - GridRadius, (k - 1) % 10;
      assert k == ColumnEdgeId(x', j);
      assert ColumnLinks(edges, x', 2 * GridRadius);
      assert ColumnEdgeAt(edges, x', j);
      if edges[k].nodes.0 == GridId(x, y) {
        GridIdInjective(x, y, x', j - GridRadius);
      } else {
        GridIdInjective(x, y, x', j + 1 - GridRadius);
      }
    } else {
      var y', j := (k - 111) / 10 - GridRadius, (k - 111) % 10;
      assert k == RowEdgeId(y', j);
      assert RowLinks(edges, y', 2 * GridRadius);
      assert RowEdgeAt(edges, y', j);
      if edges[k].nodes.0 == GridId(x, y) {
        GridIdInjective(x, y, j - GridRadius, y');
      } else {
        GridIdInjective(x, y, j + 1 - GridRadius, y');
      }
    }
  }

  /** Column edge `j` of column `x` is stored and has one end at each of the nodes it joins. */
  lemma ColumnEdgeEnds(edges: map<EdgeId, Edge>, x: int, j: int)
    requires ColumnEdges(edges)
    requires -GridRadius <= x <= GridRadius && 0 <= j < 2 * GridRadius
    ensures ColumnEdgeId(x, j) <= 220 && ColumnEdgeId(x, j) in edges
    ensures EndCount(edges[ColumnEdgeId(x, j)], GridId(x, j - GridRadius)) == 1
    ensures EndCount(edges[ColumnEdgeId(x, j)], GridId(x, j + 1 - GridRadius)) == 1
  {
    assert ColumnLinks(edges, x, 2 * GridRadius);
    assert ColumnEdgeAt(edges, x, j);
    assert GridId(x, j - GridRadius) != GridId(x, j + 1 - GridRadius);
  }

  /** Row edge `j` of row `y` is stored and has one end at each of the nodes it joins. */
  lemma RowEdgeEnds(edges: map<EdgeId, Edge>, y: int, j: int)
    requires RowEdges(edges)
    requires -GridRadius <= y <= GridRadius && 0 <= j < 2 * GridRadius
    ensures RowEdgeId(y, j) <= 220 && RowEdgeId(y, j) in edges
    ensures EndCount(edges[RowEdgeId(y, j)], GridId(j - GridRadius, y)) == 1
    ensures EndCount(edges[RowEdgeId(y, j)], GridId(j + 1 - GridRadius, y)) == 1
  {
    assert RowLinks(edges, y, 2 * GridRadius);
    assert RowEdgeAt(edges, y, j);
    assert GridId(j - GridRadius, y) != GridId(j + 1 - GridRadius, y);
  }

  /** Each edge of `GridEdgeList` is a stored grid edge with exactly one end at the node. */
  lemma GridListEdge(edges: map<EdgeId, Edge>, x: int, y: int, i: int)
    requires ColumnEdges(edges) && RowEdges(edges)
    requires -GridRadius <= x <= GridRadius && -GridRadius <= y <= GridRadius
    requires 0 <= i < |GridEdgeList(x, y)|
    ensures GridEdgeList(x, y)[i] <= 220 && GridEdgeList(x, y)[i] in edges
    ensures EndCount(edges[GridEdgeList(x, y)[i]], GridId(x, y)) == 1
  {
    if y > -GridRadius { ColumnEdgeEnds(edges, x, y + GridRadius - 1); }
    if y < GridRadius { ColumnEdgeEnds(edges, x, y + GridRadius); }
    if x > -GridRadius { RowEdgeEnds(edges, y, x + GridRadius - 1); }
    if x < GridRadius { RowEdgeEnds(edges, y, x + GridRadius); }
  }

  /** With every column and row edge stored, in id order, each grid node lists the edges of `GridEdgeList`. */
  lemma GridIncident(edges: map<EdgeId, Edge>, x: int, y: int)
    requires ColumnEdges(edges) && RowEdges(edges)
    requires -GridRadius <= x <= GridRadius && -GridRadius <= y <= GridRadius
    ensures IncidentUpTo(edges, GridId(x, y), 220) == GridEdgeList(x, y)
  {
    var n, s := GridId(x, y), GridEdgeList(x, y);
    assert forall i, j :: 0 <= i < j < |s| ==> s[i] < s[j];
    forall i | 0 <= i < |s|
      ensures s[i] <= 220 && s[i] in edges && EndCount(edges[s[i]], n) == 1
    {
      GridListEdge(edges, x, y, i);
    }
    forall k | 0 < k <= 220 && k in edges && IsEnd(edges[k], n)
      ensures k in s
    {
      GridTouches(edges, x, y, k);
    }
    IncidentExactly(edges, n, 220, s);
  }

  /** The edge lists `new` leaves, given that it made the grid edges in id order. */
  lemma GridListsFromOrder(nodes: map<NodeId, Node>, edges: map<EdgeId, Edge>)
    requires GridNodes(nodes) && ColumnEdges(edges) && RowEdges(edges)
    requires forall n :: n in nodes ==> nodes[n].edges == IncidentUpTo(edges, n, 220)
    ensures GridEdgeLists(nodes)
  {
    forall x, y | -GridRadius <= x <= GridRadius && -GridRadius <= y <= GridRadius
      ensures GridId(x, y) in nodes && nodes[GridId(x, y)].edges == GridEdgeList(x, y)
    {
      assert NodeAt(nodes, x, y);
      GridIncident(edges, x, y);
    }
  }

  // ----- Walks and the state of the A* search -----

  /** `path` leads from `from` to `to`: each edge has as an end the node the edges before it reached. */
  ghost predicate IsWalk(edges: map<EdgeId, Edge>, from: NodeId, path: seq<EdgeId>, to: NodeId)
    decreases |path|
  {
    if path == [] then
      from == to
    else
      path[0] in edges && IsEnd(edges[path[0]], from) &&
      IsWalk(edges, GetOtherNode(edges[path[0]], from), path[1..], to)
  }

  /** A walk extended by an edge of the node it reached. */
  lemma {:induction false} IsWalkSnoc(edges: map<EdgeId, Edge>, from: NodeId, path: seq<EdgeId>, mid: NodeId, e: EdgeId)
    requires IsWalk(edges, from, path, mid) && e in edges && IsEnd(edges[e], mid)
    ensures IsWalk(edges, from, path + [e], GetOtherNode(edges[e], mid))
    decreases |path|
  {
    if path == [] {
      assert [e][1..] == [];
    } else {
      assert (path + [e])[1..] == path[1..] + [e];
      IsWalkSnoc(edges, GetOtherNode(edges[path[0]], from), path[1..], mid, e);
    }
  }

  /** Roads are two-way: a walk read backwards leads back. */
  lemma {:induction false} IsWalkReverse(edges: map<EdgeId, Edge>, from: NodeId, path: seq<EdgeId>, to: NodeId)
    requires IsWalk(edges, from, path, to)
    ensures IsWalk(edges, to, Chunks.Reverse(path), from)
    decreases |path|
  {
    if path != [] {
      var mid := GetOtherNode(edges[path[0]], from);
      IsWalkReverse(edges, mid, path[1..], to);
      ReverseStep(edges, from, path, mid, to);
    }
  }

  /** One step of `IsWalkReverse`: the reversed rest, followed by the first edge read backwards. */
  lemma ReverseStep(edges: map<EdgeId, Edge>, from: NodeId, path: seq<EdgeId>, mid: NodeId, to: NodeId)
    requires path != [] && path[0] in edges && IsEnd(edges[path[0]], from)
    requires mid == GetOtherNode(edges[path[0]], from)
    requires IsWalk(edges, to, Chunks.Reverse(path[1..]), mid)
    ensures IsWalk(edges, to, Chunks.Reverse(path), from)
  {
    var e := path[0];
    OtherOfOther(edges[e], from);
    assert IsWalk(edges, mid, [e], from) by {
      assert [e][1..] == [];
    }
    WalkAppend(edges, to, Chunks.Reverse(path[1..]), mid, [e], from);
    ReverseFirst(path);
  }

  lemma {:induction false} WalkAppend(edges: map<EdgeId, Edge>, a: NodeId, p: seq<EdgeId>, b: NodeId, q: seq<EdgeId>, c: NodeId)
    requires IsWalk(edges, a, p, b) && IsWalk(edges, b, q, c)
    ensures IsWalk(edges, a, p + q, c)
    decreases |p|
  {
    if p == [] {
      assert p + q == q;
    } else {
      assert (p + q)[1..] == p[1..] + q;
      WalkAppend(edges, GetOtherNode(edges[p[0]], a), p[1..], b, q, c);
    }
  }

  lemma ReverseFirst<X>(s: seq<X>)
    requires s != []
    ensures Chunks.Reverse(s) == Chunks.Reverse(s[1..]) + [s[0]]
  {
    var r, t := Chunks.Reverse(s), Chunks.Reverse(s[1..]);
    forall i | 0 <= i < |s| - 1
      ensures r[i] == t[i]
    {
      assert t[i] == s[1..][|s| - 2 - i];
    }
    assert r == t + [s[0]];
  }

  /** Every neighbour of `n` is in `s`. */
  ghost predicate NeighboursIn(nodes: map<NodeId, Node>, edges: map<EdgeId, Edge>, n: NodeId, s: set<NodeId>)
    requires n in nodes && EndsExist(nodes, edges) && Incidence(nodes, edges)
  {
    forall j :: 0 <= j < |nodes[n].edges| ==> GetOtherNode(edges[nodes[n].edges[j]], n) in s
  }

  /** No walk leaves a set of nodes that holds every neighbour of its members. */
  lemma {:induction false} WalkStaysIn(nodes: map<NodeId, Node>, edges: map<EdgeId, Edge>, s: set<NodeId>,
                                       from: NodeId, path: seq<EdgeId>, to: NodeId)
    requires EndsExist(nodes, edges) && Incidence(nodes, edges)
    requires s <= nodes.Keys && forall n :: n in s ==> NeighboursIn(nodes, edges, n, s)
    requires from in s && IsWalk(edges, from, path, to)
    ensures to in s
    decreases |path|
  {
    if path != [] {
      var e := path[0];
      assert e in nodes[from].edges;
      var j :| 0 <= j < |nodes[from].edges| && nodes[from].edges[j] == e;
      assert NeighboursIn(nodes, edges, from, s);
      WalkStaysIn(nodes, edges, s, GetOtherNode(edges[e], from), path[1..], to);
    }
  }

  /** `m` comes before `n`: a smaller g-score, or the same one set earlier. */
  ghost predicate RankLess(g: map<NodeId, real>, stamp: map<NodeId, nat>, m: NodeId, n: NodeId)
    requires m in g && n in g && m in stamp && n in stamp
  {
    g[m] < g[n] || (g[m] == g[n] && stamp[m] < stamp[n])
  }

  /** The `came_from` link of `n` leads over an edge of `n` to a node of lower rank. */
  ghost predicate LinksBack(nodes: map<NodeId, Node>, edges: map<EdgeId, Edge>, cameFrom: map<NodeId, NodeId>,
                            g: map<NodeId, real>, stamp: map<NodeId, nat>, n: NodeId)
    requires EndsExist(nodes, edges) && Incidence(nodes, edges)
  {
    n in cameFrom ==>
      n in nodes && n in g && n in stamp && cameFrom[n] in g && cameFrom[n] in stamp &&
      Links(nodes, edges, n, cameFrom[n]) && RankLess(g, stamp, cameFrom[n], n)
  }

  /** Every link of `came_from` leads back. */
  ghost predicate Ranked(nodes: map<NodeId, Node>, edges: map<EdgeId, Edge>, cameFrom: map<NodeId, NodeId>,
                         g: map<NodeId, real>, stamp: map<NodeId, nat>)
    requires EndsExist(nodes, edges) && Incidence(nodes, edges)
  {
    forall n :: LinksBack(nodes, edges, cameFrom, g, stamp, n)
  }

  /**
   * The state of `a_star` between iterations: the g-scores of nodes reached
   * so far, 0 at `start` and never negative; a `came_from` link for every
   * other reached node, ranked so that following links ends at `start`;
   * the time each g-score was last set; and the expanded nodes, whose
   * neighbours are all reached, which never include `goal`.
   */
  ghost predicate SearchInv(nodes: map<NodeId, Node>, edges: map<EdgeId, Edge>, start: NodeId, goal: NodeId,
                            cameFrom: map<NodeId, NodeId>, g: map<NodeId, real>,
                            stamp: map<NodeId, nat>, clock: nat, closed: set<NodeId>)
    requires EndsExist(nodes, edges) && Incidence(nodes, edges)
  {
    Scores(nodes, start, g) && cameFrom.Keys == g.Keys - {start} && Stamps(g, stamp, clock) &&
    Ranked(nodes, edges, cameFrom, g, stamp) && Expanded(nodes, edges, goal, g, closed)
  }

  /** Every node of `visited` ranks above `n`. */
  ghost predicate Outranks(g: map<NodeId, real>, stamp: map<NodeId, nat>, visited: set<NodeId>, n: NodeId)
    requires n in g && n in stamp
  {
    forall v :: v in visited ==> v in g && v in stamp && RankLess(g, stamp, n, v)
  }

  /** Following a link to a lower-ranked node never returns to a node already passed. */
  lemma RankStep(g: map<NodeId, real>, stamp: map<NodeId, nat>, visited: set<NodeId>, n: NodeId, next: NodeId)
    requires n in g && n in stamp && next in g && next in stamp
    requires Outranks(g, stamp, visited, n) && n !in visited && RankLess(g, stamp, next, n)
    ensures Outranks(g, stamp, visited + {n}, next) && next !in visited + {n}
  {
  }

  /** One more visited node leaves fewer unvisited ones. */
  lemma FewerLeft<X>(keys: set<X>, visited: set<X>, x: X)
    requires visited <= keys && x in keys && x !in visited
    ensures |keys - (visited + {x})| < |keys - visited|
  {
    assert keys - visited == (keys - (visited + {x})) + {x};
  }

  /** The edge `find_edge` returns for a linked pair leads from `n` to `m`. */
  lemma LinkStep(nodes: map<NodeId, Node>, edges: map<EdgeId, Edge>, n: NodeId, m: NodeId, e: EdgeId, i: nat)
    requires EndsExist(nodes, edges) && Incidence(nodes, edges) && n in nodes
    requires FirstLink(nodes, edges, n, m, i) && nodes[n].edges[i] == e
    ensures e in edges && IsEnd(edges[e], n) && GetOtherNode(edges[e], n) == m
  {
    assert e in nodes[n].edges;
  }

  /**
   * One round of `reconstruct_path`: following the link of `n` over the
   * edge `find_edge` returns for it extends the walk and the chain, and
   * reaches a node of lower rank than every node passed.
   */
  lemma ReconstructStep(nodes: map<NodeId, Node>, edges: map<EdgeId, Edge>, cameFrom: map<NodeId, NodeId>,
                        g: map<NodeId, real>, stamp: map<NodeId, nat>, goal: NodeId,
                        vec: seq<EdgeId>, chain: seq<NodeId>, idx: seq<nat>, visited: set<NodeId>,
                        n: NodeId, e: EdgeId, j: nat)
    requires EndsExist(nodes, edges) && Incidence(nodes, edges)
    requires n in cameFrom && n in g && n in stamp && LinksBack(nodes, edges, cameFrom, g, stamp, n)
    requires IsWalk(edges, goal, vec, n)
    requires FollowsCameFrom(nodes, edges, cameFrom, chain, vec, idx) && chain[|vec|] == n
    requires visited <= cameFrom.Keys && n !in visited && Outranks(g, stamp, visited, n)
    requires FirstLink(nodes, edges, n, cameFrom[n], j) && nodes[n].edges[j] == e
    ensures cameFrom[n] in g && cameFrom[n] in stamp
    ensures IsWalk(edges, goal, vec + [e], cameFrom[n])
    ensures FollowsCameFrom(nodes, edges, cameFrom, chain + [cameFrom[n]], vec + [e], idx + [j])
    ensures visited + {n} <= cameFrom.Keys && cameFrom[n] !in visited + {n}
    ensures Outranks(g, stamp, visited + {n}, cameFrom[n])
    ensures |cameFrom.Keys - (visited + {n})| < |cameFrom.Keys - visited|
  {
    LinkStep(nodes, edges, n, cameFrom[n], e, j);
    IsWalkSnoc(edges, goal, vec, n, e);
    FollowsSnoc(nodes, edges, cameFrom, chain, vec, idx, e, j);
    RankStep(g, stamp, visited, n, cameFrom[n]);
    FewerLeft(cameFrom.Keys, visited, n);
  }

  /** Appending a prefix one longer is appending the prefix and then the next element. */
  lemma PrefixSnoc<X>(pre: seq<X>, s: seq<X>, i: nat)
    requires i < |s|
    ensures pre + s[..i + 1] == pre + s[..i] + [s[i]]
  {
    assert s[..i + 1] == s[..i] + [s[i]];
  }

  /** Every node listed in `ns` is in `s`. */
  ghost predicate Reached(ns: seq<(NodeId, EdgeId)>, s: set<NodeId>)
  {
    forall j :: 0 <= j < |ns| ==> ns[j].0 in s
  }

  /** The pairs of `get_neighbours` for `n`: each edge of `n` after its end opposite `n`. */
  ghost predicate OppositeEnds(nodes: map<NodeId, Node>, edges: map<EdgeId, Edge>, n: NodeId, ns: seq<(NodeId, EdgeId)>)
    requires n in nodes
  {
    |ns| == |nodes[n].edges| &&
    forall j :: 0 <= j < |ns| ==>
      ns[j].1 == nodes[n].edges[j] && ns[j].1 in edges && IsEnd(edges[ns[j].1], n) &&
      ns[j].0 == GetOtherNode(edges[ns[j].1], n)
  }

  /** The ends `get_neighbours` lists are the other ends of the node's edges. */
  lemma NeighboursAreEnds(nodes: map<NodeId, Node>, edges: map<EdgeId, Edge>, n: NodeId, ns: seq<(NodeId, EdgeId)>)
    requires EndsExist(nodes, edges) && Incidence(nodes, edges) && n in nodes
    requires |ns| == |nodes[n].edges|
    requires forall i :: 0 <= i < |ns| ==>
      ns[i].1 == nodes[n].edges[i] && ns[i].1 in edges &&
      multiset{n, ns[i].0} == multiset{edges[ns[i].1].nodes.0, edges[ns[i].1].nodes.1}
    ensures OppositeEnds(nodes, edges, n, ns)
  {
    forall j | 0 <= j < |ns|
      ensures IsEnd(edges[ns[j].1], n) && ns[j].0 == GetOtherNode(edges[ns[j].1], n)
    {
      assert nodes[n].edges[j] in nodes[n].edges;
      OtherByMultiset(edges[ns[j].1], n, ns[j].0);
    }
  }

  /** Reaching the next listed node extends the reached prefix. */
  lemma ReachedGrows(ns: seq<(NodeId, EdgeId)>, i: nat, s: set<NodeId>, s': set<NodeId>)
    requires i < |ns| && Reached(ns[..i], s) && s + {ns[i].0} <= s'
    ensures Reached(ns[..i + 1], s')
  {
    assert forall j :: 0 <= j < i ==> ns[..i][j] == ns[..i + 1][j];
  }

  /** Once every listed neighbour is reached, the node's neighbours are all reached. */
  lemma ReachedAll(nodes: map<NodeId, Node>, edges: map<EdgeId, Edge>, n: NodeId, ns: seq<(NodeId, EdgeId)>, s: set<NodeId>)
    requires EndsExist(nodes, edges) && Incidence(nodes, edges) && n in nodes
    requires OppositeEnds(nodes, edges, n, ns) && Reached(ns, s)
    ensures NeighboursIn(nodes, edges, n, s)
  {
    forall j | 0 <= j < |nodes[n].edges|
      ensures GetOtherNode(edges[nodes[n].edges[j]], n) in s
    {
      assert ns[j].0 in s;
    }
  }

  /** The open set holds reached nodes only, and every reached node is expanded or open. */
  ghost predicate Frontier(open: set<NodeId>, reached: set<NodeId>, closed: set<NodeId>)
  {
    open <= reached <= closed + open
  }

  /** The stamps after relaxing `nb` to `t`: the current time when its g-score improved. */
  ghost function NextStamp(g: map<NodeId, real>, stamp: map<NodeId, nat>, clock: nat, nb: NodeId, t: real): map<NodeId, nat>
  {
    if Improves(g, nb, t) then stamp[nb := clock] else stamp
  }

  /** The clock after relaxing `nb` to `t`: advanced when its g-score improved. */
  ghost function NextClock(g: map<NodeId, real>, clock: nat, nb: NodeId, t: real): nat
  {
    if Improves(g, nb, t) then clock + 1 else clock
  }

  /** Reaching `nb` at cost `t` improves on its g-score, if it has one. */
  predicate Improves(g: map<NodeId, real>, nb: NodeId, t: real)
  {
    nb !in g || t < g[nb]
  }

  /**
   * The outcome of relaxing `nb` from `cur` at cost `t`: an improvement
   * records `cur` as its predecessor and `t` as its g-score, otherwise
   * nothing changes.
   */
  ghost predicate Relaxed(cameFrom: map<NodeId, NodeId>, g: map<NodeId, real>, cur: NodeId, nb: NodeId, t: real,
                          cameFrom': map<NodeId, NodeId>, g': map<NodeId, real>)
  {
    if Improves(g, nb, t) then cameFrom' == cameFrom[nb := cur] && g' == g[nb := t]
    else cameFrom' == cameFrom && g' == g
  }

  /** Either outcome of a relaxation keeps the search state. */
  lemma RelaxOutcome(nodes: map<NodeId, Node>, edges: map<EdgeId, Edge>, start: NodeId, goal: NodeId,
                     cameFrom: map<NodeId, NodeId>, g: map<NodeId, real>,
                     stamp: map<NodeId, nat>, clock: nat, closed: set<NodeId>,
                     cur: NodeId, nb: NodeId, e: EdgeId, t: real, cameFrom': map<NodeId, NodeId>, g': map<NodeId, real>)
    requires EndsExist(nodes, edges) && Incidence(nodes, edges)
    requires SearchInv(nodes, edges, start, goal, cameFrom, g, stamp, clock, closed)
    requires cur in g && e in edges && IsEnd(edges[e], cur) && nb == GetOtherNode(edges[e], cur) && t >= g[cur]
    requires Relaxed(cameFrom, g, cur, nb, t, cameFrom', g')
    ensures SearchInv(nodes, edges, start, goal, cameFrom', g', NextStamp(g, stamp, clock, nb, t), NextClock(g, clock, nb, t), closed)
    ensures g.Keys + {nb} <= g'.Keys
  {
    if Improves(g, nb, t) {
      RelaxKeeps(nodes, edges, start, goal, cameFrom, g, stamp, clock, closed, cur, e, t);
    }
  }

  /** The frontier after a relaxation: an improved node is (re)queued. */
  lemma FrontierRelax(open: set<NodeId>, open': set<NodeId>, cameFrom: map<NodeId, NodeId>, g: map<NodeId, real>,
                      cameFrom': map<NodeId, NodeId>, g': map<NodeId, real>, closed: set<NodeId>, cur: NodeId, nb: NodeId, t: real)
    requires Frontier(open, g.Keys, closed)
    requires Relaxed(cameFrom, g, cur, nb, t, cameFrom', g')
    requires Improves(g, nb, t) ==> open' == open + {nb}
    requires !Improves(g, nb, t) ==> open' == open
    ensures Frontier(open', g'.Keys, closed)
  {
  }

  /** The g-scores: of stored nodes only, 0 at `start`, never negative. */
  ghost predicate Scores(nodes: map<NodeId, Node>, start: NodeId, g: map<NodeId, real>)
  {
    g.Keys <= nodes.Keys && start in g && g[start] == 0.0 && forall n :: n in g ==> g[n] >= 0.0
  }

  /** Each g-score was set at a time before `clock`. */
  ghost predicate Stamps(g: map<NodeId, real>, stamp: map<NodeId, nat>, clock: nat)
  {
    stamp.Keys == g.Keys && forall n :: n in stamp ==> stamp[n] < clock
  }

  /** The expanded nodes: reached, not `goal`, and with every neighbour reached. */
  ghost predicate Expanded(nodes: map<NodeId, Node>, edges: map<EdgeId, Edge>, goal: NodeId,
                           g: map<NodeId, real>, closed: set<NodeId>)
    requires EndsExist(nodes, edges) && Incidence(nodes, edges)
  {
    closed <= nodes.Keys && closed <= g.Keys && goal !in closed &&
    forall n :: n in closed ==> NeighboursIn(nodes, edges, n, g.Keys)
  }

  /**
   * The state of the main loop of `a_star` after `steps` of at most `fuel`
   * iterations: the search state with `queued` as the open set; the nodes
   * expanded so far, in order, starting with `start`, none of them `goal`
   * and all reachable; and `explored`, their edges one node after another.
   * Before the first expansion only `start` is queued and nothing is linked
   * or explored, and when `start` is `goal` nothing is ever expanded.
   */
  ghost predicate SearchLoop(nodes: map<NodeId, Node>, edges: map<EdgeId, Edge>, start: NodeId, goal: NodeId,
                             cameFrom: map<NodeId, NodeId>, g: map<NodeId, real>,
                             stamp: map<NodeId, nat>, clock: nat, closed: set<NodeId>, queued: set<NodeId>,
                             fuel: nat, steps: nat, expanded: seq<NodeId>, explored: seq<EdgeId>)
    requires EndsExist(nodes, edges) && Incidence(nodes, edges)
  {
    SearchInv(nodes, edges, start, goal, cameFrom, g, stamp, clock, closed) &&
    Frontier(queued, g.Keys, closed) &&
    steps <= fuel && |expanded| == steps &&
    (steps == 0 ==> queued == {start} && cameFrom == map[] && explored == []) &&
    (start == goal ==> steps == 0) &&
    (forall i :: 0 <= i < |expanded| ==> expanded[i] in nodes && expanded[i] != goal) &&
    explored == EdgesOf(nodes, expanded) &&
    (steps > 0 ==> expanded[0] == start) &&
    AllReachable(edges, start, expanded)
  }

  /**
   * One expansion of `a_star`: popping `current`, which is not the goal,
   * from the queue and expanding it makes one more step, with `current`
   * expanded and its edges explored.
   */
  lemma SearchAdvance(nodes: map<NodeId, Node>, edges: map<EdgeId, Edge>, start: NodeId, goal: NodeId,
                      cameFrom: map<NodeId, NodeId>, g: map<NodeId, real>,
                      stamp: map<NodeId, nat>, clock: nat, closed: set<NodeId>, queued: set<NodeId>,
                      fuel: nat, steps: nat, expanded: seq<NodeId>, explored: seq<EdgeId>, current: NodeId,
                      cameFrom': map<NodeId, NodeId>, g': map<NodeId, real>,
                      stamp': map<NodeId, nat>, clock': nat, queued': set<NodeId>, explored': seq<EdgeId>)
    requires EndsExist(nodes, edges) && Incidence(nodes, edges)
    requires SearchLoop(nodes, edges, start, goal, cameFrom, g, stamp, clock, closed, queued, fuel, steps, expanded, explored)
    requires steps < fuel && current in queued && current != goal
    requires SearchInv(nodes, edges, start, goal, cameFrom', g', stamp', clock', closed + {current})
    requires Frontier(queued', g'.Keys, closed + {current})
    requires current in nodes && explored' == explored + nodes[current].edges
    ensures SearchLoop(nodes, edges, start, goal, cameFrom', g', stamp', clock', closed + {current}, queued',
                       fuel, steps + 1, expanded + [current], explored')
  {
    ExpandedSnoc(nodes, goal, expanded, current);
    ReachedFromStart(nodes, edges, start, goal, cameFrom', g', stamp', clock', closed + {current}, current);
    ReachableSnoc(edges, start, expanded, current);
  }

  /**
   * When `goal` comes out of the queue it has a g-score and a stamp, the
   * links are ranked, and when it is `start` nothing is linked or explored.
   */
  lemma GoalReached(nodes: map<NodeId, Node>, edges: map<EdgeId, Edge>, start: NodeId, goal: NodeId,
                    cameFrom: map<NodeId, NodeId>, g: map<NodeId, real>,
                    stamp: map<NodeId, nat>, clock: nat, closed: set<NodeId>, queued: set<NodeId>,
                    fuel: nat, steps: nat, expanded: seq<NodeId>, explored: seq<EdgeId>)
    requires EndsExist(nodes, edges) && Incidence(nodes, edges)
    requires SearchLoop(nodes, edges, start, goal, cameFrom, g, stamp, clock, closed, queued, fuel, steps, expanded, explored)
    requires goal in queued
    ensures goal in g && goal in stamp && Ranked(nodes, edges, cameFrom, g, stamp)
    ensures start == goal ==> goal !in cameFrom && explored == []
  {
  }

  /**
   * What `a_star` reports on every way out of its loop: the expanded nodes
   * are stored non-goal nodes, all reachable, with `start` first once
   * anything was expanded, and `explored` is their edges in order.
   */
  lemma SearchEnds(nodes: map<NodeId, Node>, edges: map<EdgeId, Edge>, start: NodeId, goal: NodeId,
                   cameFrom: map<NodeId, NodeId>, g: map<NodeId, real>,
                   stamp: map<NodeId, nat>, clock: nat, closed: set<NodeId>, queued: set<NodeId>,
                   fuel: nat, steps: nat, expanded: seq<NodeId>, explored: seq<EdgeId>)
    requires EndsExist(nodes, edges) && Incidence(nodes, edges)
    requires SearchLoop(nodes, edges, start, goal, cameFrom, g, stamp, clock, closed, queued, fuel, steps, expanded, explored)
    requires start != goal && fuel > 0 ==> steps > 0
    ensures forall i :: 0 <= i < |expanded| ==> expanded[i] in nodes && expanded[i] != goal
    ensures explored == EdgesOf(nodes, expanded)
    ensures start != goal && fuel > 0 ==> |expanded| > 0 && expanded[0] == start
    ensures AllReachable(edges, start, expanded)
  {
  }

  /** The search starts from `start` alone. */
  lemma SearchStarts(nodes: map<NodeId, Node>, edges: map<EdgeId, Edge>, start: NodeId, goal: NodeId)
    requires EndsExist(nodes, edges) && Incidence(nodes, edges) && start in nodes
    ensures SearchInv(nodes, edges, start, goal, map[], map[start := 0.0], map[start := 0], 1, {})
  {
    forall n ensures LinksBack(nodes, edges, map[], map[start := 0.0], map[start := 0], n) { }
  }

  /** A neighbour reached from `n` over edge `e` links back to `n`. */
  lemma LinksOver(nodes: map<NodeId, Node>, edges: map<EdgeId, Edge>, n: NodeId, e: EdgeId)
    requires EndsExist(nodes, edges) && Incidence(nodes, edges)
    requires e in edges && IsEnd(edges[e], n)
    ensures GetOtherNode(edges[e], n) in nodes && Links(nodes, edges, GetOtherNode(edges[e], n), n)
  {
    var m := GetOtherNode(edges[e], n);
    OtherOfOther(edges[e], n);
    assert e in nodes[m].edges;
    var j :| 0 <= j < |nodes[m].edges| && nodes[m].edges[j] == e;
  }

  /**
   * A strict improvement of the g-score of `nb`, reached from `cur` at cost
   * no less than `cur`'s, keeps the search state, with `nb` linked to `cur`
   * and stamped with the current time.
   */
  lemma RelaxKeeps(nodes: map<NodeId, Node>, edges: map<EdgeId, Edge>, start: NodeId, goal: NodeId,
                   cameFrom: map<NodeId, NodeId>, g: map<NodeId, real>,
                   stamp: map<NodeId, nat>, clock: nat, closed: set<NodeId>,
                   cur: NodeId, e: EdgeId, t: real)
    requires EndsExist(nodes, edges) && Incidence(nodes, edges)
    requires SearchInv(nodes, edges, start, goal, cameFrom, g, stamp, clock, closed)
    requires cur in g && e in edges && IsEnd(edges[e], cur) && t >= g[cur]
    requires GetOtherNode(edges[e], cur) !in g || t < g[GetOtherNode(edges[e], cur)]
    ensures var nb := GetOtherNode(edges[e], cur);
      SearchInv(nodes, edges, start, goal, cameFrom[nb := cur], g[nb := t], stamp[nb := clock], clock + 1, closed)
  {
    var nb := GetOtherNode(edges[e], cur);
    LinksOver(nodes, edges, cur, e);
    RelaxScores(nodes, start, cameFrom, g, stamp, clock, cur, nb, t);
    RelaxRanked(nodes, edges, cameFrom, g, stamp, clock, cur, nb, t);
    RelaxExpanded(nodes, edges, goal, g, closed, nb, t);
  }

  /** The g-scores, links and stamps after `nb`'s g-score improves to `t`. */
  lemma RelaxScores(nodes: map<NodeId, Node>, start: NodeId, cameFrom: map<NodeId, NodeId>, g: map<NodeId, real>,
                    stamp: map<NodeId, nat>, clock: nat, cur: NodeId, nb: NodeId, t: real)
    requires Scores(nodes, start, g) && cameFrom.Keys == g.Keys - {start} && Stamps(g, stamp, clock)
    requires cur in g && nb in nodes && t >= g[cur]
    requires nb !in g || t < g[nb]
    ensures nb != start
    ensures Scores(nodes, start, g[nb := t]) && cameFrom[nb := cur].Keys == g[nb := t].Keys - {start}
    ensures Stamps(g[nb := t], stamp[nb := clock], clock + 1)
  {
    assert cameFrom[nb := cur].Keys == cameFrom.Keys + {nb};
  }

  /** Reaching `nb` keeps the expanded nodes' neighbours reached. */
  lemma RelaxExpanded(nodes: map<NodeId, Node>, edges: map<EdgeId, Edge>, goal: NodeId,
                      g: map<NodeId, real>, closed: set<NodeId>, nb: NodeId, t: real)
    requires EndsExist(nodes, edges) && Incidence(nodes, edges)
    requires Expanded(nodes, edges, goal, g, closed)
    ensures Expanded(nodes, edges, goal, g[nb := t], closed)
  {
    NeighboursGrow(nodes, edges, closed, g.Keys, g.Keys + {nb});
    assert g[nb := t].Keys == g.Keys + {nb};
  }

  /** The ranking survives linking `nb` to `cur` with a g-score strictly below the old one. */
  lemma RelaxRanked(nodes: map<NodeId, Node>, edges: map<EdgeId, Edge>, cameFrom: map<NodeId, NodeId>,
                    g: map<NodeId, real>, stamp: map<NodeId, nat>, clock: nat, cur: NodeId, nb: NodeId, t: real)
    requires EndsExist(nodes, edges) && Incidence(nodes, edges)
    requires Ranked(nodes, edges, cameFrom, g, stamp) && Stamps(g, stamp, clock)
    requires cur in g && cur != nb && nb in nodes && t >= g[cur] && Links(nodes, edges, nb, cur)
    requires nb !in g || t < g[nb]
    ensures Ranked(nodes, edges, cameFrom[nb := cur], g[nb := t], stamp[nb := clock])
  {
    var cameFrom', g', stamp' := cameFrom[nb := cur], g[nb := t], stamp[nb := clock];
    forall n
      ensures LinksBack(nodes, edges, cameFrom', g', stamp', n)
    {
      assert LinksBack(nodes, edges, cameFrom, g, stamp, n);
    }
  }

  /** Nodes whose neighbours are all in `s` still have them all in a larger set. */
  lemma NeighboursGrow(nodes: map<NodeId, Node>, edges: map<EdgeId, Edge>, closed: set<NodeId>, s: set<NodeId>, s': set<NodeId>)
    requires EndsExist(nodes, edges) && Incidence(nodes, edges)
    requires closed <= nodes.Keys && s <= s'
    requires forall n :: n in closed ==> NeighboursIn(nodes, edges, n, s)
    ensures forall n :: n in closed ==> NeighboursIn(nodes, edges, n, s')
  {
    forall n | n in closed
      ensures NeighboursIn(nodes, edges, n, s')
    {
      assert NeighboursIn(nodes, edges, n, s);
    }
  }

  /** Once every neighbour of `cur` is reached, `cur` joins the expanded nodes. */
  lemma CloseNode(nodes: map<NodeId, Node>, edges: map<EdgeId, Edge>, start: NodeId, goal: NodeId,
                  cameFrom: map<NodeId, NodeId>, g: map<NodeId, real>,
                  stamp: map<NodeId, nat>, clock: nat, closed: set<NodeId>, cur: NodeId)
    requires EndsExist(nodes, edges) && Incidence(nodes, edges)
    requires SearchInv(nodes, edges, start, goal, cameFrom, g, stamp, clock, closed)
    requires cur in g && cur != goal && NeighboursIn(nodes, edges, cur, g.Keys)
    ensures SearchInv(nodes, edges, start, goal, cameFrom, g, stamp, clock, closed + {cur})
  {
  }

  /**
   * With nothing left to expand, the reached nodes are closed under
   * neighbours; `goal` is not among them, so no walk leads there.
   */
  lemma NoPathLeft(nodes: map<NodeId, Node>, edges: map<EdgeId, Edge>, start: NodeId, goal: NodeId,
                   cameFrom: map<NodeId, NodeId>, g: map<NodeId, real>,
                   stamp: map<NodeId, nat>, clock: nat, closed: set<NodeId>)
    requires EndsExist(nodes, edges) && Incidence(nodes, edges)
    requires SearchInv(nodes, edges, start, goal, cameFrom, g, stamp, clock, closed)
    requires g.Keys <= closed
    ensures forall p :: !IsWalk(edges, start, p, goal)
  {
    forall p | IsWalk(edges, start, p, goal)
      ensures false
    {
      WalkStaysIn(nodes, edges, closed, start, p, goal);
    }
  }

  /** The edges of each node of `ms`, node after node: what `a_star` appends to `explored`. */
  ghost function EdgesOf(nodes: map<NodeId, Node>, ms: seq<NodeId>): seq<EdgeId>
    requires forall i :: 0 <= i < |ms| ==> ms[i] in nodes
  {
    if ms == [] then [] else EdgesOf(nodes, ms[..|ms| - 1]) + nodes[ms[|ms| - 1]].edges
  }

  /** Following the ranked `came_from` links from a reached node ends at `start`: every reached node is reachable. */
  lemma ReachedFromStart(nodes: map<NodeId, Node>, edges: map<EdgeId, Edge>, start: NodeId, goal: NodeId,
                         cameFrom: map<NodeId, NodeId>, g: map<NodeId, real>,
                         stamp: map<NodeId, nat>, clock: nat, closed: set<NodeId>, n: NodeId)
    requires EndsExist(nodes, edges) && Incidence(nodes, edges)
    requires SearchInv(nodes, edges, start, goal, cameFrom, g, stamp, clock, closed)
    requires n in g
    ensures Reachable(edges, start, n)
  {
    var path: seq<EdgeId> := [];
    var cur := n;
    var visited: set<NodeId> := {};
    while cur in cameFrom
      invariant cur in g && cur in stamp
      invariant IsWalk(edges, n, path, cur)
      invariant visited <= cameFrom.Keys && cur !in visited
      invariant Outranks(g, stamp, visited, cur)
      decreases |cameFrom.Keys - visited|
    {
      var next := cameFrom[cur];
      assert LinksBack(nodes, edges, cameFrom, g, stamp, cur);
      var i :| 0 <= i < |nodes[cur].edges| && GetOtherNode(edges[nodes[cur].edges[i]], cur) == next;
      var e := nodes[cur].edges[i];
      assert e in nodes[cur].edges;
      IsWalkSnoc(edges, n, path, cur, e);
      RankStep(g, stamp, visited, cur, next);
      FewerLeft(cameFrom.Keys, visited, cur);
      path := path + [e];
      visited := visited + {cur};
      cur := next;
    }
    IsWalkReverse(edges, n, path, start);
  }

  /** Some walk leads from `from` to `to`. */
  ghost predicate Reachable(edges: map<EdgeId, Edge>, from: NodeId, to: NodeId)
  {
    exists p :: IsWalk(edges, from, p, to)
  }

  /** Every node of `ms` is reachable from `from`. */
  ghost predicate AllReachable(edges: map<EdgeId, Edge>, from: NodeId, ms: seq<NodeId>)
  {
    forall i :: 0 <= i < |ms| ==> Reachable(edges, from, ms[i])
  }

  /** A reachable node appended to reachable nodes. */
  lemma ReachableSnoc(edges: map<EdgeId, Edge>, from: NodeId, ms: seq<NodeId>, m: NodeId)
    requires AllReachable(edges, from, ms) && Reachable(edges, from, m)
    ensures AllReachable(edges, from, ms + [m])
  {
    forall i | 0 <= i < |ms| + 1
      ensures Reachable(edges, from, (ms + [m])[i])
    {
      if i < |ms| {
        assert (ms + [m])[i] == ms[i];
      }
    }
  }

  /** Expanding one more node appends its edges. */
  lemma ExpandedSnoc(nodes: map<NodeId, Node>, goal: NodeId, ms: seq<NodeId>, m: NodeId)
    requires forall i :: 0 <= i < |ms| ==> ms[i] in nodes && ms[i] != goal
    requires m in nodes && m != goal
    ensures forall i :: 0 <= i < |ms + [m]| ==> (ms + [m])[i] in nodes && (ms + [m])[i] != goal
    ensures EdgesOf(nodes, ms + [m]) == EdgesOf(nodes, ms) + nodes[m].edges
  {
    assert (ms + [m])[..|ms|] == ms;
  }

  /** The node without a link where `reconstruct_path` stops is `start`. */
  lemma WalkEndsAtStart(nodes: map<NodeId, Node>, edges: map<EdgeId, Edge>, start: NodeId, goal: NodeId,
                        cameFrom: map<NodeId, NodeId>, g: map<NodeId, real>,
                        stamp: map<NodeId, nat>, clock: nat, closed: set<NodeId>, p: seq<EdgeId>, last: NodeId)
    requires EndsExist(nodes, edges) && Incidence(nodes, edges)
    requires SearchInv(nodes, edges, start, goal, cameFrom, g, stamp, clock, closed)
    requires last in g && last !in cameFrom && IsWalk(edges, goal, p, last)
    ensures IsWalk(edges, goal, p, start)
  {
  }

  /** A cost of the form `distance / speed` is not negative. */
  lemma CostNonNegative(d: real, speed: real)
    requires d >= 0.0 && speed > 0.0
    ensures d / speed >= 0.0
  {
  }

  /** The other end found by `get_neighbours` is the one `get_other_node` gives. */
  lemma OtherByMultiset(e: Edge, n: NodeId, m: NodeId)
    requires IsEnd(e, n) && multiset{n, m} == multiset{e.nodes.0, e.nodes.1}
    ensures m == GetOtherNode(e, n)
  {
    if e.nodes.0 == n {
      assert multiset{n, m}[m] == multiset{n, e.nodes.1}[m];
    } else {
      assert multiset{n, m}[m] == multiset{e.nodes.0, n}[m];
    }
  }

  /** The node map after `make_edge` pushed `id` onto `a`'s list and then onto `b`'s. */
  ghost function AttachBoth(nodes: map<NodeId, Node>, a: NodeId, b: NodeId, id: EdgeId): (r: map<NodeId, Node>)
    requires a in nodes && b in nodes
    ensures Attached(nodes, r, a, b, id)
  {
    var n1 := nodes[a := nodes[a].(edges := nodes[a].edges + [id])];
    var r := n1[b := n1[b].(edges := n1[b].edges + [id])];
    assert Repeat(id, 1) == [id];
    assert Repeat(id, 2) == [id, id];
    r
  }

  /** The general case of `Rasterise`, in the terms `make_edge` computes it in. */
  lemma SlopeCase(a: Vec2, b: Vec2, axis: Axis)
    requires FromWorldPos(a).x != FromWorldPos(b).x && FromWorldPos(a).y != FromWorldPos(b).y
    requires b.Sub(a).GetMaxAxis() == Some(axis)
    ensures a.GetComp(axis) != b.GetComp(axis)
    ensures var spam := FromWorldPos(b).Sub(FromWorldPos(a));
      Rasterise(a, b) == [FromWorldPos(a), FromWorldPos(b)] +
        SlopeRun(a, b, FromWorldPos(a), axis, spam.SignumV().GetComp(axis), InnerSteps(spam.AbsV().GetComp(axis) + 1))
  {
    ChunksApart(a, b, axis);
  }

  lemma NextMultiple(k: int, n: int)
    ensures (k - 1) * n + n == k * n
  {
  }

  lemma OffsetsAdd(v: IVec2, axis: Axis, m: int, n: int)
    ensures v.WithOffsetOn(axis, m).WithOffsetOn(axis, n) == v.WithOffsetOn(axis, m + n)
  {
    AxisCases(axis);
  }
}
