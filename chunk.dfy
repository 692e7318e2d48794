/**
 * The spatial chunk grid of the road engine (src/node/mod.rs): the world is
 * cut into square chunks of side `CHUNK_SIZE`; a point's home chunk, the one
 * to four chunks searched around a query point, the iterator over them, and
 * the chunks an edge is registered in.
 */
module Chunks {
  import opened Wrappers
  import opened Vec

  /** `CHUNK_SIZE`. */
  const ChunkSize: real := 100.0

  /** `CITY_WIDTH` (src/main.rs). */
  const CityWidth: real := 100000.0

  /** Rust's `f32 as i32` for values in range: truncation toward zero. */
  function Trunc(x: real): (r: int)
    ensures -1.0 < x - r as real < 1.0
    ensures x >= 0.0 ==> 0 <= r && r as real <= x
    ensures x < 0.0 ==> r <= 0 && x <= r as real
  {
    if x >= 0.0 then x.Floor else -((-x).Floor)
  }

  /** `MAX_POS_COMP`: the last chunk index on either axis. */
  const MaxPosComp: int := Trunc((CityWidth / 2.0) / ChunkSize) - 1

  /** `MIN_POS_COMP`: the first chunk index on either axis. */
  const MinPosComp: int := Trunc((-CityWidth / 2.0) / ChunkSize)

  lemma WorldBounds()
    ensures MinPosComp == -500 && MaxPosComp == 499
  {
  }

  /** Rust's `f32::ceil`. */
  function Ceil(x: real): (r: int)
    ensures x <= r as real < x + 1.0
  {
    -((-x).Floor)
  }

  /** `ChunkPos`: the integer coordinates of a chunk. */
  type ChunkPos = IVec2

  /** One component of glam's `IVec2::clamp(MIN_POS, MAX_POS)`. */
  function Clamp(n: int): (r: int)
    ensures MinPosComp <= r <= MaxPosComp
    ensures MinPosComp <= n <= MaxPosComp ==> r == n
    ensures n < MinPosComp ==> r == MinPosComp
    ensures n > MaxPosComp ==> r == MaxPosComp
  {
    if n < MinPosComp then MinPosComp else if n > MaxPosComp then MaxPosComp else n
  }

  predicate InWorld(c: ChunkPos)
  {
    MinPosComp <= c.x <= MaxPosComp && MinPosComp <= c.y <= MaxPosComp
  }

  /** The home chunk index of one world coordinate. */
  function ChunkComp(w: real): int
  {
    Clamp((w / ChunkSize).Floor)
  }

  /** `ChunkPos::from_world_pos`: the clamped chunk a point lies in. */
  function FromWorldPos(p: Vec2): (c: ChunkPos)
    ensures InWorld(c)
  {
    IVec2(ChunkComp(p.x), ChunkComp(p.y))
  }

  /**
   * Inside the world, a coordinate lies in its home chunk:
   * `100 c <= w < 100 (c + 1)`; outside it the home chunk is the border chunk.
   */
  lemma HomeChunkContains(w: real)
    ensures MinPosComp as real * ChunkSize <= w < (MaxPosComp + 1) as real * ChunkSize ==>
        ChunkComp(w) as real * ChunkSize <= w < (ChunkComp(w) + 1) as real * ChunkSize
    ensures w < MinPosComp as real * ChunkSize ==> ChunkComp(w) == MinPosComp
    ensures w >= (MaxPosComp + 1) as real * ChunkSize ==> ChunkComp(w) == MaxPosComp
  {
  }

  /** Home chunks keep the order of the coordinates. */
  lemma ChunkCompMonotone(v: real, w: real)
    requires v <= w
    ensures ChunkComp(v) <= ChunkComp(w)
  {
  }

  /** `ChunkPosArea`: one, two or four chunks around a query point. */
  datatype Area =
    | One(a: ChunkPos)
    | Two(a: ChunkPos, b: ChunkPos)
    | Four(a: ChunkPos, b: ChunkPos, c: ChunkPos, d: ChunkPos)

  /** The chunks of an area, in the order they are stored. */
  function AreaChunks(area: Area): seq<ChunkPos>
  {
    match area
    case One(a) => [a]
    case Two(a, b) => [a, b]
    case Four(a, b, c, d) => [a, b, c, d]
  }

  function Shift(c: ChunkPos, offset: IVec2): ChunkPos
  {
    IVec2(c.x + offset.x, c.y + offset.y)
  }

  /**
   * `ChunkPosArea::expand`: the area and its copy moved by `offset`. It
   * panics on a full area.
   */
  function Expand(area: Area, offset: IVec2): (r: Area)
    requires !area.Four?
    ensures |AreaChunks(r)| == 2 * |AreaChunks(area)|
    ensures AreaChunks(r)[..|AreaChunks(area)|] == AreaChunks(area)
    ensures forall i :: 0 <= i < |AreaChunks(area)| ==>
        AreaChunks(r)[|AreaChunks(area)| + i] == Shift(AreaChunks(area)[i], offset)
  {
    match area
    case One(a) => Two(a, Shift(a, offset))
    case Two(a, b) => Four(a, b, Shift(a, offset), Shift(b, offset))
  }

  /**
   * The neighbour chunk searched on one axis, as an offset: towards the
   * nearer chunk border (up when the fraction is above one half), unless the
   * home chunk is the last one that way.
   */
  function AxisOffset(w: real): (r: Option<int>)
  {
    var pos := w / ChunkSize;
    var maxDiff := Ceil(pos) as real - pos;
    var minDiff := pos - pos.Floor as real;
    var main := Clamp(pos.Floor);
    if maxDiff < minDiff then
      (if main < MaxPosComp then Some(1) else None)
    else
      (if main > MinPosComp then Some(-1) else None)
  }

  /** `ChunkPos::get_area`: the home chunk, expanded along x and then along y. */
  function GetArea(p: Vec2): (r: Area)
    ensures AreaChunks(r)[0] == FromWorldPos(p)
  {
    var main := FromWorldPos(p);
    var area := One(main);
    var area := match AxisOffset(p.x)
      case Some(o) => Expand(area, IVec2(o, 0))
      case None => area;
    match AxisOffset(p.y)
    case Some(o) => Expand(area, IVec2(0, o))
    case None => area
  }

  /** The chunk indices searched along one axis. */
  function AxisComps(w: real): set<int>
  {
    match AxisOffset(w)
    case Some(o) => {ChunkComp(w), ChunkComp(w) + o}
    case None => {ChunkComp(w)}
  }

  /** The searched indices on one axis lie in the world, next to the home index. */
  lemma AxisCompsInWorld(w: real, i: int)
    requires i in AxisComps(w)
    ensures MinPosComp <= i <= MaxPosComp
    ensures ChunkComp(w) - 1 <= i <= ChunkComp(w) + 1
  {
  }

  /**
   * Every coordinate less than half a chunk away from `w` has its home index
   * among those searched for `w`.
   */
  lemma AxisCovers(w: real, v: real)
    requires -ChunkSize / 2.0 < v - w < ChunkSize / 2.0
    ensures ChunkComp(v) in AxisComps(w)
  {
    var pos := w / ChunkSize;
    var up := Ceil(pos) as real - pos < pos - pos.Floor as real;
    UpperBorderNearer(pos);
    FloorNear(pos, v / ChunkSize, up);
    ClampNeighbour(pos.Floor, (v / ChunkSize).Floor, up);
  }

  /** Which way the searched neighbour lies decides where a nearby floor can be. */
  lemma FloorNear(x: real, y: real, up: bool)
    requires up == (x - x.Floor as real > 0.5)
    requires x - 0.5 < y < x + 0.5
    ensures up ==> x.Floor <= y.Floor <= x.Floor + 1
    ensures !up ==> x.Floor - 1 <= y.Floor <= x.Floor
  {
  }

  /** The upper border is the nearer one exactly when the fraction exceeds one half. */
  lemma UpperBorderNearer(x: real)
    ensures (Ceil(x) as real - x < x - x.Floor as real) <==> x - x.Floor as real > 0.5
  {
    if x == x.Floor as real {
      assert Ceil(x) == x.Floor;
    } else {
      assert Ceil(x) == x.Floor + 1;
    }
  }

  /** Clamping keeps a neighbouring index next to (or equal to) the clamped one. */
  lemma ClampNeighbour(f: int, g: int, up: bool)
    requires up ==> f <= g <= f + 1
    requires !up ==> f - 1 <= g <= f
    ensures Clamp(g) == Clamp(f)
        || (up && Clamp(f) < MaxPosComp && Clamp(g) == Clamp(f) + 1)
        || (!up && Clamp(f) > MinPosComp && Clamp(g) == Clamp(f) - 1)
  {
  }

  /** The area searched around `p` is the product of the indices searched per axis. */
  lemma AreaIsProduct(p: Vec2, c: ChunkPos)
    ensures c in AreaChunks(GetArea(p)) <==> c.x in AxisComps(p.x) && c.y in AxisComps(p.y)
  {
    var m := FromWorldPos(p);
    var ox, oy := AxisOffset(p.x), AxisOffset(p.y);
    var one := One(m);
    var mid := if ox.Some? then Expand(one, IVec2(ox.value, 0)) else one;
    assert GetArea(p) == if oy.Some? then Expand(mid, IVec2(0, oy.value)) else mid;
    ProductOf(m, ox, oy, c);
  }

  /** `AreaIsProduct` over the home chunk and the two axis offsets. */
  lemma ProductOf(m: ChunkPos, ox: Option<int>, oy: Option<int>, c: ChunkPos)
    ensures var mid := if ox.Some? then Expand(One(m), IVec2(ox.value, 0)) else One(m);
      var area := if oy.Some? then Expand(mid, IVec2(0, oy.value)) else mid;
      c in AreaChunks(area) <==>
        c.x in (if ox.Some? then {m.x, m.x + ox.value} else {m.x}) &&
        c.y in (if oy.Some? then {m.y, m.y + oy.value} else {m.y})
  {
  }

  /**
   * The area around `p` has 1, 2 or 4 distinct chunks, all in the world, and
   * covers the home chunk of every point less than half a chunk away on
   * both axes.
   */
  lemma AreaFacts(p: Vec2, q: Vec2)
    ensures |AreaChunks(GetArea(p))| in {1, 2, 4}
    ensures forall i, j :: 0 <= i < j < |AreaChunks(GetArea(p))| ==>
        AreaChunks(GetArea(p))[i] != AreaChunks(GetArea(p))[j]
    ensures forall c :: c in AreaChunks(GetArea(p)) ==> InWorld(c)
    ensures -ChunkSize / 2.0 < q.x - p.x < ChunkSize / 2.0 && -ChunkSize / 2.0 < q.y - p.y < ChunkSize / 2.0 ==>
        FromWorldPos(q) in AreaChunks(GetArea(p))
  {
    forall c | c in AreaChunks(GetArea(p))
      ensures InWorld(c)
    {
      AreaIsProduct(p, c);
      AxisCompsInWorld(p.x, c.x);
      AxisCompsInWorld(p.y, c.y);
    }
    if -ChunkSize / 2.0 < q.x - p.x < ChunkSize / 2.0 && -ChunkSize / 2.0 < q.y - p.y < ChunkSize / 2.0 {
      AxisCovers(p.x, q.x);
      AxisCovers(p.y, q.y);
      AreaIsProduct(p, FromWorldPos(q));
    }
  }

  /** `ChunkPosAreaIterator`: the chunks not yet yielded. */
  datatype AreaIter =
    | Zero
    | OneLeft(a: ChunkPos)
    | TwoLeft(a: ChunkPos, b: ChunkPos)
    | ThreeLeft(a: ChunkPos, b: ChunkPos, c: ChunkPos)
    | FourLeft(a: ChunkPos, b: ChunkPos, c: ChunkPos, d: ChunkPos)
  {
    function Size(): nat
    {
      match this
      case Zero => 0
      case OneLeft(_) => 1
      case TwoLeft(_, _) => 2
      case ThreeLeft(_, _, _) => 3
      case FourLeft(_, _, _, _) => 4
    }

    /** `next`: the LAST chunk still held, and the iterator without it. */
    function Next(): (r: (Option<ChunkPos>, AreaIter))
      ensures r.0.None? <==> Size() == 0
      ensures r.0.None? ==> r.1 == Zero
      ensures r.0.Some? ==> r.1.Size() == Size() - 1
    {
      match this
      case Zero => (None, Zero)
      case OneLeft(a) => (Some(a), Zero)
      case TwoLeft(a, b) => (Some(b), OneLeft(a))
      case ThreeLeft(a, b, c) => (Some(c), TwoLeft(a, b))
      case FourLeft(a, b, c, d) => (Some(d), ThreeLeft(a, b, c))
    }

    /** Everything `next` yields from here on, in order. */
    function Drain(): seq<ChunkPos>
      decreases Size()
    {
      var (x, rest) := Next();
      match x
      case None => []
      case Some(c) => [c] + rest.Drain()
    }

    /** One call of `next` takes the first chunk of what is left, or ends the iteration. */
    lemma DrainNext()
      ensures Next().0.None? ==> Drain() == []
      ensures Next().0.Some? ==> Drain() == [Next().0.value] + Next().1.Drain()
    {
    }
  }

  /** `ChunkPosAreaIterator::new`. */
  function NewIter(area: Area): AreaIter
  {
    match area
    case One(a) => OneLeft(a)
    case Two(a, b) => TwoLeft(a, b)
    case Four(a, b, c, d) => FourLeft(a, b, c, d)
  }

  function Reverse<X>(s: seq<X>): (r: seq<X>)
    ensures |r| == |s|
    ensures forall i :: 0 <= i < |s| ==> r[i] == s[|s| - 1 - i]
  {
    if s == [] then [] else [s[|s| - 1]] + Reverse(s[..|s| - 1])
  }

  /**
   * The iterator over an area yields exactly the area's chunks, last stored
   * first, and then `None` for ever.
   */
  lemma IterYieldsArea(area: Area)
    ensures NewIter(area).Drain() == Reverse(AreaChunks(area))
    ensures Zero.Next() == (None, Zero)
  {
    assert Zero.Drain() == [];
    match area
    case One(a) =>
      assert OneLeft(a).Drain() == [a];
    case Two(a, b) =>
      assert OneLeft(a).Drain() == [a];
      assert TwoLeft(a, b).Drain() == [b, a];
    case Four(a, b, c, d) =>
      assert OneLeft(a).Drain() == [a];
      assert TwoLeft(a, b).Drain() == [b, a];
      assert ThreeLeft(a, b, c).Drain() == [c, b, a];
      assert FourLeft(a, b, c, d).Drain() == [d, c, b, a];
      assert Reverse(AreaChunks(area)) == [d, c, b, a];
  }

  /** The chunks searched around `p`, in the order they are searched. */
  function SearchOrder(p: Vec2): seq<ChunkPos>
  {
    NewIter(GetArea(p)).Drain()
  }

  lemma SearchOrderIsArea(p: Vec2, c: ChunkPos)
    ensures c in SearchOrder(p) <==> c in AreaChunks(GetArea(p))
  {
    IterYieldsArea(GetArea(p));
    var s := AreaChunks(GetArea(p));
    if c in s {
      var i :| 0 <= i < |s| && s[i] == c;
      assert Reverse(s)[|s| - 1 - i] == c;
    }
  }

  /** The bounds of Rust's `i32`. */
  const I32Min: int := -0x8000_0000
  const I32Max: int := 0x7fff_ffff

  /** Rust's saturating `as i32` applied to an already floored value. */
  function Sat32(n: int): (r: int)
    ensures I32Min <= r <= I32Max
    ensures I32Min <= n <= I32Max ==> r == n
    ensures n < I32Min ==> r == I32Min
    ensures n > I32Max ==> r == I32Max
  {
    if n < I32Min then I32Min else if n > I32Max then I32Max else n
  }

  /** How many chunks a loop `for _ in 1..steps - 1` visits. */
  function InnerSteps(steps: int): nat
  {
    if steps > 2 then steps - 2 else 0
  }

  /**
   * The coordinate on `Other(axis)` of the line through `a` and `b` at
   * coordinate `m` on `axis`: the `other_comp` interpolation of `make_edge`.
   */
  function LineAt(a: Vec2, b: Vec2, axis: Axis, m: real): real
    requires b.GetComp(axis) != a.GetComp(axis)
  {
    (b.GetComp(Other(axis)) - a.GetComp(Other(axis))) / (b.GetComp(axis) - a.GetComp(axis))
      * (m - a.GetComp(axis)) + a.GetComp(Other(axis))
  }

  /**
   * The chunk registered at step `k` of the general case: `k` chunks along
   * `axis` from `ca`, and on the other axis the chunk the line crosses at
   * the middle of that column.
   */
  function SlopeChunk(a: Vec2, b: Vec2, ca: ChunkPos, axis: Axis, offset: int, k: int): ChunkPos
    requires b.GetComp(axis) != a.GetComp(axis)
  {
    SlopeCell(a, b, axis, ca.WithOffsetOn(axis, k * offset))
  }

  /** `chunk` with its other coordinate replaced by the one the line crosses at the middle of its column. */
  function SlopeCell(a: Vec2, b: Vec2, axis: Axis, chunk: ChunkPos): ChunkPos
    requires b.GetComp(axis) != a.GetComp(axis)
  {
    var mainComp := chunk.GetComp(axis) as real * ChunkSize + ChunkSize / 2.0;
    var otherComp := LineAt(a, b, axis, mainComp);
    chunk.WithComp(Other(axis), Sat32((otherComp / ChunkSize).Floor))
  }

  /**
   * Chunk `c` is the one the line through `a` and `b` crosses at the middle
   * of `c`'s column along `axis`, whenever that index fits an `i32`.
   */
  predicate CrossedAtMiddle(a: Vec2, b: Vec2, axis: Axis, c: ChunkPos)
    requires b.GetComp(axis) != a.GetComp(axis)
  {
    var line := LineAt(a, b, axis, c.GetComp(axis) as real * ChunkSize + ChunkSize / 2.0);
    I32Min <= (line / ChunkSize).Floor <= I32Max ==>
      c.GetComp(Other(axis)) as real * ChunkSize <= line < (c.GetComp(Other(axis)) + 1) as real * ChunkSize
  }

  /** The chunks of steps 1 to `n` of the general case. */
  function SlopeRun(a: Vec2, b: Vec2, ca: ChunkPos, axis: Axis, offset: int, n: nat): seq<ChunkPos>
    requires b.GetComp(axis) != a.GetComp(axis)
  {
    seq(n, k => SlopeChunk(a, b, ca, axis, offset, k + 1))
  }

  /** Different home chunks on an axis come from different coordinates. */
  lemma ChunksApart(a: Vec2, b: Vec2, axis: Axis)
    requires FromWorldPos(a).GetComp(axis) != FromWorldPos(b).GetComp(axis)
    ensures a.GetComp(axis) != b.GetComp(axis)
  {
  }

  /**
   * The chunks `make_edge` registers an edge from `a` to `b` in, in the order
   * it registers them: both end chunks first, then the chunks stepped
   * through in between. Endpoints on one row or column step along the axis
   * of the larger `abs()` difference; otherwise the axis is the one
   * `get_max_axis` picks on the SIGNED vector `b - a`, and a vector with equal
   * components steps both axes together.
   */
  function Rasterise(a: Vec2, b: Vec2): seq<ChunkPos>
  {
    var ca := FromWorldPos(a);
    var cb := FromWorldPos(b);
    var spam := cb.Sub(ca);
    if ca == cb then
      [ca]
    else if ca.x == cb.x || ca.y == cb.y then
      var axis := spam.AbsV().GetMaxAxis().value;
      var steps := spam.AbsV().GetComp(axis) + 1;
      var offset := spam.SignumV().GetComp(axis);
      [ca, cb] + AxisRun(ca, axis, offset, InnerSteps(steps))
    else
      match b.Sub(a).GetMaxAxis()
      case Some(axis) =>
        var steps := spam.AbsV().GetComp(axis) + 1;
        var offset := spam.SignumV().GetComp(axis);
        ChunksApart(a, b, axis);
        [ca, cb] + SlopeRun(a, b, ca, axis, offset, InnerSteps(steps))
      case None =>
        var steps := spam.AbsV().GetComp(X) + 1;
        var offset := spam.SignumV().GetComp(X);
        [ca, cb] + DiagonalRun(ca, offset, InnerSteps(steps))
  }

  /** No chunk is registered twice: each bucket gets the edge at most once. */
  predicate NoDuplicates(s: seq<ChunkPos>)
  {
    forall i, j :: 0 <= i < j < |s| ==> s[i] != s[j]
  }

  function Min(m: int, n: int): int
  {
    if m <= n then m else n
  }

  function Max(m: int, n: int): int
  {
    if m <= n then n else m
  }

  /** `c` is one of the chunks on the straight run of chunks from `ca` to `cb`. */
  predicate OnStraightRun(ca: ChunkPos, cb: ChunkPos, c: ChunkPos)
  {
    (c.x == ca.x == cb.x && Min(ca.y, cb.y) <= c.y <= Max(ca.y, cb.y)) ||
    (c.y == ca.y == cb.y && Min(ca.x, cb.x) <= c.x <= Max(ca.x, cb.x))
  }

  /**
   * Chunks whose coordinates on `axis` are those of `ca`, then `n` steps of
   * `s` further, then 1, 2, ... steps of `s` further, are all different.
   */
  lemma StepsDistinct(r: seq<ChunkPos>, ca: ChunkPos, axis: Axis, n: nat, s: int)
    requires s == 1 || s == -1
    requires |r| == n + 1 && n >= 1
    requires r[0].GetComp(axis) == ca.GetComp(axis)
    requires r[1].GetComp(axis) == ca.GetComp(axis) + n * s
    requires forall i :: 2 <= i < |r| ==> r[i].GetComp(axis) == ca.GetComp(axis) + (i - 1) * s
    ensures NoDuplicates(r)
  {
    forall i, j | 0 <= i < j < |r|
      ensures r[i] != r[j]
    {
      if s == 1 {
        assert r[i].GetComp(axis) != r[j].GetComp(axis);
      } else {
        assert r[i].GetComp(axis) != r[j].GetComp(axis);
      }
    }
  }

  /**
   * The run `make_edge` registers for two chunks on one line along `axis`:
   * exactly the chunks from `ca` to `cb`, each once.
   */
  lemma StraightRun(ca: ChunkPos, cb: ChunkPos, axis: Axis)
    requires ca.GetComp(Other(axis)) == cb.GetComp(Other(axis))
    requires ca.GetComp(axis) != cb.GetComp(axis)
    ensures var d := cb.GetComp(axis) - ca.GetComp(axis);
      var r := [ca, cb] + AxisRun(ca, axis, Signum(d), InnerSteps(Abs(d) + 1));
      |r| == Abs(d) + 1 && NoDuplicates(r) &&
      forall c :: c in r <==>
        c.GetComp(Other(axis)) == ca.GetComp(Other(axis)) &&
        Min(ca.GetComp(axis), cb.GetComp(axis)) <= c.GetComp(axis) <= Max(ca.GetComp(axis), cb.GetComp(axis))
  {
    var d := cb.GetComp(axis) - ca.GetComp(axis);
    var s := Signum(d);
    var n := Abs(d);
    var r := [ca, cb] + AxisRun(ca, axis, s, InnerSteps(n + 1));
    assert s == 1 || s == -1;
    assert d == n * s by {
      if d > 0 { assert s == 1; } else { assert s == -1; }
    }
    StepsDistinct(r, ca, axis, n, s);
    forall c
      ensures c in r <==>
        c.GetComp(Other(axis)) == ca.GetComp(Other(axis)) &&
        Min(ca.GetComp(axis), cb.GetComp(axis)) <= c.GetComp(axis) <= Max(ca.GetComp(axis), cb.GetComp(axis))
    {
      if c in r {
        StraightRunSound(ca, cb, axis, n, s, c);
      }
      if c.GetComp(Other(axis)) == ca.GetComp(Other(axis)) &&
        Min(ca.GetComp(axis), cb.GetComp(axis)) <= c.GetComp(axis) <= Max(ca.GetComp(axis), cb.GetComp(axis))
      {
        StraightRunComplete(ca, cb, axis, n, s, c);
      }
    }
  }

  /** Every chunk of a straight run lies between its ends, on their row or column. */
  lemma StraightRunSound(ca: ChunkPos, cb: ChunkPos, axis: Axis, n: nat, s: int, c: ChunkPos)
    requires ca.GetComp(Other(axis)) == cb.GetComp(Other(axis))
    requires s == 1 || s == -1
    requires cb.GetComp(axis) - ca.GetComp(axis) == n * s && n > 0
    requires c in [ca, cb] + AxisRun(ca, axis, s, InnerSteps(n + 1))
    ensures c.GetComp(Other(axis)) == ca.GetComp(Other(axis))
    ensures Min(ca.GetComp(axis), cb.GetComp(axis)) <= c.GetComp(axis) <= Max(ca.GetComp(axis), cb.GetComp(axis))
  {
    var r := [ca, cb] + AxisRun(ca, axis, s, InnerSteps(n + 1));
    var i :| 0 <= i < |r| && r[i] == c;
    if i >= 2 {
      assert r[i] == ca.WithOffsetOn(axis, (i - 1) * s);
      if s == 1 { } else { }
    }
  }

  /** Every chunk between the ends of a straight run, on their row or column, is in it. */
  lemma StraightRunComplete(ca: ChunkPos, cb: ChunkPos, axis: Axis, n: nat, s: int, c: ChunkPos)
    requires ca.GetComp(Other(axis)) == cb.GetComp(Other(axis))
    requires s == 1 || s == -1
    requires cb.GetComp(axis) - ca.GetComp(axis) == n * s && n > 0
    requires c.GetComp(Other(axis)) == ca.GetComp(Other(axis))
    requires Min(ca.GetComp(axis), cb.GetComp(axis)) <= c.GetComp(axis) <= Max(ca.GetComp(axis), cb.GetComp(axis))
    ensures c in [ca, cb] + AxisRun(ca, axis, s, InnerSteps(n + 1))
  {
    var r := [ca, cb] + AxisRun(ca, axis, s, InnerSteps(n + 1));
    var delta := c.GetComp(axis) - ca.GetComp(axis);
    var j := if s == 1 then delta else -delta;
    assert 0 <= j <= n;
    assert delta == j * s;
    if j == 0 {
      IVec2Extensional(c, ca);
      assert r[0] == c;
    } else if j == n {
      IVec2Extensional(c, cb);
      assert r[1] == c;
    } else {
      var e := ca.WithOffsetOn(axis, j * s);
      OtherIsInvolution(axis);
      AxisCases(axis);
      IVec2Extensional(c, e);
      assert r[j + 1] == e;
    }
  }

  /**
   * Both end chunks are registered, the start chunk first; two points in
   * one chunk register that chunk alone.
   */
  lemma RasteriseEnds(a: Vec2, b: Vec2)
    ensures |Rasterise(a, b)| >= 1 && Rasterise(a, b)[0] == FromWorldPos(a)
    ensures FromWorldPos(b) in Rasterise(a, b)
    ensures FromWorldPos(a) == FromWorldPos(b) <==> Rasterise(a, b) == [FromWorldPos(a)]
  {
  }

  /**
   * End chunks on one row or column: every chunk of the run between them is
   * registered, exactly once, and nothing else; |delta| + 1 chunks in all.
   */
  lemma RasteriseStraight(a: Vec2, b: Vec2)
    requires FromWorldPos(a).x == FromWorldPos(b).x || FromWorldPos(a).y == FromWorldPos(b).y
    ensures |Rasterise(a, b)| ==
        Abs(FromWorldPos(b).x - FromWorldPos(a).x) + Abs(FromWorldPos(b).y - FromWorldPos(a).y) + 1
    ensures NoDuplicates(Rasterise(a, b))
    ensures forall c :: c in Rasterise(a, b) <==> OnStraightRun(FromWorldPos(a), FromWorldPos(b), c)
  {
    if FromWorldPos(a) != FromWorldPos(b) {
      RasteriseIsStraight(a, b);
      StraightRunIsOnRun(FromWorldPos(a), FromWorldPos(b));
    }
  }

  /** The straight run between two chunks on one row or column, in the terms of `OnStraightRun`. */
  lemma StraightRunIsOnRun(ca: ChunkPos, cb: ChunkPos)
    requires ca != cb && (ca.x == cb.x || ca.y == cb.y)
    ensures var axis := if ca.x == cb.x then Y else X;
      var d := cb.GetComp(axis) - ca.GetComp(axis);
      var r := [ca, cb] + AxisRun(ca, axis, Signum(d), InnerSteps(Abs(d) + 1));
      |r| == Abs(cb.x - ca.x) + Abs(cb.y - ca.y) + 1 && NoDuplicates(r) &&
      forall c :: c in r <==> OnStraightRun(ca, cb, c)
  {
    var axis := if ca.x == cb.x then Y else X;
    var d := cb.GetComp(axis) - ca.GetComp(axis);
    var r := [ca, cb] + AxisRun(ca, axis, Signum(d), InnerSteps(Abs(d) + 1));
    StraightRun(ca, cb, axis);
    forall c
      ensures c in r <==> OnStraightRun(ca, cb, c)
    {
      if axis == Y {
        assert c in r <==> c.x == ca.x && Min(ca.y, cb.y) <= c.y <= Max(ca.y, cb.y);
      } else {
        assert c in r <==> c.y == ca.y && Min(ca.x, cb.x) <= c.x <= Max(ca.x, cb.x);
      }
    }
  }

  /**
   * End chunks apart on one row or column: the source picks the axis they
   * differ on, and steps along it one chunk at a time.
   */
  lemma RasteriseIsStraight(a: Vec2, b: Vec2)
    requires FromWorldPos(a) != FromWorldPos(b)
    requires FromWorldPos(a).x == FromWorldPos(b).x || FromWorldPos(a).y == FromWorldPos(b).y
    ensures var ca := FromWorldPos(a);
      var cb := FromWorldPos(b);
      var axis := if ca.x == cb.x then Y else X;
      var d := cb.GetComp(axis) - ca.GetComp(axis);
      cb.Sub(ca).AbsV().GetMaxAxis() == Some(axis) &&
      ca.GetComp(Other(axis)) == cb.GetComp(Other(axis)) && d != 0 &&
      Rasterise(a, b) == [ca, cb] + AxisRun(ca, axis, Signum(d), InnerSteps(Abs(d) + 1))
  {
    var ca := FromWorldPos(a);
    var cb := FromWorldPos(b);
    var axis := if ca.x == cb.x then Y else X;
    StepCount(ca, cb, axis);
  }

  /** The axis the general case steps along. */
  function StepAxis(a: Vec2, b: Vec2): Axis
  {
    match b.Sub(a).GetMaxAxis()
    case Some(axis) => axis
    case None => X
  }

  /** The sign and the number of chunk steps along `axis` from `ca` to `cb`. */
  lemma StepCount(ca: ChunkPos, cb: ChunkPos, axis: Axis)
    requires ca.GetComp(axis) != cb.GetComp(axis)
    ensures var d := cb.GetComp(axis) - ca.GetComp(axis);
      cb.Sub(ca).AbsV().GetComp(axis) == Abs(d) && cb.Sub(ca).SignumV().GetComp(axis) == Signum(d) &&
      (Signum(d) == 1 || Signum(d) == -1) && Abs(d) >= 1 &&
      cb.GetComp(axis) == ca.GetComp(axis) + Abs(d) * Signum(d)
  {
    var d := cb.GetComp(axis) - ca.GetComp(axis);
    AxisCases(axis);
    if d > 0 { assert Signum(d) == 1; } else { assert Signum(d) == -1; }
  }

  /**
   * End chunks on different rows and columns, and `b - a` with a larger
   * signed component (on the step axis): besides the end chunks, the chunks
   * stepped through one at a time along that axis, by the sign of the chunk
   * difference, strictly between the end chunks on it, each registered
   * once; on the other axis, the chunk the line crosses at the middle of the
   * column, whenever that index fits an `i32`.
   */
  lemma RasteriseSlope(a: Vec2, b: Vec2)
    requires FromWorldPos(a).x != FromWorldPos(b).x && FromWorldPos(a).y != FromWorldPos(b).y
    requires b.Sub(a).GetMaxAxis().Some?
    ensures var axis := StepAxis(a, b);
      var d := FromWorldPos(b).GetComp(axis) - FromWorldPos(a).GetComp(axis);
      var r := Rasterise(a, b);
      |r| == Abs(d) + 1 && NoDuplicates(r) &&
      (forall k :: 2 <= k < |r| ==> r[k].GetComp(axis) == FromWorldPos(a).GetComp(axis) + (k - 1) * Signum(d)) &&
      forall k :: 2 <= k < |r| ==> CrossedAtMiddle(a, b, axis, r[k])
  {
    var ca := FromWorldPos(a);
    var cb := FromWorldPos(b);
    var axis := StepAxis(a, b);
    var d := cb.GetComp(axis) - ca.GetComp(axis);
    StepCount(ca, cb, axis);
    RasteriseIsSlope(a, b);
    SlopeSteps(a, b, ca, cb, axis, Abs(d), Signum(d));
  }

  lemma RasteriseIsSlope(a: Vec2, b: Vec2)
    requires FromWorldPos(a).x != FromWorldPos(b).x && FromWorldPos(a).y != FromWorldPos(b).y
    requires b.Sub(a).GetMaxAxis().Some?
    ensures var axis := StepAxis(a, b);
      var d := FromWorldPos(b).GetComp(axis) - FromWorldPos(a).GetComp(axis);
      a.GetComp(axis) != b.GetComp(axis) &&
      Rasterise(a, b) == [FromWorldPos(a), FromWorldPos(b)] + SlopeRun(a, b, FromWorldPos(a), axis, Signum(d), InnerSteps(Abs(d) + 1))
  {
    var ca := FromWorldPos(a);
    var cb := FromWorldPos(b);
    var axis := StepAxis(a, b);
    AxisCases(axis);
    StepCount(ca, cb, axis);
    ChunksApart(a, b, axis);
  }

  /**
   * End chunks on different rows and columns, and `b - a` a perfect
   * diagonal: besides the end chunks, the chunks stepped through one at a
   * time on both axes together, by the sign of the x difference, strictly
   * between the end chunks on x, each registered once.
   */
  lemma RasteriseDiagonal(a: Vec2, b: Vec2)
    requires FromWorldPos(a).x != FromWorldPos(b).x && FromWorldPos(a).y != FromWorldPos(b).y
    requires b.Sub(a).GetMaxAxis().None?
    ensures var d := FromWorldPos(b).x - FromWorldPos(a).x;
      var r := Rasterise(a, b);
      |r| == Abs(d) + 1 && NoDuplicates(r) &&
      (forall k :: 2 <= k < |r| ==> r[k].x == FromWorldPos(a).x + (k - 1) * Signum(d)) &&
      forall k :: 2 <= k < |r| ==> r[k].y - FromWorldPos(a).y == r[k].x - FromWorldPos(a).x
  {
    var ca := FromWorldPos(a);
    var cb := FromWorldPos(b);
    var d := cb.x - ca.x;
    StepCount(ca, cb, X);
    RasteriseIsDiagonal(a, b);
    DiagonalSteps(ca, cb, Abs(d), Signum(d));
  }

  lemma RasteriseIsDiagonal(a: Vec2, b: Vec2)
    requires FromWorldPos(a).x != FromWorldPos(b).x && FromWorldPos(a).y != FromWorldPos(b).y
    requires b.Sub(a).GetMaxAxis().None?
    ensures var ca := FromWorldPos(a);
      var d := FromWorldPos(b).x - ca.x;
      Rasterise(a, b) == [ca, FromWorldPos(b)] + DiagonalRun(ca, Signum(d), InnerSteps(Abs(d) + 1))
  {
    StepCount(FromWorldPos(a), FromWorldPos(b), X);
  }

  /** The chunks of steps 1 to `n` along `axis` from `ca`, `offset` apart. */
  function AxisRun(ca: ChunkPos, axis: Axis, offset: int, n: nat): seq<ChunkPos>
  {
    seq(n, k => ca.WithOffsetOn(axis, (k + 1) * offset))
  }

  /** The chunks of steps 1 to `n` of a perfect diagonal. */
  function DiagonalRun(ca: ChunkPos, offset: int, n: nat): seq<ChunkPos>
  {
    seq(n, k => ca.WithOffsetOn(X, (k + 1) * offset).WithOffsetOn(Y, (k + 1) * offset))
  }

  /** The chunks of the general case, stepping along `axis`. */
  lemma SlopeSteps(a: Vec2, b: Vec2, ca: ChunkPos, cb: ChunkPos, axis: Axis, n: nat, s: int)
    requires b.GetComp(axis) != a.GetComp(axis)
    requires s == 1 || s == -1
    requires n >= 1 && cb.GetComp(axis) == ca.GetComp(axis) + n * s
    ensures var r := [ca, cb] + SlopeRun(a, b, ca, axis, s, InnerSteps(n + 1));
      |r| == n + 1 && NoDuplicates(r) &&
      (forall k :: 2 <= k < |r| ==> r[k].GetComp(axis) == ca.GetComp(axis) + (k - 1) * s) &&
      forall k :: 2 <= k < |r| ==> CrossedAtMiddle(a, b, axis, r[k])
  {
    var r := [ca, cb] + SlopeRun(a, b, ca, axis, s, InnerSteps(n + 1));
    OtherIsInvolution(axis);
    forall k | 2 <= k < |r|
      ensures r[k].GetComp(axis) == ca.GetComp(axis) + (k - 1) * s
    {
      assert r[k] == SlopeChunk(a, b, ca, axis, s, k - 1);
    }
    StepsDistinct(r, ca, axis, n, s);
    forall k | 2 <= k < |r|
      ensures CrossedAtMiddle(a, b, axis, r[k])
    {
      var chunk := ca.WithOffsetOn(axis, (k - 1) * s);
      var line := LineAt(a, b, axis, chunk.GetComp(axis) as real * ChunkSize + ChunkSize / 2.0);
      assert r[k] == chunk.WithComp(Other(axis), Sat32((line / ChunkSize).Floor));
      FloorOfChunk(line);
    }
  }

  /** A value's floored chunk index bounds it. */
  lemma FloorOfChunk(w: real)
    ensures (w / ChunkSize).Floor as real * ChunkSize <= w < ((w / ChunkSize).Floor + 1) as real * ChunkSize
  {
  }

  /** The chunks of a perfect diagonal, stepping both axes by `s`. */
  lemma DiagonalSteps(ca: ChunkPos, cb: ChunkPos, n: nat, s: int)
    requires s == 1 || s == -1
    requires n >= 1 && cb.x == ca.x + n * s
    ensures var r := [ca, cb] + DiagonalRun(ca, s, InnerSteps(n + 1));
      |r| == n + 1 && NoDuplicates(r) &&
      (forall k :: 2 <= k < |r| ==> r[k].x == ca.x + (k - 1) * s) &&
      forall k :: 2 <= k < |r| ==> r[k].y - ca.y == r[k].x - ca.x
  {
    var r := [ca, cb] + DiagonalRun(ca, s, InnerSteps(n + 1));
    forall k | 2 <= k < |r|
      ensures r[k] == IVec2(ca.x + (k - 1) * s, ca.y + (k - 1) * s)
    {
    }
    StepsDistinct(r, ca, X, n, s);
  }

  /**
   * The signed choice of axis leaves gaps: from (50, 950) to (150, 50) the
   * vector is (100, -900), `get_max_axis` picks x, along which the end chunks
   * are neighbours, so only the two end chunks are registered, although the
   * segment passes through (100, 500) in chunk (1, 5).
   */
  lemma SignedAxisLeavesGap()
    ensures Rasterise(Vec2(50.0, 950.0), Vec2(150.0, 50.0)) == [IVec2(0, 9), IVec2(1, 0)]
    ensures Vec2(50.0, 950.0).Add(Vec2(150.0, 50.0).Sub(Vec2(50.0, 950.0)).Scale(0.5)) == Vec2(100.0, 500.0)
    ensures FromWorldPos(Vec2(100.0, 500.0)) == IVec2(1, 5)
    ensures FromWorldPos(Vec2(100.0, 500.0)) !in Rasterise(Vec2(50.0, 950.0), Vec2(150.0, 50.0))
  {
    assert (50.0 / ChunkSize).Floor == 0 && (950.0 / ChunkSize).Floor == 9;
    assert (150.0 / ChunkSize).Floor == 1 && (500.0 / ChunkSize).Floor == 5;
    assert (100.0 / ChunkSize).Floor == 1;
    var ca := FromWorldPos(Vec2(50.0, 950.0));
    var cb := FromWorldPos(Vec2(150.0, 50.0));
    assert ca == IVec2(0, 9) && cb == IVec2(1, 0);
    assert Vec2(150.0, 50.0).Sub(Vec2(50.0, 950.0)).GetMaxAxis() == Some(X);
    assert cb.Sub(ca).AbsV().GetComp(X) + 1 == 2;
  }
}
