/**
 * Component-wise helpers on two-dimensional vectors (src/math/vec.rs).
 * The source implements one trait twice, for glam's integer `IVec2` and its
 * single-precision `Vec2`; here they are `IVec2` (components `int`) and
 * `Vec2` (components `real`).  The few glam operations the road engine uses
 * (difference, absolute value, signum, dot product, squared distance) sit
 * beside them.
 */
module Vec {
  import opened Wrappers

  /** `Vec2Axis`. */
  datatype Axis = X | Y

  /** `Vec2Axis::other`: the axis that is not `a`. */
  function Other(a: Axis): (r: Axis)
    ensures r != a
    ensures r == X || r == Y
  {
    match a
    case X => Y
    case Y => X
  }

  lemma OtherIsInvolution(a: Axis)
    ensures Other(Other(a)) == a
  {
  }

  /** glam's `i32::signum`: -1, 0 or 1. */
  function Signum(n: int): (r: int)
    ensures r * n == Abs(n)
    ensures -1 <= r <= 1
    ensures n != 0 ==> r != 0
  {
    if n > 0 then 1 else if n < 0 then -1 else 0
  }

  function Abs(n: int): (r: nat)
    ensures r == n || r == -n
  {
    if n < 0 then -n else n
  }

  datatype IVec2 = IVec2(x: int, y: int) {

    /** `get_comp`: the component on axis `c`. */
    function GetComp(c: Axis): int
    {
      match c
      case X => x
      case Y => y
    }

    /**
     * `get_max_axis`: the axis whose SIGNED component is strictly larger,
     * or `None` when both are equal.  Magnitudes are not compared.
     */
    function GetMaxAxis(): (r: Option<Axis>)
      ensures r == Some(X) <==> x > y
      ensures r == Some(Y) <==> y > x
      ensures r == None <==> x == y
      ensures r.Some? ==> GetComp(r.value) > GetComp(Other(r.value))
    {
      if x > y then Some(X) else if y > x then Some(Y) else None
    }

    /** `with_offset_on`: adds `offset` to the component on axis `c` only. */
    function WithOffsetOn(c: Axis, offset: int): (r: IVec2)
      ensures r.GetComp(c) == GetComp(c) + offset
      ensures r.GetComp(Other(c)) == GetComp(Other(c))
    {
      match c
      case X => IVec2(x + offset, y)
      case Y => IVec2(x, y + offset)
    }

    /** `with_comp`: replaces the component on axis `c` by `value`. */
    function WithComp(c: Axis, value: int): (r: IVec2)
      ensures r.GetComp(c) == value
      ensures r.GetComp(Other(c)) == GetComp(Other(c))
    {
      match c
      case X => IVec2(value, y)
      case Y => IVec2(x, value)
    }

    /** glam's component-wise `-`. */
    function Sub(o: IVec2): IVec2
    {
      IVec2(x - o.x, y - o.y)
    }

    /** glam's component-wise `abs`. */
    function AbsV(): (r: IVec2)
      ensures r.x >= 0 && r.y >= 0
      ensures r.x == Abs(x) && r.y == Abs(y)
    {
      IVec2(Abs(x), Abs(y))
    }

    /** glam's component-wise `signum`. */
    function SignumV(): IVec2
    {
      IVec2(Signum(x), Signum(y))
    }

    /** The same vector with `real` components (an `as f32` cast). */
    function AsReal(): Vec2
    {
      Vec2(x as real, y as real)
    }
  }

  datatype Vec2 = Vec2(x: real, y: real) {

    /** `get_comp`: the component on axis `c`. */
    function GetComp(c: Axis): real
    {
      match c
      case X => x
      case Y => y
    }

    /**
     * `get_max_axis`: the axis whose SIGNED component is strictly larger,
     * or `None` when both are equal.
     */
    function GetMaxAxis(): (r: Option<Axis>)
      ensures r == Some(X) <==> x > y
      ensures r == Some(Y) <==> y > x
      ensures r == None <==> x == y
      ensures r.Some? ==> GetComp(r.value) > GetComp(Other(r.value))
    {
      if x > y then Some(X) else if y > x then Some(Y) else None
    }

    /** `with_offset_on`: adds `offset` to the component on axis `c` only. */
    function WithOffsetOn(c: Axis, offset: real): (r: Vec2)
      ensures r.GetComp(c) == GetComp(c) + offset
      ensures r.GetComp(Other(c)) == GetComp(Other(c))
    {
      match c
      case X => Vec2(x + offset, y)
      case Y => Vec2(x, y + offset)
    }

    /** `with_comp`: replaces the component on axis `c` by `value`. */
    function WithComp(c: Axis, value: real): (r: Vec2)
      ensures r.GetComp(c) == value
      ensures r.GetComp(Other(c)) == GetComp(Other(c))
    {
      match c
      case X => Vec2(value, y)
      case Y => Vec2(x, value)
    }

    /** glam's component-wise `+`. */
    function Add(o: Vec2): Vec2
    {
      Vec2(x + o.x, y + o.y)
    }

    /** glam's component-wise `-`. */
    function Sub(o: Vec2): Vec2
    {
      Vec2(x - o.x, y - o.y)
    }

    /** glam's `scalar * vector`. */
    function Scale(t: real): Vec2
    {
      Vec2(t * x, t * y)
    }

    /** glam's `/` by a scalar. */
    function Div(d: real): Vec2
      requires d != 0.0
    {
      Vec2(x / d, y / d)
    }

    /** glam's `dot`. */
    function Dot(o: Vec2): real
    {
      x * o.x + y * o.y
    }

    /** glam's `length_squared`. */
    function LengthSquared(): real
    {
      x * x + y * y
    }

    /** glam's `distance_squared`. */
    function DistanceSquared(o: Vec2): real
    {
      Sub(o).LengthSquared()
    }
  }

  /** Both axes, in the order the source matches them. */
  lemma AxisCases(a: Axis)
    ensures a == X || a == Y
  {
  }

  /**
   * The integer and the real instantiation of the trait agree: casting to
   * `real` commutes with every operation of `Vec2CompWise`.
   */
  lemma IntAndRealAgree(v: IVec2, c: Axis, n: int)
    ensures v.AsReal().GetComp(c) == v.GetComp(c) as real
    ensures v.AsReal().GetMaxAxis() == v.GetMaxAxis()
    ensures v.WithOffsetOn(c, n).AsReal() == v.AsReal().WithOffsetOn(c, n as real)
    ensures v.WithComp(c, n).AsReal() == v.AsReal().WithComp(c, n as real)
  {
  }

  /** `with_comp` on the value `get_comp` reads gives back the same vector. */
  lemma WithCompOfGetComp(v: IVec2, c: Axis)
    ensures v.WithComp(c, v.GetComp(c)) == v
  {
  }

  /** A vector is determined by its two components. */
  lemma IVec2Extensional(v: IVec2, w: IVec2)
    requires v.GetComp(X) == w.GetComp(X) && v.GetComp(Y) == w.GetComp(Y)
    ensures v == w
  {
  }
}
