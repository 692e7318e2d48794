/**
 * Lane tables of the road engine (src/traffic.rs): the twelve lane types,
 * their width and driving direction, the separator painted between a lane
 * and the one before it, fixed-size lane definitions and the name lookup
 * table.
 */
module Traffic {
  import opened Wrappers

  /** Rust's `u8`. */
  newtype u8 = n: int | 0 <= n < 256

  /** `LaneType`, in declaration order (which is also `EnumIter`'s order). */
  datatype LaneType =
    | Grass
    | Sidewalk
    | NormalForward
    | NormalReverse
    | DirtForward
    | DirtReverse
    | BusForward
    | BusReverse
    | ParkingForward
    | ParkingReverse
    | ShoulderForward
    | ShoulderReverse

  datatype LaneWidth = Half | Full

  datatype LaneDirection = Forward | Reverse

  datatype LaneFlow = Convergent | Divergent

  datatype LaneCrossing = SingleDashed | SingleContinuous | DoubleDashed | DoubleContinuous

  datatype LaneBorder = Edge | Middle

  datatype LaneSeparator =
    | Nothing
    | Curb
    | BorderStrip(border: LaneBorder)
    | SeparationStrip(flow: LaneFlow, crossing: LaneCrossing)
    | ParkingStrip

  /** Lanes pedestrians use: grass verges and sidewalks. */
  predicate IsVerge(l: LaneType)
  {
    l == Grass || l == Sidewalk
  }

  predicate IsNormal(l: LaneType)
  {
    l == NormalForward || l == NormalReverse
  }

  predicate IsBus(l: LaneType)
  {
    l == BusForward || l == BusReverse
  }

  predicate IsDirt(l: LaneType)
  {
    l == DirtForward || l == DirtReverse
  }

  predicate IsParking(l: LaneType)
  {
    l == ParkingForward || l == ParkingReverse
  }

  predicate IsShoulder(l: LaneType)
  {
    l == ShoulderForward || l == ShoulderReverse
  }

  /** `LaneType::width`: only verges are half width. */
  function Width(l: LaneType): (r: LaneWidth)
    ensures r == Half <==> IsVerge(l)
  {
    match l
    case Grass | Sidewalk => Half
    case _ => Full
  }

  /** `LaneType::name_internal`: the `Debug` spelling of the variant. */
  function Name(l: LaneType): string
  {
    match l
    case Grass => "Grass"
    case Sidewalk => "Sidewalk"
    case NormalForward => "Normal" + "Forward"
    case NormalReverse => "Normal" + "Reverse"
    case DirtForward => "Dirt" + "Forward"
    case DirtReverse => "Dirt" + "Reverse"
    case BusForward => "Bus" + "Forward"
    case BusReverse => "Bus" + "Reverse"
    case ParkingForward => "Parking" + "Forward"
    case ParkingReverse => "Parking" + "Reverse"
    case ShoulderForward => "Shoulder" + "Forward"
    case ShoulderReverse => "Shoulder" + "Reverse"
  }

  predicate EndsWith(s: string, suffix: string)
  {
    |suffix| <= |s| && s[|s| - |suffix|..] == suffix
  }

  /** `LaneType::direction`: verges have none; the others read it off their name. */
  function Direction(l: LaneType): (r: Option<LaneDirection>)
    ensures r == None <==> IsVerge(l)
  {
    match l
    case Grass | Sidewalk => None
    case NormalForward | DirtForward | BusForward | ParkingForward | ShoulderForward => Some(Forward)
    case NormalReverse | DirtReverse | BusReverse | ParkingReverse | ShoulderReverse => Some(Reverse)
  }

  /** The direction of a lane is the one its name ends with. */
  lemma DirectionMatchesName(l: LaneType)
    ensures Direction(l) == Some(Forward) <==> EndsWith(Name(l), "Forward")
    ensures Direction(l) == Some(Reverse) <==> EndsWith(Name(l), "Reverse")
  {
    ForwardMatchesName(l);
    ReverseMatchesName(l);
  }

  lemma ForwardMatchesName(l: LaneType)
    ensures Direction(l) == Some(Forward) <==> EndsWith(Name(l), "Forward")
  {
    match l
    case Grass =>
    case Sidewalk =>
      assert Name(l)[1] != "Forward"[0];
    case NormalReverse | DirtReverse | BusReverse | ParkingReverse | ShoulderReverse =>
      assert "Reverse"[0] != "Forward"[0];
    case _ =>
  }

  lemma ReverseMatchesName(l: LaneType)
    ensures Direction(l) == Some(Reverse) <==> EndsWith(Name(l), "Reverse")
  {
    match l
    case Grass =>
    case Sidewalk =>
      assert Name(l)[1] != "Reverse"[0];
    case NormalForward | DirtForward | BusForward | ParkingForward | ShoulderForward =>
      assert "Reverse"[0] != "Forward"[0];
    case _ =>
  }

  /** A lane has a direction exactly when it is full width. */
  lemma DirectionIffFullWidth(l: LaneType)
    ensures Direction(l).Some? <==> Width(l) == Full
  {
  }

  /** The border a border strip carries: the road edge on the first lane. */
  function Border(firstLane: bool): (r: LaneBorder)
    ensures r == Edge <==> firstLane
  {
    if firstLane then Edge else Middle
  }

  /**
   * `LaneType::pre_separator`: the separator drawn between lane `self`
   * (here `l`) and the lane `previous` laid out just before it.
   */
  function PreSeparator(l: LaneType, previous: LaneType, firstLane: bool): (r: LaneSeparator)
    ensures IsDirt(l) ==> r == Nothing
    ensures r.BorderStrip? ==> (r.border == Edge <==> firstLane)
    ensures r.BorderStrip? <==> (IsNormal(l) || IsBus(l)) && IsVerge(previous)
    ensures r.SeparationStrip? ==> r.crossing != DoubleDashed
    ensures r == Curb ==> Width(l) == Half && Width(previous) == Full
    ensures r == ParkingStrip ==> IsParking(l) && !IsParking(previous) && !IsVerge(previous)
  {
    match l
    case Grass =>
      (match previous
       case Grass | Sidewalk | DirtForward | DirtReverse | ShoulderForward | ShoulderReverse => Nothing
       case NormalForward | NormalReverse | BusForward | BusReverse | ParkingForward | ParkingReverse => Curb)
    case Sidewalk =>
      (match previous
       case Grass | Sidewalk | DirtForward | DirtReverse => Nothing
       case _ => Curb)
    case NormalForward =>
      (match previous
       case Grass | Sidewalk => BorderStrip(Border(firstLane))
       case NormalForward => SeparationStrip(Convergent, SingleDashed)
       case NormalReverse => SeparationStrip(Divergent, DoubleContinuous)
       case BusForward => SeparationStrip(Convergent, DoubleContinuous)
       case BusReverse => SeparationStrip(Divergent, DoubleContinuous)
       case _ => Nothing)
    case NormalReverse =>
      (match previous
       case Grass | Sidewalk => BorderStrip(Border(firstLane))
       case NormalForward => SeparationStrip(Divergent, DoubleContinuous)
       case NormalReverse => SeparationStrip(Convergent, SingleDashed)
       case BusForward => SeparationStrip(Divergent, DoubleContinuous)
       case BusReverse => SeparationStrip(Convergent, DoubleContinuous)
       case _ => Nothing)
    case DirtForward | DirtReverse => Nothing
    case BusForward =>
      (match previous
       case Grass | Sidewalk => BorderStrip(Border(firstLane))
       case NormalForward => SeparationStrip(Convergent, DoubleContinuous)
       case NormalReverse => SeparationStrip(Divergent, DoubleContinuous)
       case BusForward => SeparationStrip(Convergent, SingleDashed)
       case BusReverse => SeparationStrip(Divergent, SingleDashed)
       case _ => Nothing)
    case BusReverse =>
      (match previous
       case Grass | Sidewalk => BorderStrip(Border(firstLane))
       case NormalForward => SeparationStrip(Divergent, DoubleContinuous)
       case NormalReverse => SeparationStrip(Convergent, DoubleContinuous)
       case BusForward => SeparationStrip(Divergent, SingleDashed)
       case BusReverse => SeparationStrip(Convergent, SingleDashed)
       case _ => Nothing)
    case ParkingForward | ParkingReverse =>
      (match previous
       case Grass | Sidewalk => Nothing
       case ParkingForward | ParkingReverse => SeparationStrip(Convergent, SingleContinuous)
       case _ => ParkingStrip)
    case ShoulderForward | ShoulderReverse =>
      (match previous
       case Grass | Sidewalk | DirtForward | DirtReverse | ShoulderForward | ShoulderReverse => Nothing
       case _ => SeparationStrip(Convergent, SingleContinuous))
  }

  /** Lanes motor traffic drives in: normal and bus lanes. */
  predicate IsCarriageway(l: LaneType)
  {
    IsNormal(l) || IsBus(l)
  }

  /**
   * Between two carriageway lanes there is always a separation strip; its
   * flow is convergent exactly when both lanes run the same way, and it may
   * be crossed (single dashed) exactly between two lanes of the same type or
   * two bus lanes.
   */
  lemma CarriagewaySeparation(l: LaneType, previous: LaneType, firstLane: bool)
    requires IsCarriageway(l) && IsCarriageway(previous)
    ensures PreSeparator(l, previous, firstLane).SeparationStrip?
    ensures PreSeparator(l, previous, firstLane).flow == Convergent
        <==> Direction(l) == Direction(previous)
    ensures PreSeparator(l, previous, firstLane).crossing == SingleDashed
        <==> l == previous || (IsBus(l) && IsBus(previous))
  {
  }

  /** `first_lane` only decides which border a border strip carries. */
  lemma FirstLaneOnlyPicksBorder(l: LaneType, previous: LaneType)
    ensures PreSeparator(l, previous, true) != PreSeparator(l, previous, false)
        <==> PreSeparator(l, previous, true).BorderStrip?
  {
  }

  /** `LaneType::iter()`: every variant once, in declaration order. */
  const AllLaneTypes: seq<LaneType> := [
    Grass, Sidewalk, NormalForward, NormalReverse, DirtForward, DirtReverse,
    BusForward, BusReverse, ParkingForward, ParkingReverse, ShoulderForward, ShoulderReverse
  ]

  lemma AllLaneTypesComplete(l: LaneType)
    ensures l in AllLaneTypes
  {
    assert AllLaneTypes[Ordinal(l)] == l;
  }

  /** The position of a lane type in `AllLaneTypes`. */
  function Ordinal(l: LaneType): (r: nat)
    ensures r < |AllLaneTypes| && AllLaneTypes[r] == l
  {
    match l
    case Grass => 0
    case Sidewalk => 1
    case NormalForward => 2
    case NormalReverse => 3
    case DirtForward => 4
    case DirtReverse => 5
    case BusForward => 6
    case BusReverse => 7
    case ParkingForward => 8
    case ParkingReverse => 9
    case ShoulderForward => 10
    case ShoulderReverse => 11
  }

  /** `AllLaneTypes` lists each variant once. */
  lemma AllLaneTypesDistinct(i: nat, j: nat)
    requires i < j < |AllLaneTypes|
    ensures AllLaneTypes[i] != AllLaneTypes[j]
  {
    assert forall k :: 0 <= k < |AllLaneTypes| ==> Ordinal(AllLaneTypes[k]) == k;
  }

  /** Distinct lane types have distinct names. */
  lemma NameInjective(a: LaneType, b: LaneType)
    requires Name(a) == Name(b)
    ensures a == b
  {
    // the length tells the kind apart, the last letter the direction
    assert |Name(a)| == |Name(b)|;
    assert Name(a)[|Name(a)| - 1] == Name(b)[|Name(b)| - 1];
  }

  /** `LaneTypeManager`: a lookup from a variant's name to the variant. */
  datatype LaneTypeManager = LaneTypeManager(nameToVariant: map<string, LaneType>)

  /**
   * `LaneTypeManager::new`: inserts every variant under its name, in
   * iteration order. Afterwards each name maps to its own variant and no
   * other key is present.
   */
  method NewLaneTypeManager() returns (r: LaneTypeManager)
    ensures forall l: LaneType :: Name(l) in r.nameToVariant && r.nameToVariant[Name(l)] == l
    ensures forall k :: k in r.nameToVariant ==> exists l: LaneType :: Name(l) == k
  {
    var nameToVariant: map<string, LaneType> := map[];
    for i := 0 to |AllLaneTypes|
      invariant Registered(nameToVariant, i)
    {
      RegisterNext(nameToVariant, i);
      nameToVariant := nameToVariant[Name(AllLaneTypes[i]) := AllLaneTypes[i]];
    }
    forall l: LaneType
      ensures Name(l) in nameToVariant && nameToVariant[Name(l)] == l
    {
      AllLaneTypesComplete(l);
    }
    assert nameToVariant.Keys == set l: LaneType | l in AllLaneTypes :: Name(l);
    r := LaneTypeManager(nameToVariant);
  }

  /** `m` holds exactly the first `i` variants of the iteration, each under its name. */
  ghost predicate Registered(m: map<string, LaneType>, i: int)
    requires 0 <= i <= |AllLaneTypes|
  {
    (forall j :: 0 <= j < i ==> Name(AllLaneTypes[j]) in m && m[Name(AllLaneTypes[j])] == AllLaneTypes[j]) &&
    (forall k :: k in m ==> exists j :: 0 <= j < i && Name(AllLaneTypes[j]) == k)
  }

  /** Inserting the next variant under its name overwrites none of the earlier ones. */
  lemma RegisterNext(m: map<string, LaneType>, i: int)
    requires 0 <= i < |AllLaneTypes| && Registered(m, i)
    ensures Registered(m[Name(AllLaneTypes[i]) := AllLaneTypes[i]], i + 1)
  {
    forall j | 0 <= j < i
      ensures Name(AllLaneTypes[j]) != Name(AllLaneTypes[i])
    {
      AllLaneTypesDistinct(j, i);
      if Name(AllLaneTypes[j]) == Name(AllLaneTypes[i]) {
        NameInjective(AllLaneTypes[j], AllLaneTypes[i]);
      }
    }
  }

  /** What `LaneDefinition::new` panics with. */
  datatype LaneError = SizeZero | ExceededMaxSize

  const MaxLanes: u8 := 40

  /** `LaneDefinition`: a fixed-size array of 1 to 40 lanes. */
  datatype LaneDefinition = LaneDefinition(lanes: seq<LaneType>) {

    predicate Valid()
    {
      1 <= |lanes| <= MaxLanes as int
    }

    /** `get_size`: the number of lanes. */
    function GetSize(): (r: u8)
      requires Valid()
      ensures r as int == |lanes|
      ensures 1 <= r <= MaxLanes
    {
      |lanes| as u8
    }
  }

  /**
   * `LaneDefinition::new`: `size` grass lanes for 1..=40, and the two
   * panics otherwise.
   */
  function NewLaneDefinition(size: u8): (r: Result<LaneDefinition, LaneError>)
    ensures r.Ok? <==> 1 <= size <= MaxLanes
    ensures size == 0 ==> r == Err(SizeZero)
    ensures size > MaxLanes ==> r == Err(ExceededMaxSize)
    ensures r.Ok? ==> r.value.Valid() && |r.value.lanes| == size as int
    ensures r.Ok? ==> forall i :: 0 <= i < |r.value.lanes| ==> r.value.lanes[i] == Grass
  {
    if size == 0 then Err(SizeZero)
    else if size > MaxLanes then Err(ExceededMaxSize)
    else Ok(LaneDefinition(seq(size as int, _ => Grass)))
  }

  /** `get_size` gives back the size `new` was called with. */
  lemma GetSizeOfNew(size: u8)
    requires 1 <= size <= MaxLanes
    ensures NewLaneDefinition(size).Ok?
    ensures NewLaneDefinition(size).value.GetSize() == size
  {
  }
}
