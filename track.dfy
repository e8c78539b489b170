/** The geometry of a closed multi-lane highway, as `DotsHighway` describes it:
    an ordered sequence of sections, each straight or a quarter-circle curve,
    and a car placed on it by a lane and a distance along that lane.
    Lanes are reals because a car that changes lane sits between two. */
module Track {
  import opened FloatMath

  type PosReal = r: real | r > 0.0 witness 1.0
  type LaneCount = n: int | n >= 1 witness 1

  /** Distance between the centre lines of two neighbouring lanes (`Highway.LANE_SPACING`). */
  const LaneSpacing: PosReal
  /** Number of lanes (`Highway.NUM_LANES`). */
  const NumLanes: LaneCount
  /** Radius of the middle of the road on a curve (`Highway.MID_RADIUS`). */
  const MidRadius: real
  /** The circle constant (`math.PI`), kept abstract. */
  const Pi: PosReal

  /** The outermost lane, `NumLanes - 1`, as the lane coordinate `Create` measures. */
  function LastLane(): (lane: real)
    ensures lane >= 0.0
  {
    (NumLanes - 1) as real
  }

  datatype Vec3 = Vec3(x: real, y: real, z: real)

  /** One piece of the highway as the scene provides it: its length in lane 0,
      its heading, its lane-0 curve radius (0 for a straight piece) and its position. */
  datatype HighwayPiece = HighwayPiece(length0: real, startRotation: real, curveRadiusLane0: real, pos: Vec3)

  /** A point in a section's local frame. A straight section gives exact coordinates;
      a curve gives the point at `angle` on the circle of `radius`, i.e.
      (MidRadius - cos(angle) * radius, 0, sin(angle) * radius), left unevaluated. */
  datatype LocalPoint = Exact(v: Vec3) | OnArc(radius: real, angle: real)

  /** `GetLocalPosition`'s result: the local point and the heading `rotY` within the section. */
  datatype LocalPose = LocalPose(point: LocalPoint, rotY: real)

  /** A world position: the zero vector, or a local point rotated about the y axis by
      `yaw` and then moved by `offset` (`math.mul(q, localPos) + section.Pos`). */
  datatype WorldPoint = Zero | Transformed(yaw: real, local: LocalPoint, offset: Vec3)

  /** A world position with a heading: the rotation is `quaternion.AxisAngle(up, yaw)`;
      the identity quaternion is the rotation by yaw 0. */
  datatype WorldPose = WorldPose(pos: WorldPoint, yaw: real)

  /** `DotsHighway.Section`. */
  datatype Section = Section(pos: Vec3, lane0Length: real, startRotation: real, curveRadius: real) {

    /** Radius of `lane` on this section when it is a curve. */
    function Radius(lane: real): real {
      curveRadius + lane * LaneSpacing
    }

    /** Length of this section measured along `lane`: the stored lane-0 length for a
        straight section, a quarter of the circle at the lane's radius for a curve. */
    function LaneLength(lane: real): (len: real)
      ensures curveRadius > 0.0 && lane >= 0.0 ==> len > 0.0
      ensures curveRadius > 0.0 ==> len * 2.0 == Radius(lane) * Pi
    {
      if curveRadius > 0.0 then Radius(lane) * Pi * 0.5 else lane0Length
    }

    /** Lateral position of `lane` on a straight section: lanes are `LaneSpacing` apart
        and centred on the road's middle line, lane 0 on the positive side. */
    static function LaneOffset(lane: real): real {
      LaneSpacing * ((NumLanes - 1) as real / 2.0 - lane)
    }

    /** `GetLocalPosition`: where a car `localDistance` into this section in `lane` is,
        in the section's frame, and its heading relative to the section's start. */
    function LocalPosition(localDistance: real, lane: real): (p: LocalPose)
      requires curveRadius != 0.0 ==> Radius(lane) != 0.0
      ensures curveRadius == 0.0 ==> p.rotY == 0.0 && p.point.Exact?
      ensures curveRadius == 0.0 ==> p.point.v.x == LaneOffset(lane) && p.point.v.y == 0.0
      ensures curveRadius == 0.0 ==> p.point.v.z == localDistance
      ensures curveRadius != 0.0 ==> p.point == OnArc(Radius(lane), p.rotY)
      ensures curveRadius != 0.0 ==> p.rotY * Radius(lane) == localDistance
    {
      if curveRadius == 0.0 then
        LocalPose(Exact(Vec3(LaneOffset(lane), 0.0, localDistance)), 0.0)
      else
        var radius := Radius(lane);
        var rotY := localDistance / radius;
        LocalPose(OnArc(radius, rotY), rotY)
    }

    /** The offset into this section in `otherLane` at the same place as `localDistance`
        into it in `lane`: kept on a straight, scaled by the ratio of the radii on a curve. */
    function EquivalentOffset(localDistance: real, lane: real, otherLane: real): real
      requires curveRadius != 0.0 ==> Radius(lane) != 0.0
    {
      if curveRadius == 0.0 then localDistance
      else localDistance * Radius(otherLane) / Radius(lane)
    }
  }

  /** The section `Create` builds from a piece. */
  function ToSection(piece: HighwayPiece): Section {
    Section(piece.pos, piece.length0, piece.startRotation, piece.curveRadiusLane0)
  }

  /** The sections `Create` builds from `pieces`: one per piece, in order, each copying
      its piece's lane-0 length, start rotation, curve radius and position. */
  function SectionsOf(pieces: seq<HighwayPiece>): (s: seq<Section>)
    ensures |s| == |pieces|
    ensures forall i :: 0 <= i < |pieces| ==>
      s[i].lane0Length == pieces[i].length0 && s[i].startRotation == pieces[i].startRotation &&
      s[i].curveRadius == pieces[i].curveRadiusLane0 && s[i].pos == pieces[i].pos
  {
    if pieces == [] then [] else SectionsOf(pieces[..|pieces| - 1]) + [ToSection(pieces[|pieces| - 1])]
  }

  /** Sum of the pieces' lane-0 lengths: what one `Create` adds to `Lane0Length`. */
  function Lane0Sum(pieces: seq<HighwayPiece>): real {
    if pieces == [] then 0.0 else Lane0Sum(pieces[..|pieces| - 1]) + pieces[|pieces| - 1].length0
  }

  /** Length of `lane` over the sections `s`: the sum of their lane lengths. */
  function TrackLength(s: seq<Section>, lane: real): real {
    if s == [] then 0.0 else TrackLength(s[..|s| - 1], lane) + s[|s| - 1].LaneLength(lane)
  }

  /** Distance along `lane` at which section `k` starts. */
  function SectionStart(s: seq<Section>, k: nat, lane: real): real
    requires k <= |s|
  {
    TrackLength(s[..k], lane)
  }

  /** Distance along `lane` at which section `k` ends. */
  function SectionEnd(s: seq<Section>, k: nat, lane: real): (end: real)
    requires k < |s|
    ensures end == SectionStart(s, k, lane) + s[k].LaneLength(lane)
  {
    assert s[..k + 1][..k] == s[..k];
    TrackLength(s[..k + 1], lane)
  }

  /** The sections used for curves have a non-zero radius in `lane`, so that the
      divisions by that radius are defined. */
  predicate NonzeroRadii(s: seq<Section>, lane: real) {
    forall i :: 0 <= i < |s| && s[i].curveRadius != 0.0 ==> s[i].Radius(lane) != 0.0
  }

  /** The shape the highway's pieces have: curve radii and lane-0 lengths not negative. */
  predicate WellFormed(s: seq<Section>) {
    forall i :: 0 <= i < |s| ==> s[i].curveRadius >= 0.0 && s[i].lane0Length >= 0.0
  }

  /** The first section at or after `i` whose end in `lane` lies beyond `d`. */
  function LocateFrom(s: seq<Section>, lane: real, d: real, i: nat): (r: Option<nat>)
    requires i <= |s|
    ensures r.Some? ==> i <= r.value < |s| && d < SectionEnd(s, r.value, lane)
    ensures r.Some? ==> forall j :: i <= j < r.value ==> SectionEnd(s, j, lane) <= d
    ensures r.None? ==> forall j :: i <= j < |s| ==> SectionEnd(s, j, lane) <= d
    decreases |s| - i
  {
    if i == |s| then None
    else if d < SectionEnd(s, i, lane) then Some(i)
    else LocateFrom(s, lane, d, i + 1)
  }

  /** The section lookup of `GetWorldPosition` and `GetEquivalentDistance`. */
  function Locate(s: seq<Section>, lane: real, d: real): Option<nat> {
    LocateFrom(s, lane, d, 0)
  }

  datatype Option<T> = None | Some(value: T)

  /** `WrapDistance`: `distance % LaneLength(lane)` with C#'s float remainder. */
  function WrappedDistance(s: seq<Section>, distance: real, lane: real): Float {
    Rem(distance, TrackLength(s, lane))
  }

  /** Where a (lane, distance) coordinate falls: a section and the distance into it. */
  datatype Hit = Hit(index: nat, localDistance: real)

  /** The section containing the wrapped distance and the offset into it, or None when
      no section does (a NaN wrapped distance compares false with every bound). */
  function LocalHit(s: seq<Section>, distance: real, lane: real): (h: Option<Hit>)
    ensures h.Some? ==> h.value.index < |s|
  {
    match WrappedDistance(s, distance, lane)
    case NaN => None
    case Finite(w) =>
      match Locate(s, lane, w)
      case None => None
      case Some(k) => Some(Hit(k, w - SectionStart(s, k, lane)))
  }

  /** `GetWorldPosition`: the car's position and heading, or the zero position and
      identity rotation when no section contains the distance. */
  function WorldPoseAt(s: seq<Section>, distance: real, lane: real): WorldPose
    requires NonzeroRadii(s, lane)
  {
    match LocalHit(s, distance, lane)
    case None => WorldPose(Zero, 0.0)
    case Some(h) =>
      var section := s[h.index];
      var local := section.LocalPosition(h.localDistance, lane);
      WorldPose(Transformed(section.startRotation, local.point, section.pos), local.rotY + section.startRotation)
  }

  /** `GetEquivalentDistance`: the distance in `otherLane` that lies at the same place of
      the same section as `distance` does in `lane`; 0 when no section contains it. */
  function EquivalentDistance(s: seq<Section>, distance: real, lane: real, otherLane: real): real
    requires NonzeroRadii(s, lane)
  {
    match LocalHit(s, distance, lane)
    case None => 0.0
    case Some(h) =>
      SectionStart(s, h.index, otherLane) + s[h.index].EquivalentOffset(h.localDistance, lane, otherLane)
  }
}
