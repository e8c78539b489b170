# DotsHighway track geometry in Dafny

This project models the track geometry of `DotsHighway`, from the HighwayRacers traffic
simulation. The highway is a closed road with several lanes. It is stored as an ordered array of
sections. A section is either straight (curve radius 0) or a quarter-circle curve. A car is placed
on the road by a lane and a distance along that lane. Lanes are reals, because a car that is
changing lane sits between two lanes. The model covers:

- a section's length in a lane: the stored lane-0 length on a straight, a quarter of the circle
  at the lane's radius on a curve;
- a lane's length: the sum over all sections;
- wrapping a distance with C#'s float `%`;
- finding the section that contains a (lane, distance) coordinate from running section starts;
- the local position and heading inside that section;
- the world placement built from them;
- mapping a distance to the distance at the same place in another lane;
- `Create`, which fills the section array from the scene's highway pieces and updates the two
  cached lengths.

Files:

- `float_math.dfy` (module `FloatMath`): C#'s float remainder over exact reals. It is C's
  truncating `fmod`: it truncates toward zero, keeps the dividend's sign and gives NaN for a zero divisor.
  The file also holds its bounds, its uniqueness and its idempotence.
- `track.dfy` (module `Track`): the constants, the `Section` value type with its per-section
  operations, and the functions that specify the lane-wide operations over a sequence of
  sections.
- `track_lemmas.dfy` (module `TrackLemmas`): the properties of those functions.
- `dots_highway.dfy` (module `HighwayRacers`): class `DotsHighway`, whose fields are the section
  array and the two cached lengths. Its methods run the source's loops, with invariants tying
  the running sums to the specification functions.

The constants `Highway.LANE_SPACING`, `Highway.NUM_LANES`, `Highway.MID_RADIUS` and `math.PI`
are defined outside the modelled file. They are constants without a value, of types that say
only what the model relies on: a positive spacing, at least one lane, and a positive π.
`HighwayPiece` is also defined elsewhere. It becomes a record holding its lane-0 length, start
rotation, lane-0 curve radius and position.

Where the code and its documentation disagree, the model follows the code:

- `WrapDistance`'s doc comment promises a result in [0, l). C#'s `%` keeps the sign of the
  dividend, so a negative distance wraps into (-l, 0]. `TrackLemmas.NegativeDistanceStaysNegative`
  and `FloatMath.RemBounds` state this. The [0, l) promise is proved for distances >= 0.
- Two lookups rely on that promise and break with it. A distance that wraps to a negative
  value is found in the first section. The local distance passed to `GetLocalPosition` is then
  negative, outside [0, the section's length) (`TrackLemmas.NegativeWrapBeforeFirstSection`).
  `GetEquivalentDistance` is meant to give "the same distance" in another lane. For a negative
  distance, the other lane can wrap it by one more lap, so mapping there and back does not
  return the wrapped distance. `TrackLemmas.NegativeDistanceRoundTripShifts` shows this on a
  track of a straight and a curve, with lanes 3 and 2 long: -2.5 comes back as -0.5.
  `TrackLemmas.HitInSection`, `TrackLemmas.WorldPoseInContainingSection`,
  `TrackLemmas.EquivalentWithinSameSection` and `TrackLemmas.EquivalentRoundTrip` therefore hold
  for distances >= 0 only.
- `Lane0Length` is never reset. Each `Create` adds the pieces' lane-0 lengths to the old
  total. `HighwayRacers.CreateTwice` shows that two calls with the same pieces leave twice the
  total. For straight pieces the track's lane-0 length is that total once.

## Model

| member | source | states |
|---|---|---|
| FloatMath.Rem | Original/HighwayRacers/Assets/HighwayRacers/Code/DOTS/DotsHighway.cs:100 | the float remainder is NaN exactly when the lane length it divides by is 0 |
| FloatMath.RemBounds | Original/HighwayRacers/Assets/HighwayRacers/Code/DOTS/DotsHighway.cs:95-101 | the wrapped value differs from the distance by a whole multiple of the length, is smaller than the length in size, lies in [0, L) for a distance >= 0 and in (-L, 0] for a negative one |
| FloatMath.RemOfSmall | Original/HighwayRacers/Assets/HighwayRacers/Code/DOTS/DotsHighway.cs:95-101 | a distance already smaller than the length in size is left unchanged by wrapping |
| FloatMath.RemIdempotent | Original/HighwayRacers/Assets/HighwayRacers/Code/DOTS/DotsHighway.cs:95-101 | wrapping a wrapped distance changes nothing |
| FloatMath.RemUnique | Original/HighwayRacers/Assets/HighwayRacers/Code/DOTS/DotsHighway.cs:95-101 | for a distance >= 0 and a positive length the wrapped value is the only value in [0, L) a whole number of laps from the distance |
| Track.Section.LaneLength | Original/HighwayRacers/Assets/HighwayRacers/Code/DOTS/DotsHighway.cs:18-24 | a curve's length in a lane is a quarter of the circle at that lane's radius (twice the length is radius times π), and it is positive for a positive curve radius and a lane >= 0 |
| Track.Section.LocalPosition | Original/HighwayRacers/Assets/HighwayRacers/Code/DOTS/DotsHighway.cs:26-39 | on a straight the heading is 0, the car is at the lane's lateral offset and at z = the local distance; on a curve the car is on the arc of the lane's radius at angle rotY, and rotY times that radius is the local distance travelled |
| Track.SectionsOf | Original/HighwayRacers/Assets/HighwayRacers/Code/DOTS/DotsHighway.cs:48-58 | one section per piece, in order, each copying its piece's lane-0 length, start rotation, curve radius and position |
| Track.SectionEnd | Original/HighwayRacers/Assets/HighwayRacers/Code/DOTS/DotsHighway.cs:122-123 | a section ends in a lane where it starts plus its length in that lane |
| Track.LocateFrom | Original/HighwayRacers/Assets/HighwayRacers/Code/DOTS/DotsHighway.cs:119-124 | the lookup returns a section whose end lies beyond the distance with every earlier section ending at or before it, or nothing when every section ends at or before it |
| TrackLemmas.StraightLengthLaneIndependent | Original/HighwayRacers/Assets/HighwayRacers/Code/DOTS/DotsHighway.cs:18-24 | a straight section has its stored lane-0 length in every lane |
| TrackLemmas.CurveOuterLaneLonger | Original/HighwayRacers/Assets/HighwayRacers/Code/DOTS/DotsHighway.cs:18-24 | on a curve a lane further out is strictly longer |
| TrackLemmas.LaneOffsetsSymmetric | Original/HighwayRacers/Assets/HighwayRacers/Code/DOTS/DotsHighway.cs:31-33 | straight-section lanes are symmetric about the road's middle line and one lane spacing apart |
| TrackLemmas.CurveHeadingWithinQuarterTurn | Original/HighwayRacers/Assets/HighwayRacers/Code/DOTS/DotsHighway.cs:35-36 | within a curve's length in the lane, rotY lies in [0, π/2) |
| TrackLemmas.TrackLengthNonnegative | Original/HighwayRacers/Assets/HighwayRacers/Code/DOTS/DotsHighway.cs:83-93 | a lane of a well-formed track is never shorter than 0 |
| TrackLemmas.TrackLengthConcat | Original/HighwayRacers/Assets/HighwayRacers/Code/DOTS/DotsHighway.cs:83-93 | the lane length over two runs of sections is the sum of their lane lengths |
| TrackLemmas.StartsMonotone | Original/HighwayRacers/Assets/HighwayRacers/Code/DOTS/DotsHighway.cs:117-123 | on a well-formed track later sections start no earlier |
| TrackLemmas.SectionWithinLane | Original/HighwayRacers/Assets/HighwayRacers/Code/DOTS/DotsHighway.cs:117-123 | every section's span lies within [0, lane length] |
| TrackLemmas.PositiveLengthInEveryLane | Original/HighwayRacers/Assets/HighwayRacers/Code/DOTS/DotsHighway.cs:83-93 | if one lane has positive length, every lane >= 0 does |
| TrackLemmas.StraightTrackLengthIsLane0Sum | Original/HighwayRacers/Assets/HighwayRacers/Code/DOTS/DotsHighway.cs:49-59 | for straight pieces the built track is, in every lane, as long as the pieces' lane-0 total that Create adds to Lane0Length |
| TrackLemmas.LocateIsFirstContaining | Original/HighwayRacers/Assets/HighwayRacers/Code/DOTS/DotsHighway.cs:119-124 | the lookup picks section k if and only if k is the first section whose end lies beyond the distance |
| TrackLemmas.LocateNoneIffPastEveryEnd | Original/HighwayRacers/Assets/HighwayRacers/Code/DOTS/DotsHighway.cs:119-140 | the lookup finds nothing if and only if every section ends at or before the distance |
| TrackLemmas.LocateFindsBelowLength | Original/HighwayRacers/Assets/HighwayRacers/Code/DOTS/DotsHighway.cs:115-124 | on a lane of non-zero length, a distance below the lane's length always falls in some section |
| TrackLemmas.HitInSection | Original/HighwayRacers/Assets/HighwayRacers/Code/DOTS/DotsHighway.cs:115-128 | for a distance >= 0 on a lane of positive length a section is found, and the local distance passed on lies in [0, that section's length in the lane) |
| TrackLemmas.HitExistsIffPositiveLength | Original/HighwayRacers/Assets/HighwayRacers/Code/DOTS/DotsHighway.cs:115-140 | on a well-formed track a section is found for any distance, negative ones included, if and only if the lane's length is positive |
| TrackLemmas.WorldPoseFallbackIffEmptyLane | Original/HighwayRacers/Assets/HighwayRacers/Code/DOTS/DotsHighway.cs:115-140 | the fallback branch (zero position, identity rotation) is taken if and only if the lane has length 0, as an empty section array gives |
| TrackLemmas.WorldPoseInContainingSection | Original/HighwayRacers/Assets/HighwayRacers/Code/DOTS/DotsHighway.cs:124-135 | on a well-formed lane of positive length, a car at a distance >= 0 is placed in the containing section's frame (its rotation and position); its heading is the section's on a straight and within a quarter turn beyond it on a curve |
| TrackLemmas.ScaleIntoOtherLane | Original/HighwayRacers/Assets/HighwayRacers/Code/DOTS/DotsHighway.cs:169-172 | scaling by the ratio of the radii maps a point of one quarter circle into the other |
| TrackLemmas.EquivalentOffsetWithinSection | Original/HighwayRacers/Assets/HighwayRacers/Code/DOTS/DotsHighway.cs:166-172 | an offset within a section in one lane maps to an offset within the same section in the other lane |
| TrackLemmas.EquivalentOffsetSameLane | Original/HighwayRacers/Assets/HighwayRacers/Code/DOTS/DotsHighway.cs:166-172 | mapping an offset to its own lane leaves it unchanged |
| TrackLemmas.EquivalentOffsetRoundTrip | Original/HighwayRacers/Assets/HighwayRacers/Code/DOTS/DotsHighway.cs:166-172 | mapping an offset to another lane and back gives it back |
| TrackLemmas.EquivalentWithinSameSection | Original/HighwayRacers/Assets/HighwayRacers/Code/DOTS/DotsHighway.cs:146-176 | on a well-formed lane of positive length, the equivalent distance of a distance >= 0 lies in the same section's span [otherStart, otherEnd) in the other lane |
| TrackLemmas.EquivalentInSameLaneIsWrap | Original/HighwayRacers/Assets/HighwayRacers/Code/DOTS/DotsHighway.cs:143-172 | on a lane of positive length, the equivalent distance in the same lane is the wrapped distance (on a zero-length lane it is 0 while the wrap is NaN) |
| TrackLemmas.HitInsideSpan | Original/HighwayRacers/Assets/HighwayRacers/Code/DOTS/DotsHighway.cs:156-167 | a distance inside section k's span is found in section k, at its offset from the section's start |
| TrackLemmas.EquivalentRoundTrip | Original/HighwayRacers/Assets/HighwayRacers/Code/DOTS/DotsHighway.cs:143-172 | mapping a distance >= 0 to another lane and back recovers the wrapped distance ("appears to be the same distance") |
| TrackLemmas.NegativeDistanceStaysNegative | Original/HighwayRacers/Assets/HighwayRacers/Code/DOTS/DotsHighway.cs:95-101 | a distance in (-L, 0) wraps to itself, outside the documented [0, L) |
| TrackLemmas.NegativeWrapBeforeFirstSection | Original/HighwayRacers/Assets/HighwayRacers/Code/DOTS/DotsHighway.cs:115-128 | a distance that wraps to a negative value is found in the first section, with that negative value as the local distance, outside [0, the section's length) |
| TrackLemmas.NegativeWrapKeptOnFirstStraight | Original/HighwayRacers/Assets/HighwayRacers/Code/DOTS/DotsHighway.cs:149-167 | on a track that starts with a straight, a distance that wraps to a negative value maps to that value in every other lane |
| TrackLemmas.NegativeDistanceRoundTripShifts | Original/HighwayRacers/Assets/HighwayRacers/Code/DOTS/DotsHighway.cs:143-172 | on a straight of length 1 followed by a curve 2 long in one lane and 1 in lane 0, the distance -2.5 maps to -2.5 in lane 0 but comes back as -0.5: the round trip fails for negative distances |
| HighwayRacers.DotsHighway.constructor | Original/HighwayRacers/Assets/HighwayRacers/Code/DOTS/DotsHighway.cs:42-43 | the default highway has no sections and both cached lengths 0 |
| HighwayRacers.DotsHighway.Create | Original/HighwayRacers/Assets/HighwayRacers/Code/DOTS/DotsHighway.cs:45-64 | a fresh section array built from the pieces; Lane0Length grows by the pieces' lane-0 total; LastLaneLength becomes the length of lane NumLanes - 1 |
| HighwayRacers.DotsHighway.LaneLength | Original/HighwayRacers/Assets/HighwayRacers/Code/DOTS/DotsHighway.cs:83-93 | the loop returns the sum over all sections of their length in the lane (0 for no sections) |
| HighwayRacers.DotsHighway.WrapDistance | Original/HighwayRacers/Assets/HighwayRacers/Code/DOTS/DotsHighway.cs:95-101 | NaN exactly for a zero-length lane; otherwise a whole number of laps from the distance and unchanged by wrapping again; in [0, L) for a distance >= 0 and a positive length |
| HighwayRacers.DotsHighway.GetWorldPosition | Original/HighwayRacers/Assets/HighwayRacers/Code/DOTS/DotsHighway.cs:111-141 | the loop's running section starts give exactly the placement in the first section whose end lies beyond the wrapped distance, or the zero position and identity rotation |
| HighwayRacers.DotsHighway.GetEquivalentDistance | Original/HighwayRacers/Assets/HighwayRacers/Code/DOTS/DotsHighway.cs:146-176 | the loop's running starts in both lanes give exactly the other lane's section start plus the offset, kept on a straight and scaled by the radii on a curve, or 0 when no section is found |
| HighwayRacers.CreateTwice | Original/HighwayRacers/Assets/HighwayRacers/Code/DOTS/DotsHighway.cs:45-81 | two Create calls with the same pieces leave Lane0Length at twice the pieces' lane-0 total, while a straight track's lane-0 length is that total once |

## Left out

- `SetNumCars` and `AddCarEntities` (DotsHighway.cs:178-242) are not modelled. They create and destroy engine entities, read tuning values from the running game and draw random car settings.
- `Dispose` and `RegisterReaderJob` (DotsHighway.cs:66-77) are not modelled. They only free native memory and hold a commented-out job handle. `Create`'s re-allocation is modelled as a fresh array.
- The trigonometry is not evaluated. This covers the cos/sin of a curve's local position and the quaternion rotation and multiplication of the world placement. A curve point is kept as its radius and angle, and a world position as its yaw, local point and offset. A rotation about the up axis is kept as its angle, with the identity as angle 0.
- The `#else` branch of `LaneLength` (DotsHighway.cs:90-92) is not modelled, because it is never compiled.
- Floats are modelled as exact reals. Rounding is not modelled, and neither are infinities. NaN is modelled only where it decides control flow: the remainder by a zero lane length, which every later comparison treats as false.
- Track.Section.LocalPosition: requires a non-zero radius in the lane on a curve. In floats, a division by a zero radius gives an infinity or NaN, which the model does not represent.
- HighwayRacers.DotsHighway.GetWorldPosition: requires a non-zero radius on every curve in the given lane (`NonzeroRadii`), for the same reason. This is broader than the source, which divides only by the radius of the section it finds (DotsHighway.cs:36). A lane with a zero radius on a curve that is never reached is excluded too.
- HighwayRacers.DotsHighway.GetEquivalentDistance: requires `NonzeroRadii` in the given lane, for the same reason. It is broader than the source in the same way, since the source divides only by the found section's radius (DotsHighway.cs:172).
- The fallback placement is the tag `WorldPoint.Zero` with yaw 0, a value distinct from every placement in a section. The source returns `float3.zero` and `quaternion.identity`, which a placement at the origin with heading 0 also gives (a straight section at the origin, heading 0, the middle lane, local distance 0). `TrackLemmas.WorldPoseFallbackIffEmptyLane` is therefore about which branch is taken, not about the returned numbers.
- The lemmas about lookup and lane mapping assume a well-formed track: curve radii and lane-0 lengths not negative, and lanes >= 0. Without that, lane lengths can be negative, the running section starts are not monotone, and the bounds do not hold.
- `HighwayPiece.length(lane)` is called by `Create` only for lane 0. It becomes the record field `length0`.
- The values of `LANE_SPACING`, `NUM_LANES`, `MID_RADIUS` and π are not fixed. Only their signs are used.
- The other four source files are not modelled: `IntentSelectionSystem.cs`, `FirefighterRandomTargetSystem.cs`, `PathData.cs` and `LTWUpdateSystem.cs`. They belong to other samples of the repository and are engine glue (entity queries, command buffers, random choices, data declarations) with no track logic.
